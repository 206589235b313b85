/**
 * The first byte of an NTP packet packs three fields (RFC 5905 section 7.3):
 * the leap indicator in bits 7-6, the version number in bits 5-3 and the
 * mode in bits 2-0. Each setter clears its field with the field's mask and
 * ors in the new value, truncated to the field's width.
 */
module NtpHeader {

  const LiShift: bv8 := 6
  const VnShift: bv8 := 3
  const ModeShift: bv8 := 0

  const LiMask: bv8 := 0xC0
  const VnMask: bv8 := 0x38
  const ModeMask: bv8 := 0x07

  /** Mode 3: a client request. */
  const ModeClient: bv8 := 3
  const Version4: bv8 := 4

  function GetLi(h: bv8): (li: bv8)
    ensures li < 4
  {
    (h & LiMask) >> LiShift
  }

  function GetVn(h: bv8): (vn: bv8)
    ensures vn < 8
  {
    (h & VnMask) >> VnShift
  }

  function GetMode(h: bv8): (mode: bv8)
    ensures mode < 8
  {
    (h & ModeMask) >> ModeShift
  }

  /** Replaces the leap indicator; the other two fields keep their values. */
  function SetLi(h: bv8, li: bv8): (r: bv8)
    ensures GetLi(r) == li & 0x3
    ensures GetVn(r) == GetVn(h) && GetMode(r) == GetMode(h)
  {
    (h & !LiMask) | ((li & 0x3) << LiShift)
  }

  /** Replaces the version number; the other two fields keep their values. */
  function SetVn(h: bv8, vn: bv8): (r: bv8)
    ensures GetVn(r) == vn & 0x7
    ensures GetLi(r) == GetLi(h) && GetMode(r) == GetMode(h)
  {
    (h & !VnMask) | ((vn & 0x7) << VnShift)
  }

  /** Replaces the mode; the other two fields keep their values. */
  function SetMode(h: bv8, mode: bv8): (r: bv8)
    ensures GetMode(r) == mode & 0x7
    ensures GetLi(r) == GetLi(h) && GetVn(r) == GetVn(h)
  {
    (h & !ModeMask) | ((mode & 0x7) << ModeShift)
  }

  /** The three masks are disjoint and cover the whole byte. */
  lemma MasksPartitionByte()
    ensures LiMask & VnMask == 0 && LiMask & ModeMask == 0 && VnMask & ModeMask == 0
    ensures LiMask | VnMask | ModeMask == 0xFF
  {
  }

  /** A header byte is determined by its three fields. */
  lemma FieldsDetermineByte(h: bv8, h': bv8)
    requires GetLi(h) == GetLi(h') && GetVn(h) == GetVn(h') && GetMode(h) == GetMode(h')
    ensures h == h'
  {
  }

  /** The three setters commute pairwise, so the order they run in does not matter. */
  lemma SettersCommute(h: bv8, li: bv8, vn: bv8, mode: bv8)
    ensures SetLi(SetVn(h, vn), li) == SetVn(SetLi(h, li), vn)
    ensures SetLi(SetMode(h, mode), li) == SetMode(SetLi(h, li), mode)
    ensures SetVn(SetMode(h, mode), vn) == SetMode(SetVn(h, vn), mode)
  {
    FieldsDetermineByte(SetLi(SetVn(h, vn), li), SetVn(SetLi(h, li), vn));
    FieldsDetermineByte(SetLi(SetMode(h, mode), li), SetMode(SetLi(h, li), mode));
    FieldsDetermineByte(SetVn(SetMode(h, mode), vn), SetMode(SetVn(h, vn), mode));
  }

  /** Setting all three fields fixes the byte, whatever it held before. */
  lemma SetAllOverwrites(h: bv8, h': bv8, li: bv8, vn: bv8, mode: bv8)
    ensures SetMode(SetVn(SetLi(h, li), vn), mode) == SetMode(SetVn(SetLi(h', li), vn), mode)
  {
    FieldsDetermineByte(SetMode(SetVn(SetLi(h, li), vn), mode), SetMode(SetVn(SetLi(h', li), vn), mode));
  }

  /** LI = 0, VN = 4, Mode = 3 on a zeroed byte, as a client request writes it, is 0x23. */
  lemma ClientRequestHeader()
    ensures SetMode(SetVn(SetLi(0, 0), Version4), ModeClient) == 0x23
  {
  }
}
