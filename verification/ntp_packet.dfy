/**
 * The 48-byte NTP packet of RFC 5905 section 7.3 and its wire form. The
 * source overlays a packed struct on a byte buffer and converts each
 * multi-byte field with `htonl`/`ntohl`; here every field is written and
 * read at its fixed offset, most significant byte first:
 *
 *   0 header (LI, VN, Mode)   1 stratum   2 poll   3 precision
 *   4-7 root delay   8-11 root dispersion   12-15 reference ID
 *   16-23 reference timestamp   24-31 origin timestamp
 *   32-39 receive timestamp     40-47 transmit timestamp
 */
module NtpPacket {
  import opened NtpTime

  const PacketSize: nat := 48

  /**
   * The fields of `ntp_packet_t` in host order. Poll, precision and root
   * delay are signed in the source; they are kept here as the raw bits
   * the wire carries.
   */
  datatype Packet = Packet(
    liVnMode: bv8,
    stratum: bv8,
    poll: bv8,
    precision: bv8,
    rootDelay: bv32,
    rootDispersion: bv32,
    refId: bv32,
    reference: NtpTimestamp,
    origin: NtpTimestamp,
    receive: NtpTimestamp,
    transmit: NtpTimestamp)

  const ZeroTimestamp := NtpTimestamp(0, 0)

  /** `htonl`: a 32-bit word as four bytes, most significant first. */
  function WordBytes(x: bv32): (r: seq<bv8>)
    ensures |r| == 4
  {
    [(x >> 24) as bv8, ((x >> 16) & 0xFF) as bv8, ((x >> 8) & 0xFF) as bv8, (x & 0xFF) as bv8]
  }

  /** `ntohl` on the four bytes at offset `at`. */
  function ReadWord(b: seq<bv8>, at: nat): bv32
    requires at + 4 <= |b|
  {
    ((b[at] as bv32) << 24) | ((b[at + 1] as bv32) << 16) | ((b[at + 2] as bv32) << 8) | (b[at + 3] as bv32)
  }

  lemma ReadWordBytes(x: bv32)
    ensures ReadWord(WordBytes(x), 0) == x
  {
  }

  lemma WordBytesRead(b: seq<bv8>, at: nat)
    requires at + 4 <= |b|
    ensures WordBytes(ReadWord(b, at)) == b[at..at + 4]
  {
  }

  /** Consecutive words, each most significant byte first. */
  function Words(ws: seq<bv32>): (r: seq<bv8>)
    ensures |r| == 4 * |ws|
  {
    if ws == [] then [] else WordBytes(ws[0]) + Words(ws[1..])
  }

  /** The words of a buffer whose length is a multiple of four. */
  function ReadWords(b: seq<bv8>): (ws: seq<bv32>)
    requires |b| % 4 == 0
    ensures |ws| == |b| / 4
  {
    if b == [] then [] else [ReadWord(b, 0)] + ReadWords(b[4..])
  }

  lemma {:induction false} ReadWordsWords(ws: seq<bv32>)
    ensures ReadWords(Words(ws)) == ws
  {
    if ws != [] {
      var head, rest := WordBytes(ws[0]), Words(ws[1..]);
      var r := head + rest;
      assert r[4..] == rest;
      assert r[0] == head[0] && r[1] == head[1] && r[2] == head[2] && r[3] == head[3];
      ReadWordsWords(ws[1..]);
      ReadWordBytes(ws[0]);
    }
  }

  lemma {:induction false} WordsReadWords(b: seq<bv8>)
    requires |b| % 4 == 0
    ensures Words(ReadWords(b)) == b
  {
    if b != [] {
      WordsReadWords(b[4..]);
      WordBytesRead(b, 0);
      assert b == b[..4] + b[4..];
    }
  }

  /** Serialising words distributes over concatenation. */
  lemma {:induction false} WordsAppend(ws: seq<bv32>, vs: seq<bv32>)
    ensures Words(ws + vs) == Words(ws) + Words(vs)
  {
    if ws == [] {
      assert ws + vs == vs;
    } else {
      assert (ws + vs)[1..] == ws[1..] + vs;
      WordsAppend(ws[1..], vs);
    }
  }

  /** Zero words serialise to zero bytes. */
  lemma {:induction false} WordsOfZeros(n: nat)
    ensures Words(seq(n, _ => 0)) == seq(4 * n, _ => 0)
  {
    if n > 0 {
      var zs: seq<bv32> := seq(n, _ => 0);
      assert zs[1..] == seq(n - 1, _ => 0);
      WordsOfZeros(n - 1);
      assert WordBytes(0) == [0, 0, 0, 0];
      assert seq(4 * n, _ => 0 as bv8) == [0, 0, 0, 0] + seq(4 * (n - 1), _ => 0);
    }
  }

  /** Word `k` of a buffer is the one at byte offset 4k. */
  lemma {:induction false} ReadWordsAt(b: seq<bv8>, k: nat)
    requires |b| % 4 == 0 && k < |b| / 4
    ensures ReadWords(b)[k] == ReadWord(b, 4 * k)
  {
    if k > 0 {
      ReadWordsAt(b[4..], k - 1);
    }
  }

  /** The eleven 32-bit words after the first four bytes, in wire order. */
  function FieldWords(p: Packet): (ws: seq<bv32>)
    ensures |ws| == 11
  {
    [p.rootDelay, p.rootDispersion, p.refId,
     p.reference.seconds, p.reference.fraction, p.origin.seconds, p.origin.fraction,
     p.receive.seconds, p.receive.fraction, p.transmit.seconds, p.transmit.fraction]
  }

  /** The packet as the 48 bytes that go on the wire. */
  function Serialize(p: Packet): (r: seq<bv8>)
    ensures |r| == PacketSize
  {
    [p.liVnMode, p.stratum, p.poll, p.precision] + Words(FieldWords(p))
  }

  function PacketOf(head: seq<bv8>, ws: seq<bv32>): Packet
    requires |head| == 4 && |ws| == 11
  {
    Packet(head[0], head[1], head[2], head[3], ws[0], ws[1], ws[2],
           NtpTimestamp(ws[3], ws[4]), NtpTimestamp(ws[5], ws[6]),
           NtpTimestamp(ws[7], ws[8]), NtpTimestamp(ws[9], ws[10]))
  }

  /** Packing four header bytes and eleven words into a packet and serialising it lays them out in order. */
  lemma SerializePacketOf(head: seq<bv8>, ws: seq<bv32>)
    requires |head| == 4 && |ws| == 11
    ensures Serialize(PacketOf(head, ws)) == head + Words(ws)
  {
    var p := PacketOf(head, ws);
    FieldWordsOf(head, ws);
    assert [p.liVnMode, p.stratum, p.poll, p.precision] == head;
  }

  /** The words of a packed packet are the words it was packed from. */
  lemma FieldWordsOf(head: seq<bv8>, ws: seq<bv32>)
    requires |head| == 4 && |ws| == 11
    ensures FieldWords(PacketOf(head, ws)) == ws
  {
  }

  /**
   * The fields of a received 48-byte buffer: each comes from its RFC 5905
   * offset, bytes 0-3, then big-endian words at 4, 8, 12 and timestamps at
   * 16, 24, 32 and 40.
   */
  function Parse(b: seq<bv8>): (p: Packet)
    requires |b| == PacketSize
    ensures p.liVnMode == b[0] && p.stratum == b[1]
    ensures p.poll == b[2] && p.precision == b[3]
    ensures p.rootDelay == ReadWord(b, 4)
    ensures p.rootDispersion == ReadWord(b, 8)
    ensures p.refId == ReadWord(b, 12)
    ensures p.reference == NtpTimestamp(ReadWord(b, 16), ReadWord(b, 20))
    ensures p.origin == NtpTimestamp(ReadWord(b, 24), ReadWord(b, 28))
    ensures p.receive == NtpTimestamp(ReadWord(b, 32), ReadWord(b, 36))
    ensures p.transmit == NtpTimestamp(ReadWord(b, 40), ReadWord(b, 44))
  {
    FieldsAt(b);
    PacketOf(b[..4], ReadWords(b[4..]))
  }

  /** Word `k` of the eleven after the header is the big-endian word at byte `4 + 4k`. */
  lemma FieldsAt(b: seq<bv8>)
    requires |b| == PacketSize
    ensures forall k: nat :: k < 11 ==> ReadWords(b[4..])[k] == ReadWord(b, 4 + 4 * k)
  {
    forall k: nat | k < 11 ensures ReadWords(b[4..])[k] == ReadWord(b, 4 + 4 * k) {
      ReadWordsAt(b[4..], k);
    }
  }

  /** Every field is read back from the offset it was written to. */
  lemma ParseSerialize(p: Packet)
    ensures Parse(Serialize(p)) == p
  {
    var r := Serialize(p);
    assert r[4..] == Words(FieldWords(p));
    ReadWordsWords(FieldWords(p));
  }

  /** The 48 bytes are all accounted for: re-serialising a parsed buffer gives the buffer back. */
  lemma SerializeParse(b: seq<bv8>)
    requires |b| == PacketSize
    ensures Serialize(Parse(b)) == b
  {
    WordsReadWords(b[4..]);
    SerializePacketOf(b[..4], ReadWords(b[4..]));
    assert b == b[..4] + b[4..];
  }
}
