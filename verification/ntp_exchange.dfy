/**
 * One request/response exchange with an NTP server (`ntp_request`): the
 * client request, the size check on the reply, the four timestamps T1..T4
 * and the offset and delay of RFC 5905 section 8.
 *
 * The socket round trip is not modelled: what it delivers is a
 * `Reception` parameter, and the two clock readings (the send time put in
 * the request and T4) are parameters as well.
 */
module NtpExchange {
  import opened CInt
  import opened NtpTime
  import opened NtpPacket
  import NtpHeader

  /** `ntp_offset_delay_t`: offset and delay, each as a normalised (seconds, nanoseconds) pair. */
  datatype OffsetDelay = OffsetDelay(offsetSec: int, offsetNsec: int, delaySec: int, delayNsec: int)

  /** What the UDP exchange delivered: a transport failure, or one datagram. */
  datatype Reception = TransportError | Datagram(data: seq<bv8>)

  /**
   * The value `udp_send_recv` returns: -1 on failure, otherwise the number
   * of bytes `recvfrom` stored in the 48-byte receive buffer (a longer
   * datagram is truncated to the buffer).
   */
  function ReceivedSize(r: Reception): (n: int)
    ensures n == -1 <==> r.TransportError?
    ensures -1 <= n <= PacketSize
  {
    match r
    case TransportError => -1
    case Datagram(data) => if |data| < PacketSize then |data| else PacketSize
  }

  /**
   * A reply is used when the transport succeeded and the datagram had at
   * least 48 bytes: exactly when `recvfrom` filled the whole buffer.
   */
  function Accepted(r: Reception): (accepted: bool)
    ensures accepted <==> ReceivedSize(r) == PacketSize
  {
    r.Datagram? && |r.data| >= PacketSize
  }

  /** The receive buffer of an accepted reply: its first 48 bytes. */
  function ReplyBytes(r: Reception): (b: seq<bv8>)
    requires Accepted(r)
    ensures |b| == PacketSize
  {
    r.data[..PacketSize]
  }

  // ---------------------------------------------------------------- request

  /** The transmit timestamp a request sent at `sendTime` carries: `ntp_from_timespec`, split in halves. */
  function TransmitStamp(sendTime: Timespec): (t: NtpTimestamp)
    requires InNtpEra(sendTime)
    ensures t.seconds as int == sendTime.sec + NtpUnixEpochDiff
    ensures (t.fraction as int) * NanosPerSecond <= sendTime.nsec * Two32 < (t.fraction as int + 1) * NanosPerSecond
  {
    SplitTimestamp(NtpFromTimespec(sendTime))
  }

  /** The client request: LI 0, version 4, mode 3, every other field zero but the transmit timestamp. */
  function ClientRequest(transmit: NtpTimestamp): (p: Packet)
    ensures NtpHeader.GetLi(p.liVnMode) == 0
    ensures NtpHeader.GetVn(p.liVnMode) == NtpHeader.Version4
    ensures NtpHeader.GetMode(p.liVnMode) == NtpHeader.ModeClient
    ensures p.transmit == transmit
  {
    var h := NtpHeader.SetMode(NtpHeader.SetVn(NtpHeader.SetLi(0, 0), NtpHeader.Version4), NtpHeader.ModeClient);
    Packet(h, 0, 0, 0, 0, 0, 0, ZeroTimestamp, ZeroTimestamp, ZeroTimestamp, transmit)
  }

  /** `htonl` store of a 32-bit word into four bytes of a buffer. */
  method StoreWord(buf: array<bv8>, at: nat, x: bv32)
    requires at + 4 <= buf.Length
    modifies buf
    ensures forall k :: 0 <= k < buf.Length && !(at <= k < at + 4) ==> buf[k] == old(buf[k])
    ensures buf[at..at + 4] == WordBytes(x)
  {
    var w := WordBytes(x);
    buf[at] := w[0];
    buf[at + 1] := w[1];
    buf[at + 2] := w[2];
    buf[at + 3] := w[3];
  }

  /**
   * The 48 bytes of a request carrying `transmit`: 0x23, 39 zero bytes,
   * then the transmit timestamp's seconds and fraction, each most
   * significant byte first.
   */
  function RequestBytes(transmit: NtpTimestamp): (b: seq<bv8>)
    ensures |b| == PacketSize
  {
    [0x23, 0, 0, 0] + (seq(36, _ => 0) + (WordBytes(transmit.seconds) + WordBytes(transmit.fraction)))
  }

  /** The words after the first four bytes of a request: nine zeros, then the transmit timestamp. */
  lemma RequestFieldWords(transmit: NtpTimestamp)
    ensures FieldWords(ClientRequest(transmit)) == seq(9, _ => 0) + [transmit.seconds, transmit.fraction]
  {
  }

  lemma TwoWords(x: bv32, y: bv32)
    ensures Words([x, y]) == WordBytes(x) + WordBytes(y)
  {
    assert [x, y][1..] == [y];
    assert [y][1..] == [];
  }

  /** Serialising the client request gives exactly the request bytes. */
  lemma RequestLayout(transmit: NtpTimestamp)
    ensures Serialize(ClientRequest(transmit)) == RequestBytes(transmit)
  {
    var zeros: seq<bv32> := seq(9, _ => 0);
    RequestFieldWords(transmit);
    WordsAppend(zeros, [transmit.seconds, transmit.fraction]);
    WordsOfZeros(9);
    TwoWords(transmit.seconds, transmit.fraction);
    NtpHeader.ClientRequestHeader();
  }

  /** The request bytes have byte 0 = 0x23, bytes 1-39 zero and the transmit timestamp in bytes 40-47. */
  lemma RequestBytesLayout(transmit: NtpTimestamp)
    ensures RequestBytes(transmit)[0] == 0x23
    ensures forall k :: 1 <= k < 40 ==> RequestBytes(transmit)[k] == 0
    ensures RequestBytes(transmit)[40..44] == WordBytes(transmit.seconds)
    ensures RequestBytes(transmit)[44..48] == WordBytes(transmit.fraction)
  {
  }

  /** Conversely, any 48 bytes laid out that way are the request bytes. */
  lemma LayoutIsRequestBytes(b: seq<bv8>, transmit: NtpTimestamp)
    requires |b| == PacketSize
    requires b[0] == 0x23 && forall k :: 1 <= k < 40 ==> b[k] == 0
    requires b[40..44] == WordBytes(transmit.seconds)
    requires b[44..48] == WordBytes(transmit.fraction)
    ensures b == RequestBytes(transmit)
  {
    ZeroRun(b, 4, 40);
    assert b[..4] == [0x23, 0, 0, 0];
    SplitBuffer(b);
  }

  lemma ZeroRun(b: seq<bv8>, from: nat, to: nat)
    requires from <= to <= |b|
    requires forall k :: from <= k < to ==> b[k] == 0
    ensures b[from..to] == seq(to - from, _ => 0)
  {
  }

  lemma SplitBuffer(b: seq<bv8>)
    requires |b| == PacketSize
    ensures b == b[..4] + (b[4..40] + (b[40..44] + b[44..48]))
  {
  }

  /**
   * The request as `ntp_request` builds it: a zeroed 48-byte buffer, the
   * three header fields set in place, then the transmit timestamp taken
   * from the send time.
   */
  method BuildRequest(sendTime: Timespec) returns (buf: array<bv8>)
    requires InNtpEra(sendTime)
    ensures fresh(buf) && buf.Length == PacketSize
    ensures buf[..] == RequestBytes(TransmitStamp(sendTime))
  {
    buf := new bv8[PacketSize](_ => 0);
    buf[0] := NtpHeader.SetLi(buf[0], 0);
    buf[0] := NtpHeader.SetVn(buf[0], NtpHeader.Version4);
    buf[0] := NtpHeader.SetMode(buf[0], NtpHeader.ModeClient);
    NtpHeader.ClientRequestHeader();
    var tx := TransmitStamp(sendTime);
    StoreWord(buf, 40, tx.seconds);
    StoreWord(buf, 44, tx.fraction);
    LayoutIsRequestBytes(buf[..], tx);
  }

  // ------------------------------------------------------ offset and delay

  /** The instant a wire timestamp denotes, in nanoseconds since the POSIX epoch. */
  function Instant(t: NtpTimestamp): (ns: int)
    ensures -NtpUnixEpochDiff * NanosPerSecond <= ns < (Two32 - NtpUnixEpochDiff) * NanosPerSecond
  {
    NtpEraFitsInt64(TimespecFromNtp(t));
    TsToNs(TimespecFromNtp(t))
  }

  /**
   * The instant in closed form: whole NTP seconds less the 1900-1970 offset,
   * plus the fraction scaled to nanoseconds and rounded down.
   */
  lemma InstantClosedForm(t: NtpTimestamp)
    ensures Instant(t) == (t.seconds as int - NtpUnixEpochDiff) * NanosPerSecond + ((t.fraction as int) * NanosPerSecond) / Two32
  {
  }

  /** Nanosecond counts of instants representable in NTP era 0. */
  predicate InEraNanos(x: int) {
    -NtpUnixEpochDiff * NanosPerSecond <= x < (Two32 - NtpUnixEpochDiff) * NanosPerSecond
  }

  /** offset = ((T2 - T1) + (T3 - T4)) / 2, with C's division toward zero. */
  function Offset(t1: int, t2: int, t3: int, t4: int): (offset: int)
    ensures var x := (t2 - t1) + (t3 - t4);
            (x >= 0 ==> 0 <= x - 2 * offset <= 1) && (x < 0 ==> -1 <= x - 2 * offset <= 0)
  {
    TruncDiv((t2 - t1) + (t3 - t4), 2)
  }

  /**
   * delay = (T4 - T1) - (T3 - T2): the round trip less the time the server
   * held the request, which is the outbound leg plus the return leg; the
   * error of the server's clock enters one leg with each sign and cancels.
   */
  function Delay(t1: int, t2: int, t3: int, t4: int): (delay: int)
    ensures delay == (t2 - t1) + (t4 - t3)
    ensures t1 <= t2 && t3 <= t4 ==> delay >= 0
  {
    (t4 - t1) - (t3 - t2)
  }

  /** For instants in NTP era 0 no intermediate of the two formulas overflows 64 bits. */
  lemma FormulasFitInt64(t1: int, t2: int, t3: int, t4: int)
    requires InEraNanos(t1) && InEraNanos(t2) && InEraNanos(t3) && InEraNanos(t4)
    ensures InInt64(t2 - t1) && InInt64(t3 - t4) && InInt64((t2 - t1) + (t3 - t4))
    ensures InInt64(t4 - t1) && InInt64(t3 - t2) && InInt64(Delay(t1, t2, t3, t4))
    ensures InInt64(Offset(t1, t2, t3, t4))
  {
  }

  /**
   * With a symmetric path (the same one-way delay `d` out and back) and a
   * server clock ahead by `theta`, the formulas recover `theta` exactly and
   * the delay is the two one-way delays, whatever the server's hold time.
   */
  lemma SymmetricPathRecoversClockError(t1: int, d: int, hold: int, theta: int)
    ensures Offset(t1, t1 + d + theta, t1 + d + theta + hold, t1 + 2 * d + hold) == theta
    ensures Delay(t1, t1 + d + theta, t1 + d + theta + hold, t1 + 2 * d + hold) == 2 * d
  {
  }

  /**
   * T1 = 0, T2 = T3 = 1 s, T4 = 2 s: offset 0 and delay 2 s, one second
   * each way with no time held at the server.
   */
  lemma OneSecondEachWay()
    ensures Offset(0, 1_000_000_000, 1_000_000_000, 2_000_000_000) == 0
    ensures Delay(0, 1_000_000_000, 1_000_000_000, 2_000_000_000) == 2_000_000_000
  {
  }

  /** An odd negative sum is rounded toward zero, not down: -3 ns halves to -1 ns. */
  lemma OffsetTruncatesTowardZero()
    ensures Offset(0, 0, 0, 3) == -1
  {
  }

  /**
   * The result `ntp_request` stores for an accepted reply: T1, T2, T3 from
   * the reply's origin, receive and transmit timestamps, T4 the local
   * receive time, both results normalised.
   */
  function Measure(reply: Packet, t4: Timespec): (r: OffsetDelay)
    requires InNtpEra(t4)
    ensures 0 <= r.offsetNsec < NanosPerSecond && 0 <= r.delayNsec < NanosPerSecond
    ensures r.offsetSec * NanosPerSecond + r.offsetNsec
         == Offset(Instant(reply.origin), Instant(reply.receive), Instant(reply.transmit), TsToNs(t4))
    ensures r.delaySec * NanosPerSecond + r.delayNsec
         == Delay(Instant(reply.origin), Instant(reply.receive), Instant(reply.transmit), TsToNs(t4))
  {
    NtpEraFitsInt64(t4);
    var t1, t2, t3, t4ns := Instant(reply.origin), Instant(reply.receive), Instant(reply.transmit), TsToNs(t4);
    var offset := Normalize(Offset(t1, t2, t3, t4ns));
    var delay := Normalize(Delay(t1, t2, t3, t4ns));
    OffsetDelay(offset.sec, offset.nsec, delay.sec, delay.nsec)
  }

  /** Every stored total fits the `int64_t` arithmetic the caller does on it. */
  lemma MeasureFitsInt64(reply: Packet, t4: Timespec)
    requires InNtpEra(t4)
    ensures InInt64(Measure(reply, t4).offsetSec * NanosPerSecond)
    ensures InInt64(Measure(reply, t4).delaySec * NanosPerSecond)
    ensures InInt64(Measure(reply, t4).delaySec * NanosPerSecond + Measure(reply, t4).delayNsec)
  {
    var r := Measure(reply, t4);
    NtpEraFitsInt64(t4);
    FormulasFitInt64(Instant(reply.origin), Instant(reply.receive), Instant(reply.transmit), TsToNs(t4));
  }

  /**
   * When the server echoes the request's transmit timestamp as the origin
   * (RFC 5905 section 8), T1 is the send time to within one nanosecond.
   */
  lemma EchoedOriginIsSendTime(sendTime: Timespec, reply: Packet)
    requires InNtpEra(sendTime)
    requires reply.origin == TransmitStamp(sendTime)
    ensures TsToNs(sendTime) - 1 <= Instant(reply.origin) <= TsToNs(sendTime)
  {
    NtpEraFitsInt64(sendTime);
    TimestampRoundTrip(sendTime);
  }

  // ----------------------------------------------------------- ntp_request

  /** `Measure` is the normalised offset and delay of the four instants. */
  lemma MeasureOfNanos(reply: Packet, t4: Timespec, offsetNs: int, delayNs: int)
    requires InNtpEra(t4)
    requires offsetNs == Offset(Instant(reply.origin), Instant(reply.receive), Instant(reply.transmit), TsToNs(t4))
    requires delayNs == Delay(Instant(reply.origin), Instant(reply.receive), Instant(reply.transmit), TsToNs(t4))
    ensures Measure(reply, t4) == OffsetDelay(Normalize(offsetNs).sec, Normalize(offsetNs).nsec,
                                              Normalize(delayNs).sec, Normalize(delayNs).nsec)
  {
  }

  /**
   * The arithmetic of `ntp_request` on an accepted reply: T1..T3 converted
   * from the reply, T4 from the local clock, both formulas in 64-bit
   * nanoseconds, then each result normalised by `ns_to_ts`.
   */
  method ComputeOffsetDelay(reply: Packet, t4: Timespec) returns (r: OffsetDelay)
    requires InNtpEra(t4)
    ensures r == Measure(reply, t4)
    ensures 0 <= r.offsetNsec < NanosPerSecond && 0 <= r.delayNsec < NanosPerSecond
  {
    var t1Ns := Instant(reply.origin);
    var t2Ns := Instant(reply.receive);
    var t3Ns := Instant(reply.transmit);
    NtpEraFitsInt64(t4);
    var t4Ns := TsToNs(t4);

    FormulasFitInt64(t1Ns, t2Ns, t3Ns, t4Ns);
    var offsetNs := TruncDiv((t2Ns - t1Ns) + (t3Ns - t4Ns), 2);
    var delayNs := (t4Ns - t1Ns) - (t3Ns - t2Ns);

    var offsetSec, offsetNsec := NsToTs(offsetNs);
    var delaySec, delayNsec := NsToTs(delayNs);
    MeasureOfNanos(reply, t4, offsetNs, delayNs);
    r := OffsetDelay(offsetSec, offsetNsec, delaySec, delayNsec);
  }

  /**
   * The receiving half of `ntp_request`: a failed or short reply is
   * rejected with -1 and `results` left untouched; otherwise the offset and
   * delay go to `results[i]` and the status is 0.
   */
  method ReceiveReply(reception: Reception, receiveTime: Timespec, results: array<OffsetDelay>, i: nat)
    returns (status: int)
    requires i < results.Length
    requires InNtpEra(receiveTime)
    modifies results
    ensures status == 0 || status == -1
    ensures status == 0 <==> Accepted(reception)
    ensures status == 0 ==> results[i] == Measure(Parse(ReplyBytes(reception)), receiveTime)
    ensures status != 0 ==> results[i] == old(results[i])
    ensures forall k :: 0 <= k < results.Length && k != i ==> results[k] == old(results[k])
  {
    var recvSize := ReceivedSize(reception);
    if recvSize == -1 {
      return -1;
    }
    if recvSize < PacketSize {
      return -1;
    }

    var reply := Parse(ReplyBytes(reception));
    var measured := ComputeOffsetDelay(reply, receiveTime);
    results[i] := measured;
    status := 0;
  }

  /**
   * `ntp_request`: builds the request and hands it to the transport, rejects
   * a failed or short reply with -1 leaving `results` untouched, and
   * otherwise stores the offset and delay in `results[i]` and returns 0.
   */
  method NtpRequest(sendTime: Timespec, reception: Reception, receiveTime: Timespec,
                    results: array<OffsetDelay>, i: nat)
    returns (status: int, sent: seq<bv8>)
    requires i < results.Length
    requires InNtpEra(sendTime) && InNtpEra(receiveTime)
    modifies results
    ensures sent == Serialize(ClientRequest(TransmitStamp(sendTime)))
    ensures status == 0 || status == -1
    ensures status == 0 <==> Accepted(reception)
    ensures status == 0 ==> results[i] == Measure(Parse(ReplyBytes(reception)), receiveTime)
    ensures status != 0 ==> results[i] == old(results[i])
    ensures forall k :: 0 <= k < results.Length && k != i ==> results[k] == old(results[k])
  {
    var request := BuildRequest(sendTime);
    sent := request[..];
    RequestLayout(TransmitStamp(sendTime));
    status := ReceiveReply(reception, receiveTime, results, i);
  }
}
