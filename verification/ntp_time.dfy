/**
 * Conversions between POSIX time (seconds and nanoseconds since
 * 1970-01-01) and the NTP timestamp format of RFC 5905 section 6
 * (32-bit seconds since 1900-01-01 and a 32-bit binary fraction), and
 * between a signed nanosecond count and a normalised (seconds,
 * nanoseconds) pair.
 */
module NtpTime {
  import opened CInt

  const NanosPerSecond: int := 1_000_000_000
  /** Seconds from the NTP epoch (1900-01-01) to the POSIX epoch (1970-01-01). */
  const NtpUnixEpochDiff: int := 2_208_988_800

  /** A `struct timespec`, or a (seconds, nanoseconds) duration. */
  datatype Timespec = Timespec(sec: int, nsec: int)

  /** An NTP timestamp in host order: whole seconds and the fraction in units of 2^-32 s. */
  datatype NtpTimestamp = NtpTimestamp(seconds: bv32, fraction: bv32)

  /** The nanoseconds part lies in [0, 10^9). */
  predicate Normalized(ts: Timespec) {
    0 <= ts.nsec < NanosPerSecond
  }

  /**
   * A normalised POSIX time whose NTP seconds fit in 32 bits: between
   * 1900-01-01 and the era rollover in 2036.
   */
  predicate InNtpEra(ts: Timespec) {
    Normalized(ts) && -NtpUnixEpochDiff <= ts.sec < Two32 - NtpUnixEpochDiff
  }

  /** The 64-bit `ntp_from_timespec` value: NTP seconds in the upper half, fraction in the lower. */
  function NtpFromTimespec(ts: Timespec): (r: int)
    requires InNtpEra(ts)
    ensures 0 <= r < Two64
    ensures r / Two32 == ts.sec + NtpUnixEpochDiff
    ensures (r % Two32) * NanosPerSecond <= ts.nsec * Two32 < (r % Two32 + 1) * NanosPerSecond
  {
    var sec := ts.sec + NtpUnixEpochDiff;
    var frac := (ts.nsec * Two32) / NanosPerSecond;
    FractionFitsLowHalf(ts.nsec);
    // (sec << 32) | frac: the or is an addition, because frac < 2^32
    sec * Two32 + frac
  }

  /** A nanosecond count below one second scales to a fraction below 2^32. */
  lemma FractionFitsLowHalf(nsec: int)
    requires 0 <= nsec < NanosPerSecond
    ensures 0 <= (nsec * Two32) / NanosPerSecond < Two32
  {
  }

  /** The two halves of a 64-bit timestamp: `ts >> 32` and `ts & 0xFFFFFFFF`, each cast to uint32. */
  function SplitTimestamp(u: int): (t: NtpTimestamp)
    requires 0 <= u < Two64
    ensures (t.seconds as int) * Two32 + t.fraction as int == u
  {
    NtpTimestamp(Uint32Of(u / Two32), Uint32Of(u % Two32))
  }

  /**
   * `timespec_from_ntp` on host-order halves. The seconds are computed in
   * 64-bit unsigned arithmetic and cast to a signed `time_t`; that cast
   * restores the true difference, so timestamps before 1970 come out
   * negative rather than wrapped.
   */
  function TimespecFromNtp(t: NtpTimestamp): (ts: Timespec)
    ensures ts.sec == t.seconds as int - NtpUnixEpochDiff
    ensures Normalized(ts)
    ensures ts.nsec * Two32 <= (t.fraction as int) * NanosPerSecond < (ts.nsec + 1) * Two32
  {
    Int64OfBitsIdentity(t.seconds as int - NtpUnixEpochDiff);
    Timespec(Int64OfBits(t.seconds as int - NtpUnixEpochDiff),
             ((t.fraction as int) * NanosPerSecond) / Two32)
  }

  /**
   * POSIX time to NTP and back keeps the seconds and loses at most one
   * nanosecond, the truncation to 2^-32 s.
   */
  lemma {:induction false} TimestampRoundTrip(ts: Timespec)
    requires InNtpEra(ts)
    ensures TimespecFromNtp(SplitTimestamp(NtpFromTimespec(ts))).sec == ts.sec
    ensures TimespecFromNtp(SplitTimestamp(NtpFromTimespec(ts))).nsec in {ts.nsec, ts.nsec - 1}
  {
    var u := NtpFromTimespec(ts);
    var t := SplitTimestamp(u);
    assert t.seconds as int == ts.sec + NtpUnixEpochDiff && t.fraction as int == u % Two32 by {
      assert u == (u / Two32) * Two32 + u % Two32;
    }
    var f := u % Two32;
    var back := TimespecFromNtp(t);
    // f <= nsec * 2^32 / 10^9 gives back.nsec <= nsec
    assert back.nsec * Two32 <= f * NanosPerSecond <= ts.nsec * Two32;
    // f > nsec * 2^32 / 10^9 - 1 and 10^9 < 2^32 give back.nsec > nsec - 2
    assert ts.nsec * Two32 < f * NanosPerSecond + NanosPerSecond < (back.nsec + 1) * Two32 + Two32;
  }

  /** The POSIX epoch is NTP second 2,208,988,800 (0x83AA7E80) with a zero fraction. */
  lemma UnixEpochInNtp()
    ensures NtpFromTimespec(Timespec(0, 0)) == 0x83AA_7E80_0000_0000
  {
  }

  /** `ts_to_ns`: the instant as a signed count of nanoseconds, in 64-bit arithmetic. */
  function TsToNs(ts: Timespec): (ns: int)
    requires InInt64(ts.sec * NanosPerSecond) && InInt64(ts.sec * NanosPerSecond + ts.nsec)
    ensures Normalized(ts) ==> ts.sec * NanosPerSecond <= ns < (ts.sec + 1) * NanosPerSecond
  {
    ts.sec * NanosPerSecond + ts.nsec
  }

  /** Every time in the NTP era is a nanosecond count that fits in 64 bits. */
  lemma NtpEraFitsInt64(ts: Timespec)
    requires InNtpEra(ts)
    ensures InInt64(ts.sec * NanosPerSecond) && InInt64(ts.sec * NanosPerSecond + ts.nsec)
    ensures -NtpUnixEpochDiff * NanosPerSecond <= TsToNs(ts) < (Two32 - NtpUnixEpochDiff) * NanosPerSecond
  {
  }

  /**
   * The reference meaning of `ns_to_ts`: floor division by 10^9 (Dafny's
   * Euclidean division, since the divisor is positive).
   */
  function Normalize(ns: int): (ts: Timespec)
    ensures Normalized(ts)
    ensures ts.sec * NanosPerSecond + ts.nsec == ns
  {
    Timespec(ns / NanosPerSecond, ns % NanosPerSecond)
  }

  /** Two normalised pairs that denote the same nanosecond count are equal. */
  lemma {:induction false} NormalizedUnique(a: Timespec, b: Timespec)
    requires Normalized(a) && Normalized(b)
    requires a.sec * NanosPerSecond + a.nsec == b.sec * NanosPerSecond + b.nsec
    ensures a == b
  {
  }

  /** Normalising inverts `ts_to_ns` on normalised pairs. */
  lemma {:induction false} NormalizeInvertsTsToNs(ts: Timespec)
    requires Normalized(ts)
    requires InInt64(ts.sec * NanosPerSecond) && InInt64(ts.sec * NanosPerSecond + ts.nsec)
    ensures Normalize(TsToNs(ts)) == ts
  {
    NormalizedUnique(Normalize(TsToNs(ts)), ts);
  }

  /** A negative duration gets negative seconds and a non-negative fraction: -1.5 s is (-2, 0.5 s). */
  lemma NormalizeNegative()
    ensures Normalize(-1_500_000_000) == Timespec(-2, 500_000_000)
  {
  }

  /**
   * `ns_to_ts`: C's truncating quotient and remainder, then one
   * correction step when the remainder is negative.
   */
  method NsToTs(ns: int) returns (sec: int, nsec: int)
    requires InInt64(ns)
    ensures 0 <= nsec < NanosPerSecond
    ensures sec * NanosPerSecond + nsec == ns
    ensures InInt64(sec)
    ensures Timespec(sec, nsec) == Normalize(ns)
  {
    sec := TruncDiv(ns, NanosPerSecond);
    nsec := TruncRem(ns, NanosPerSecond);
    if nsec < 0 {
      nsec := nsec + NanosPerSecond;
      sec := sec - 1;
    }
    NormalizedUnique(Timespec(sec, nsec), Normalize(ns));
  }
}
