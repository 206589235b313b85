/**
 * The client's session (`main`): a fixed number of request attempts
 * against one server, failures recorded as all-zero sentinel results, and
 * the choice of the attempt with the smallest round-trip delay.
 */
module Session {
  import opened CInt
  import opened NtpTime
  import opened NtpPacket
  import opened NtpExchange

  /** `NTP_TRY_COUNT`: how many requests one run makes. */
  const NtpTryCount: nat := 8

  /** What one attempt met: the clock at sending, what the transport delivered, the clock at receipt (T4). */
  datatype Attempt = Attempt(sendTime: Timespec, reception: Reception, receiveTime: Timespec)

  predicate ValidAttempt(a: Attempt) {
    InNtpEra(a.sendTime) && InNtpEra(a.receiveTime)
  }

  /** The record a failed attempt leaves: all four fields zero. */
  const Sentinel := OffsetDelay(0, 0, 0, 0)

  /** The record attempt `a` leaves in its slot of `results`. */
  function Expected(a: Attempt): OffsetDelay
    requires ValidAttempt(a)
  {
    if Accepted(a.reception) then Measure(Parse(ReplyBytes(a.reception)), a.receiveTime) else Sentinel
  }

  /** The delay as the selection compares it: `delay_sec * 1000000000L + delay_nsec`. */
  function DelayTotal(r: OffsetDelay): (total: int)
    ensures 0 <= r.delayNsec < NanosPerSecond ==> Normalize(total) == Timespec(r.delaySec, r.delayNsec)
  {
    var total := r.delaySec * NanosPerSecond + r.delayNsec;
    if 0 <= r.delayNsec < NanosPerSecond then
      NormalizedUnique(Normalize(total), Timespec(r.delaySec, r.delayNsec));
      total
    else
      total
  }

  /** The `int64_t` computation of `DelayTotal` does not overflow. */
  predicate TotalFits(r: OffsetDelay) {
    InInt64(r.delaySec * NanosPerSecond) && InInt64(DelayTotal(r))
  }

  /**
   * The skip test: both delay fields are zero, as in a sentinel. On a
   * normalised record this is the same as a total delay of zero.
   */
  function IsZeroDelay(r: OffsetDelay): (zero: bool)
    ensures zero ==> DelayTotal(r) == 0
    ensures 0 <= r.delayNsec < NanosPerSecond && DelayTotal(r) == 0 ==> zero
  {
    r.delaySec == 0 && r.delayNsec == 0
  }

  /** Entry `k` takes part in the selection: entry 0 always, a later one unless its delay is zero. */
  predicate Considered(rs: seq<OffsetDelay>, k: nat)
    requires k < |rs|
  {
    k == 0 || !IsZeroDelay(rs[k])
  }

  /**
   * Among the first `n` entries, `b` is the earliest considered entry of
   * least delay: no considered entry has a smaller total, and every
   * considered entry before `b` has a strictly larger one.
   */
  predicate SelectedAmong(rs: seq<OffsetDelay>, n: nat, b: int)
    requires n <= |rs|
  {
    0 <= b < n && Considered(rs, b)
    && (forall k :: 0 <= k < n && Considered(rs, k) ==> DelayTotal(rs[b]) <= DelayTotal(rs[k]))
    && (forall k :: 0 <= k < b && Considered(rs, k) ==> DelayTotal(rs[b]) < DelayTotal(rs[k]))
  }

  /** `b` is the index the selection must pick from `rs`. */
  predicate IsSelection(rs: seq<OffsetDelay>, b: int) {
    SelectedAmong(rs, |rs|, b)
  }

  /** The selection is a function of the results: two indices that both qualify are the same. */
  lemma SelectionUnique(rs: seq<OffsetDelay>, b: int, b': int)
    requires IsSelection(rs, b) && IsSelection(rs, b')
    ensures b == b'
  {
  }

  /**
   * The selection loop of `main`: start from index 0, skip later entries
   * with a zero delay, and move to an entry only when its total is strictly
   * smaller than the current best's.
   */
  method SelectBest(results: array<OffsetDelay>) returns (best: int)
    requires results.Length >= 1
    requires forall k :: 0 <= k < results.Length ==> TotalFits(results[k])
    ensures 0 <= best < results.Length
    ensures best >= 1 ==> !IsZeroDelay(results[best])
    ensures IsSelection(results[..], best)
  {
    best := 0;
    var i := 1;
    while i < results.Length
      invariant 1 <= i <= results.Length
      invariant SelectedAmong(results[..], i, best)
    {
      if results[i].delaySec == 0 && results[i].delayNsec == 0 {
        i := i + 1;
        continue;
      } else {
        var bestDelayTotal := results[best].delaySec * NanosPerSecond + results[best].delayNsec;
        var currentDelayTotal := results[i].delaySec * NanosPerSecond + results[i].delayNsec;
        if currentDelayTotal < bestDelayTotal {
          best := i;
        }
      }
      i := i + 1;
    }
  }

  /**
   * One pass of the fill loop: `ntp_request` into `results[i]`, and on
   * failure the four fields of `results[i]` set to zero.
   */
  method RunAttempt(a: Attempt, results: array<OffsetDelay>, i: nat) returns (sent: seq<bv8>)
    requires i < results.Length
    requires InNtpEra(a.sendTime) && InNtpEra(a.receiveTime)
    modifies results
    ensures !Accepted(a.reception) ==> results[i] == OffsetDelay(0, 0, 0, 0)
    ensures Accepted(a.reception) ==> results[i] == Measure(Parse(ReplyBytes(a.reception)), a.receiveTime)
    ensures forall k :: 0 <= k < results.Length && k != i ==> results[k] == old(results[k])
    ensures sent == Serialize(ClientRequest(TransmitStamp(a.sendTime)))
  {
    var status;
    status, sent := NtpRequest(a.sendTime, a.reception, a.receiveTime, results, i);
    if status != 0 {
      results[i] := results[i].(offsetSec := 0);
      results[i] := results[i].(offsetNsec := 0);
      results[i] := results[i].(delaySec := 0);
      results[i] := results[i].(delayNsec := 0);
    }
  }

  /**
   * The fill loop of `main`: attempt `k` stores its offset and delay in
   * `results[k]` when its reply is accepted, and the all-zero sentinel
   * otherwise. `sent` collects the request each attempt built.
   */
  method FillResults(attempts: seq<Attempt>, results: array<OffsetDelay>) returns (sent: seq<seq<bv8>>)
    requires results.Length == |attempts|
    requires forall k :: 0 <= k < |attempts| ==> InNtpEra(attempts[k].sendTime) && InNtpEra(attempts[k].receiveTime)
    modifies results
    ensures forall k :: 0 <= k < |attempts| ==> results[k] == Expected(attempts[k])
    ensures |sent| == |attempts|
    ensures forall k :: 0 <= k < |attempts| ==> sent[k] == Serialize(ClientRequest(TransmitStamp(attempts[k].sendTime)))
  {
    sent := [];
    for i := 0 to |attempts|
      invariant |sent| == i
      invariant forall k :: 0 <= k < i ==> results[k] == Expected(attempts[k])
      invariant forall k :: 0 <= k < i ==> sent[k] == Serialize(ClientRequest(TransmitStamp(attempts[k].sendTime)))
    {
      var request := RunAttempt(attempts[i], results, i);
      sent := sent + [request];
    }
  }

  /**
   * `main` without its I/O: `NtpTryCount` attempts fill `results`, then
   * `best` is the selected index.
   */
  method Synchronize(attempts: seq<Attempt>) returns (results: array<OffsetDelay>, best: int, sent: seq<seq<bv8>>)
    requires |attempts| == NtpTryCount
    requires forall k :: 0 <= k < |attempts| ==> InNtpEra(attempts[k].sendTime) && InNtpEra(attempts[k].receiveTime)
    ensures fresh(results) && results.Length == NtpTryCount
    ensures forall k :: 0 <= k < |attempts| ==> results[k] == Expected(attempts[k])
    ensures |sent| == NtpTryCount
    ensures forall k :: 0 <= k < |attempts| ==> sent[k] == Serialize(ClientRequest(TransmitStamp(attempts[k].sendTime)))
    ensures IsSelection(results[..], best)
  {
    results := new OffsetDelay[NtpTryCount](_ => Sentinel);
    sent := FillResults(attempts, results);
    forall k | 0 <= k < results.Length
      ensures TotalFits(results[k])
    {
      ExpectedFits(attempts[k]);
    }
    best := SelectBest(results);
  }

  /** Every record an attempt can leave has a delay total that fits `int64_t`. */
  lemma ExpectedFits(a: Attempt)
    requires ValidAttempt(a)
    ensures TotalFits(Expected(a))
  {
    if Accepted(a.reception) {
      MeasureFitsInt64(Parse(ReplyBytes(a.reception)), a.receiveTime);
    }
  }

  /** When every attempt failed, index 0 and its sentinel are selected. */
  lemma AllFailedSelectsSentinel(rs: seq<OffsetDelay>)
    requires |rs| >= 1
    requires forall k :: 0 <= k < |rs| ==> rs[k] == Sentinel
    ensures IsSelection(rs, 0) && rs[0] == Sentinel
    ensures forall b :: IsSelection(rs, b) ==> b == 0
  {
    forall b | IsSelection(rs, b)
      ensures b == 0
    {
      SelectionUnique(rs, b, 0);
    }
  }

  /**
   * A sentinel at index 0 is never displaced when no delay is negative:
   * nothing is strictly below its total of zero.
   */
  lemma SentinelFirstStaysSelected(rs: seq<OffsetDelay>)
    requires |rs| >= 1 && rs[0] == Sentinel
    requires forall k :: 0 <= k < |rs| ==> DelayTotal(rs[k]) >= 0
    ensures IsSelection(rs, 0)
    ensures forall b :: IsSelection(rs, b) ==> b == 0
  {
    forall b | IsSelection(rs, b)
      ensures b == 0
    {
      SelectionUnique(rs, b, 0);
    }
  }

  /** Delays of 500 ms, a failure, 100 ms and a failure select the third attempt. */
  lemma SelectionExample()
    ensures var rs := [OffsetDelay(0, 0, 0, 500_000_000), Sentinel, OffsetDelay(0, 0, 0, 100_000_000), Sentinel];
            IsSelection(rs, 2) && forall b :: IsSelection(rs, b) ==> b == 2
  {
    var rs := [OffsetDelay(0, 0, 0, 500_000_000), Sentinel, OffsetDelay(0, 0, 0, 100_000_000), Sentinel];
    assert IsSelection(rs, 2);
    forall b | IsSelection(rs, b)
      ensures b == 2
    {
      SelectionUnique(rs, b, 2);
    }
  }
}
