/** The sliding-window rate limiter and its two backends (utils/rate_limit.py).

    Time is an explicit input, in seconds. */
module RateLimit {
  import opened Wrappers
  import opened Strings

  const WINDOW := 60.0

  // ----- the in-memory backend

  /** Drop entries strictly older than the window from the front. */
  function Prune(bucket: seq<real>, now: real): seq<real> {
    if bucket != [] && now - bucket[0] > WINDOW then Prune(bucket[1..], now) else bucket
  }

  /** The bucket after one call and the answer: None admits, Some(r) asks to retry after r seconds. */
  function MemoryStep(bucket: seq<real>, now: real, limit: int): (seq<real>, Option<real>) {
    if limit <= 0 then (bucket, None)
    else
      var live := Prune(bucket, now);
      if |live| >= limit then
        var retryAfter := WINDOW - (now - live[0]);
        (live, Some(if retryAfter < 1.0 then 1.0 else retryAfter))
      else (live + [now], None)
  }

  /** `defaultdict(deque)`. */
  function Bucket(requests: map<string, seq<real>>, key: string): seq<real> {
    if key in requests then requests[key] else []
  }

  class RateLimiter {
    var requests: map<string, seq<real>>

    constructor ()
      ensures requests == map[]
    {
      requests := map[];
    }

    method CheckRateLimit(key: string, now: real, limit: int) returns (r: Option<real>)
      modifies this
      ensures (Bucket(requests, key), r) == MemoryStep(old(Bucket(requests, key)), now, limit)
      ensures forall k :: k != key ==> Bucket(requests, k) == old(Bucket(requests, k))
    {
      if limit <= 0 {
        return None;
      }
      var bucket := Bucket(requests, key);
      while bucket != [] && now - bucket[0] > WINDOW
        invariant Prune(bucket, now) == Prune(old(Bucket(requests, key)), now)
      {
        bucket := bucket[1..];
      }
      requests := requests[key := bucket];
      if |bucket| >= limit {
        var retryAfter := WINDOW - (now - bucket[0]);
        return Some(if retryAfter < 1.0 then 1.0 else retryAfter);
      }
      requests := requests[key := bucket + [now]];
      return None;
    }
  }

  // ----- runs of the in-memory backend

  datatype Call = Call(key: string, now: real)

  ghost predicate Chronological(calls: seq<Call>) {
    forall i, j :: 0 <= i <= j < |calls| ==> calls[i].now <= calls[j].now
  }

  /** The bucket of `key` after the whole trace. */
  function BucketAfter(calls: seq<Call>, limit: int, key: string): seq<real> {
    if calls == [] then []
    else
      var n := |calls| - 1;
      var before := BucketAfter(calls[..n], limit, key);
      if calls[n].key == key then MemoryStep(before, calls[n].now, limit).0 else before
  }

  /** The answer to call `i`. */
  function Answer(calls: seq<Call>, limit: int, i: nat): Option<real>
    requires i < |calls|
  {
    MemoryStep(BucketAfter(calls[..i], limit, calls[i].key), calls[i].now, limit).1
  }

  /** The times at which calls for `key` were admitted, in order. */
  function AdmittedTimes(calls: seq<Call>, limit: int, key: string): seq<real> {
    if calls == [] then []
    else
      var n := |calls| - 1;
      var before := AdmittedTimes(calls[..n], limit, key);
      if calls[n].key == key && Answer(calls, limit, n) == None then before + [calls[n].now] else before
  }

  /** How many of the times lie in the closed interval. */
  function CountIn(times: seq<real>, lo: real, hi: real): nat {
    if times == [] then 0
    else CountIn(times[..|times| - 1], lo, hi) + if lo <= times[|times| - 1] <= hi then 1 else 0
  }

  ghost predicate Sorted(times: seq<real>) {
    forall i, j :: 0 <= i <= j < |times| ==> times[i] <= times[j]
  }

  lemma {:induction false} PruneSplits(bucket: seq<real>, now: real)
    ensures var live := Prune(bucket, now);
      && |live| <= |bucket| && bucket[|bucket| - |live|..] == live
      && (forall i :: 0 <= i < |bucket| - |live| ==> now - bucket[i] > WINDOW)
      && (live != [] ==> now - live[0] <= WINDOW)
  {
    if bucket != [] && now - bucket[0] > WINDOW {
      PruneSplits(bucket[1..], now);
    }
  }

  /** What a run keeps: the bucket is the recent end of the admitted times; whatever fell out of it is
      more than a window older than `last`; and no `limit + 1` admissions fit in a window. */
  ghost predicate Keeps(admitted: seq<real>, bucket: seq<real>, limit: int, last: real) {
    && Sorted(admitted) && (admitted != [] ==> admitted[|admitted| - 1] <= last)
    && |bucket| <= |admitted| && |bucket| <= limit
    && admitted[|admitted| - |bucket|..] == bucket
    && (forall i :: 0 <= i < |admitted| - |bucket| ==> last - admitted[i] > WINDOW)
    && Spread(admitted, limit)
  }

  ghost predicate Spread(admitted: seq<real>, limit: int) {
    forall i, j :: 0 <= i && j == i + limit && i <= j < |admitted| ==> admitted[j] - admitted[i] > WINDOW
  }

  lemma KeepsLater(admitted: seq<real>, bucket: seq<real>, limit: int, last: real, now: real)
    requires Keeps(admitted, bucket, limit, last) && last <= now
    ensures Keeps(admitted, bucket, limit, now)
  {
  }

  lemma PruneKeeps(admitted: seq<real>, bucket: seq<real>, limit: int, now: real)
    requires Keeps(admitted, bucket, limit, now)
    ensures Keeps(admitted, Prune(bucket, now), limit, now)
  {
    PruneSplits(bucket, now);
    var live := Prune(bucket, now);
    var kept, dropped := |admitted| - |live|, |admitted| - |bucket|;
    assert admitted[kept..] == admitted[dropped..][kept - dropped..];
    forall i | 0 <= i < kept
      ensures now - admitted[i] > WINDOW
    {
      if i >= dropped {
        assert admitted[i] == bucket[i - dropped];
      }
    }
  }

  lemma AdmitKeeps(admitted: seq<real>, live: seq<real>, limit: int, now: real)
    requires limit > 0 && Keeps(admitted, live, limit, now) && |live| < limit
    ensures Keeps(admitted + [now], live + [now], limit, now)
  {
    assert (admitted + [now])[|admitted| - |live|..] == live + [now];
  }

  lemma KeepsStep(admitted: seq<real>, bucket: seq<real>, limit: int, last: real, now: real)
    requires limit > 0 && Keeps(admitted, bucket, limit, last) && last <= now
    ensures var (after, r) := MemoryStep(bucket, now, limit);
      Keeps(if r == None then admitted + [now] else admitted, after, limit, now)
  {
    KeepsLater(admitted, bucket, limit, last, now);
    PruneKeeps(admitted, bucket, limit, now);
    if |Prune(bucket, now)| < limit {
      AdmitKeeps(admitted, Prune(bucket, now), limit, now);
    }
  }

  /** The admitted times and the bucket of `key` after one more call of any key. */
  function AdmittedWith(admitted: seq<real>, bucket: seq<real>, c: Call, limit: int, key: string): seq<real> {
    if c.key == key && MemoryStep(bucket, c.now, limit).1 == None then admitted + [c.now] else admitted
  }

  function BucketWith(bucket: seq<real>, c: Call, limit: int, key: string): seq<real> {
    if c.key == key then MemoryStep(bucket, c.now, limit).0 else bucket
  }

  lemma RunUnfolds(calls: seq<Call>, limit: int, key: string)
    requires calls != []
    ensures var n := |calls| - 1;
      && AdmittedTimes(calls, limit, key)
         == AdmittedWith(AdmittedTimes(calls[..n], limit, key), BucketAfter(calls[..n], limit, key), calls[n], limit, key)
      && BucketAfter(calls, limit, key) == BucketWith(BucketAfter(calls[..n], limit, key), calls[n], limit, key)
  {
  }

  lemma KeepsWith(admitted: seq<real>, bucket: seq<real>, c: Call, limit: int, key: string)
    requires limit > 0 && Keeps(admitted, bucket, limit, c.now)
    ensures Keeps(AdmittedWith(admitted, bucket, c, limit, key), BucketWith(bucket, c, limit, key), limit, c.now)
  {
    if c.key == key {
      KeepsStep(admitted, bucket, limit, c.now, c.now);
    }
  }

  lemma ChronologicalPrefix(calls: seq<Call>)
    requires Chronological(calls) && calls != []
    ensures Chronological(calls[..|calls| - 1])
    ensures |calls| > 1 ==> calls[..|calls| - 1][|calls| - 2].now <= calls[|calls| - 1].now
  {
  }

  lemma {:induction false} RunKeeps(calls: seq<Call>, limit: int, key: string, last: real)
    requires limit > 0 && Chronological(calls)
    requires calls != [] ==> calls[|calls| - 1].now <= last
    ensures Keeps(AdmittedTimes(calls, limit, key), BucketAfter(calls, limit, key), limit, last)
  {
    if calls != [] {
      var n := |calls| - 1;
      ChronologicalPrefix(calls);
      RunKeeps(calls[..n], limit, key, calls[n].now);
      KeepsWith(AdmittedTimes(calls[..n], limit, key), BucketAfter(calls[..n], limit, key), calls[n], limit, key);
      RunUnfolds(calls, limit, key);
      KeepsLater(AdmittedTimes(calls, limit, key), BucketAfter(calls, limit, key), limit, calls[n].now, last);
    }
  }

  lemma {:induction false} CountNone(times: seq<real>, lo: real, hi: real)
    requires forall i :: 0 <= i < |times| ==> times[i] < lo
    ensures CountIn(times, lo, hi) == 0
  {
    if times != [] {
      CountNone(times[..|times| - 1], lo, hi);
    }
  }

  lemma {:induction false} CountSplit(times: seq<real>, k: nat, lo: real, hi: real)
    requires k <= |times|
    ensures CountIn(times, lo, hi) <= CountIn(times[..k], lo, hi) + (|times| - k)
  {
    if k < |times| {
      assert times[..|times| - 1][..k] == times[..k];
      CountSplit(times[..|times| - 1], k, lo, hi);
    } else {
      assert times[..k] == times;
    }
  }

  lemma {:induction false} SpreadBoundsCount(times: seq<real>, limit: int, lo: real)
    requires limit > 0 && Sorted(times) && Spread(times, limit)
    ensures CountIn(times, lo, lo + WINDOW) <= limit
  {
    if times != [] {
      var n := |times| - 1;
      if lo <= times[n] <= lo + WINDOW && |times| > limit {
        assert times[n] - times[n - limit] > WINDOW;
        CountNone(times[..n - limit + 1], lo, lo + WINDOW);
        CountSplit(times, n - limit + 1, lo, lo + WINDOW);
      } else if lo <= times[n] <= lo + WINDOW {
        CountSplit(times, 0, lo, lo + WINDOW);
      } else {
        SpreadBoundsCount(times[..n], limit, lo);
      }
    }
  }

  /** Over every run, any closed 60-second interval holds at most `limit` admissions of a key. */
  lemma WindowHoldsAtMostLimit(calls: seq<Call>, limit: int, key: string, lo: real)
    requires limit > 0 && Chronological(calls)
    ensures CountIn(AdmittedTimes(calls, limit, key), lo, lo + WINDOW) <= limit
  {
    RunKeeps(calls, limit, key, if calls == [] then 0.0 else calls[|calls| - 1].now);
    SpreadBoundsCount(AdmittedTimes(calls, limit, key), limit, lo);
  }

  ghost predicate Due(r: Option<real>, admitted: seq<real>, limit: int, now: real) {
    && (r != None <==> CountIn(admitted, now - WINDOW, now) == limit)
    && (r.Some? ==> 1.0 <= r.value <= WINDOW)
  }

  /** A rejection happens exactly when the window is full, and asks for between 1 and 60 seconds. */
  lemma RejectionIsDue(calls: seq<Call>, limit: int, i: nat)
    requires limit > 0 && Chronological(calls) && i < |calls|
    ensures Due(Answer(calls, limit, i), AdmittedTimes(calls[..i], limit, calls[i].key), limit, calls[i].now)
  {
    var key, now := calls[i].key, calls[i].now;
    RunKeeps(calls[..i], limit, key, now);
    StepIsDue(AdmittedTimes(calls[..i], limit, key), BucketAfter(calls[..i], limit, key), limit, now);
  }

  /** So a call is admitted exactly when its closed window holds fewer admissions than the limit. */
  lemma AdmittedByCount(calls: seq<Call>, limit: int, i: nat)
    requires limit > 0 && Chronological(calls) && i < |calls|
    ensures Answer(calls, limit, i) == None
       <==> CountIn(AdmittedTimes(calls[..i], limit, calls[i].key), calls[i].now - WINDOW, calls[i].now) < limit
  {
    RejectionIsDue(calls, limit, i);
    WindowHoldsAtMostLimit(calls[..i], limit, calls[i].key, calls[i].now - WINDOW);
  }

  lemma StepIsDue(admitted: seq<real>, bucket: seq<real>, limit: int, now: real)
    requires limit > 0 && Keeps(admitted, bucket, limit, now)
    ensures Due(MemoryStep(bucket, now, limit).1, admitted, limit, now)
  {
    PruneKeeps(admitted, bucket, limit, now);
    PruneSplits(bucket, now);
    var live := Prune(bucket, now);
    CountLive(admitted, live, now);
    if live != [] {
      assert live[0] == admitted[|admitted| - |live|] <= now;
    }
  }

  lemma {:induction false} CountAll(times: seq<real>, lo: real, hi: real)
    requires forall i :: 0 <= i < |times| ==> lo <= times[i] <= hi
    ensures CountIn(times, lo, hi) == |times|
  {
    if times != [] {
      CountAll(times[..|times| - 1], lo, hi);
    }
  }

  lemma {:induction false} CountConcat(a: seq<real>, b: seq<real>, lo: real, hi: real)
    ensures CountIn(a + b, lo, hi) == CountIn(a, lo, hi) + CountIn(b, lo, hi)
  {
    if b == [] {
      assert a + b == a;
    } else {
      assert (a + b)[..|a + b| - 1] == a + b[..|b| - 1];
      CountConcat(a, b[..|b| - 1], lo, hi);
    }
  }

  /** The live bucket is exactly the admissions of the closed window that ends now. */
  lemma CountLive(admitted: seq<real>, live: seq<real>, now: real)
    requires Sorted(admitted) && (admitted != [] ==> admitted[|admitted| - 1] <= now)
    requires |live| <= |admitted| && admitted[|admitted| - |live|..] == live
    requires forall i :: 0 <= i < |admitted| - |live| ==> now - admitted[i] > WINDOW
    requires live != [] ==> now - live[0] <= WINDOW
    ensures CountIn(admitted, now - WINDOW, now) == |live|
  {
    var k := |admitted| - |live|;
    assert admitted == admitted[..k] + live;
    CountConcat(admitted[..k], live, now - WINDOW, now);
    CountNone(admitted[..k], now - WINDOW, now);
    forall i | 0 <= i < |live|
      ensures now - WINDOW <= live[i] <= now
    {
      assert live[i] == admitted[k + i] && live[0] == admitted[k];
    }
    CountAll(live, now - WINDOW, now);
  }

  /** Between `i` and `j` no call for the key of `i` was admitted. */
  ghost predicate NoAdmissionBetween(calls: seq<Call>, limit: int, i: nat, j: nat) {
    forall m :: i < m < j < |calls| && calls[m].key == calls[i].key ==> Answer(calls, limit, m).Some?
  }

  lemma RejectionKeepsBucket(bucket: seq<real>, now: real, limit: int)
    requires limit > 0 && |bucket| <= limit && MemoryStep(bucket, now, limit).1.Some?
    ensures MemoryStep(bucket, now, limit).0 == bucket && |bucket| == limit
  {
    PruneSplits(bucket, now);
  }

  lemma {:induction false} BucketWaits(calls: seq<Call>, limit: int, i: nat, j: nat)
    requires limit > 0 && Chronological(calls) && i < j < |calls|
    requires Answer(calls, limit, i).Some? && NoAdmissionBetween(calls, limit, i, j)
    ensures BucketAfter(calls[..j], limit, calls[i].key) == BucketAfter(calls[..i], limit, calls[i].key)
    ensures |BucketAfter(calls[..i], limit, calls[i].key)| == limit
    decreases j
  {
    var key := calls[i].key;
    RunKeeps(calls[..i], limit, key, calls[i].now);
    RejectionKeepsBucket(BucketAfter(calls[..i], limit, key), calls[i].now, limit);
    assert calls[..j][..j - 1] == calls[..j - 1];
    if j > i + 1 {
      BucketWaits(calls, limit, i, j - 1);
      if calls[j - 1].key == key {
        RejectionKeepsBucket(BucketAfter(calls[..j - 1], limit, key), calls[j - 1].now, limit);
      }
    }
  }

  lemma LaterStepAdmits(bucket: seq<real>, limit: int, now: real, later: real)
    requires limit > 0 && |bucket| == limit
    requires MemoryStep(bucket, now, limit).1.Some?
    requires later > now + MemoryStep(bucket, now, limit).1.value
    ensures MemoryStep(bucket, later, limit).1 == None
  {
    RejectionKeepsBucket(bucket, now, limit);
    PruneSplits(bucket, now);
    PruneSplits(bucket, later);
  }

  /** A retry strictly later than the promised wait, with nothing admitted in between, is admitted. */
  lemma RetryIsAdmitted(calls: seq<Call>, limit: int, i: nat, j: nat)
    requires limit > 0 && Chronological(calls) && i < j < |calls| && calls[j].key == calls[i].key
    requires Answer(calls, limit, i).Some? && NoAdmissionBetween(calls, limit, i, j)
    requires calls[j].now > calls[i].now + Answer(calls, limit, i).value
    ensures Answer(calls, limit, j) == None
  {
    BucketWaits(calls, limit, i, j);
    LaterStepAdmits(BucketAfter(calls[..i], limit, calls[i].key), limit, calls[i].now, calls[j].now);
  }

  lemma EarlyStepRejects(bucket: seq<real>, limit: int, now: real, later: real)
    requires limit > 0 && |bucket| == limit
    requires MemoryStep(bucket, now, limit).1.Some? && MemoryStep(bucket, now, limit).1.value > 1.0
    requires later <= now + MemoryStep(bucket, now, limit).1.value
    ensures MemoryStep(bucket, later, limit).1.Some?
  {
    RejectionKeepsBucket(bucket, now, limit);
  }

  /** The promise is tight: unless it is the minimum of one second, a retry that comes no later than promised,
      with nothing admitted in between, is rejected again. */
  lemma EarlyRetryIsRejected(calls: seq<Call>, limit: int, i: nat, j: nat)
    requires limit > 0 && Chronological(calls) && i < j < |calls| && calls[j].key == calls[i].key
    requires Answer(calls, limit, i).Some? && NoAdmissionBetween(calls, limit, i, j)
    requires Answer(calls, limit, i).value > 1.0 && calls[j].now <= calls[i].now + Answer(calls, limit, i).value
    ensures Answer(calls, limit, j).Some?
  {
    BucketWaits(calls, limit, i, j);
    EarlyStepRejects(BucketAfter(calls[..i], limit, calls[i].key), limit, calls[i].now, calls[j].now);
  }

  /** A limit of zero or less turns the limiter off: every call is admitted and nothing is remembered. */
  lemma {:induction false} DisabledAdmits(calls: seq<Call>, limit: int, key: string)
    requires limit <= 0
    ensures BucketAfter(calls, limit, key) == []
    ensures forall i :: 0 <= i < |calls| ==> Answer(calls, limit, i) == None
  {
    if calls != [] {
      DisabledAdmits(calls[..|calls| - 1], limit, key);
    }
  }
}
