/** Bursts of authentication failures (utils/auth_monitor.py). The log line and the webhook are not
    modelled; the count passed to the webhook is the result of the call. */
module AuthMonitor {
  import opened Wrappers
  import opened RateLimit

  /** Drop timestamps older than `cutoff` from the front. */
  function DropBefore(timestamps: seq<real>, cutoff: real): seq<real> {
    if timestamps != [] && timestamps[0] < cutoff then DropBefore(timestamps[1..], cutoff) else timestamps
  }

  /** What is remembered for one source. */
  datatype Source = Source(timestamps: seq<real>, alertedUntil: real)

  function SourceStep(s: Source, now: real, window: real, threshold: int): (Source, Option<nat>) {
    if threshold <= 0 then (s, None)
    else
      var timestamps := DropBefore(s.timestamps + [now], now - window);
      if |timestamps| >= threshold && s.alertedUntil <= now
      then (Source(timestamps, now + window), Some(|timestamps|))
      else (Source(timestamps, s.alertedUntil), None)
  }

  class Monitor {
    var failures: map<string, seq<real>>
    var alertedUntil: map<string, real>

    constructor ()
      ensures failures == map[] && alertedUntil == map[] && forall source :: Of(source) == Source([], 0.0)
    {
      failures := map[];
      alertedUntil := map[];
    }

    function Of(source: string): Source
      reads this
    {
      Source(if source in failures then failures[source] else [],
             if source in alertedUntil then alertedUntil[source] else 0.0)
    }

    method RecordAuthFailure(source: string, now: real, window: real, threshold: int) returns (alert: Option<nat>)
      modifies this
      ensures (Of(source), alert) == SourceStep(old(Of(source)), now, window, threshold)
      ensures forall other :: other != source ==> Of(other) == old(Of(other))
    {
      if threshold <= 0 {
        return None;
      }
      var timestamps := (if source in failures then failures[source] else []) + [now];
      ghost var all := timestamps;
      while timestamps != [] && timestamps[0] < now - window
        invariant DropBefore(timestamps, now - window) == DropBefore(all, now - window)
      {
        timestamps := timestamps[1..];
      }
      failures := failures[source := timestamps];
      var until := if source in alertedUntil then alertedUntil[source] else 0.0;
      if |timestamps| >= threshold && until <= now {
        alertedUntil := alertedUntil[source := now + window];
        return Some(|timestamps|);
      }
      return None;
    }
  }

  // ----- runs with constant settings

  datatype Failure = Failure(source: string, now: real)

  /** `time.time()` does not go back and is after the epoch. */
  ghost predicate WallClock(fs: seq<Failure>) {
    && (forall i, j :: 0 <= i <= j < |fs| ==> fs[i].now <= fs[j].now)
    && (forall i :: 0 <= i < |fs| ==> fs[i].now >= 0.0)
  }

  function After(fs: seq<Failure>, source: string, window: real, threshold: int): Source {
    if fs == [] then Source([], 0.0)
    else
      var n := |fs| - 1;
      var before := After(fs[..n], source, window, threshold);
      if fs[n].source == source then SourceStep(before, fs[n].now, window, threshold).0 else before
  }

  /** The alert fired by call `i`, if any. */
  function AlertAt(fs: seq<Failure>, window: real, threshold: int, i: nat): Option<nat>
    requires i < |fs|
  {
    SourceStep(After(fs[..i], fs[i].source, window, threshold), fs[i].now, window, threshold).1
  }

  /** The times of all failures of a source. */
  function TimesOf(fs: seq<Failure>, source: string): seq<real> {
    if fs == [] then []
    else
      var rest := TimesOf(fs[..|fs| - 1], source);
      if fs[|fs| - 1].source == source then rest + [fs[|fs| - 1].now] else rest
  }

  /** The time of the last alert for a source. */
  function LastAlert(fs: seq<Failure>, source: string, window: real, threshold: int): Option<real> {
    if fs == [] then None
    else
      var n := |fs| - 1;
      if fs[n].source == source && AlertAt(fs, window, threshold, n).Some? then Some(fs[n].now)
      else LastAlert(fs[..n], source, window, threshold)
  }

  lemma {:induction false} DropSplits(timestamps: seq<real>, cutoff: real)
    ensures var kept := DropBefore(timestamps, cutoff);
      && |kept| <= |timestamps| && timestamps[|timestamps| - |kept|..] == kept
      && (forall i :: 0 <= i < |timestamps| - |kept| ==> timestamps[i] < cutoff)
      && (kept != [] ==> kept[0] >= cutoff)
  {
    if timestamps != [] && timestamps[0] < cutoff {
      DropSplits(timestamps[1..], cutoff);
    }
  }

  /** The remembered timestamps are the recent end of all failures of the source. */
  ghost predicate Remembers(times: seq<real>, kept: seq<real>, window: real, last: real) {
    && Sorted(times) && (forall i :: 0 <= i < |times| ==> times[i] <= last)
    && |kept| <= |times| && times[|times| - |kept|..] == kept
    && forall i :: 0 <= i < |times| - |kept| ==> times[i] < last - window
  }

  lemma RemembersSnoc(times: seq<real>, kept: seq<real>, window: real, last: real, now: real)
    requires Remembers(times, kept, window, last) && last <= now
    ensures Remembers(times + [now], kept + [now], window, now)
  {
    assert (times + [now])[|times| - |kept|..] == kept + [now];
  }

  lemma RemembersTail(all: seq<real>, kept: seq<real>, after: seq<real>, window: real, now: real)
    requires Remembers(all, kept, window, now) && |after| <= |kept| && kept[|kept| - |after|..] == after
    requires forall i :: 0 <= i < |kept| - |after| ==> kept[i] < now - window
    ensures Remembers(all, after, window, now)
  {
    var k, dropped := |all| - |after|, |all| - |kept|;
    assert all[k..] == all[dropped..][k - dropped..];
    forall i | 0 <= i < k
      ensures all[i] < now - window
    {
      if i >= dropped {
        assert all[i] == kept[i - dropped];
      }
    }
  }

  lemma CountRemembered(all: seq<real>, after: seq<real>, window: real, now: real)
    requires Remembers(all, after, window, now) && (after != [] ==> after[0] >= now - window)
    ensures CountIn(all, now - window, now) == |after|
  {
    var k := |all| - |after|;
    assert after != [] ==> all[k] == after[0];
    CountTail(all, k, now - window, now);
  }

  lemma RemembersStep(times: seq<real>, kept: seq<real>, window: real, last: real, now: real)
    requires Remembers(times, kept, window, last) && last <= now
    ensures Remembers(times + [now], DropBefore(kept + [now], now - window), window, now)
    ensures CountIn(times + [now], now - window, now) == |DropBefore(kept + [now], now - window)|
  {
    RemembersSnoc(times, kept, window, last, now);
    DropSplits(kept + [now], now - window);
    RemembersTail(times + [now], kept + [now], DropBefore(kept + [now], now - window), window, now);
    CountRemembered(times + [now], DropBefore(kept + [now], now - window), window, now);
  }

  lemma CountTail(all: seq<real>, k: nat, lo: real, hi: real)
    requires Sorted(all) && k <= |all| && (forall i :: 0 <= i < k ==> all[i] < lo)
    requires k < |all| ==> lo <= all[k] && all[|all| - 1] <= hi
    ensures CountIn(all, lo, hi) == |all| - k
  {
    assert all == all[..k] + all[k..];
    CountConcat(all[..k], all[k..], lo, hi);
    CountNone(all[..k], lo, hi);
    CountAll(all[k..], lo, hi);
  }

  lemma RemembersLater(times: seq<real>, kept: seq<real>, window: real, last: real, now: real)
    requires Remembers(times, kept, window, last) && last <= now
    ensures Remembers(times, kept, window, now)
  {
  }

  lemma SourceStepRemembers(times: seq<real>, s: Source, window: real, threshold: int, now: real)
    requires threshold > 0 && Remembers(times, s.timestamps, window, now)
    ensures Remembers(times + [now], SourceStep(s, now, window, threshold).0.timestamps, window, now)
  {
    RemembersStep(times, s.timestamps, window, now, now);
  }

  /** The step alerts exactly when an alert is due on all failures of the source, with their true count. */
  ghost predicate AlertsRight(times: seq<real>, s: Source, window: real, threshold: int, now: real) {
    SourceStep(s, now, window, threshold).1 ==
      AlertDue(CountIn(times + [now], now - window, now), threshold, s.alertedUntil > now)
  }

  lemma SourceStepAlert(times: seq<real>, s: Source, window: real, threshold: int, now: real)
    requires threshold > 0 && Remembers(times, s.timestamps, window, now)
    ensures AlertsRight(times, s, window, threshold, now)
  {
    RemembersStep(times, s.timestamps, window, now, now);
  }

  function AlertDue(count: nat, threshold: int, quiet: bool): Option<nat> {
    if count >= threshold && !quiet then Some(count) else None
  }

  lemma {:induction false} RunRemembers(fs: seq<Failure>, source: string, window: real, threshold: int, last: real)
    requires threshold > 0 && WallClock(fs) && (fs != [] ==> fs[|fs| - 1].now <= last)
    ensures Remembers(TimesOf(fs, source), After(fs, source, window, threshold).timestamps, window, last)
  {
    if fs != [] {
      var n := |fs| - 1;
      var now := fs[n].now;
      RunRemembers(fs[..n], source, window, threshold, now);
      var times, s := TimesOf(fs[..n], source), After(fs[..n], source, window, threshold);
      if fs[n].source == source {
        SourceStepRemembers(times, s, window, threshold, now);
        RemembersLater(times + [now], SourceStep(s, now, window, threshold).0.timestamps, window, now, last);
      } else {
        RemembersLater(times, s.timestamps, window, now, last);
      }
    }
  }

  lemma {:induction false} RunQuietUntil(fs: seq<Failure>, source: string, window: real, threshold: int)
    requires threshold > 0
    ensures After(fs, source, window, threshold).alertedUntil ==
      match LastAlert(fs, source, window, threshold)
      case None => 0.0
      case Some(t) => t + window
  {
    if fs != [] {
      RunQuietUntil(fs[..|fs| - 1], source, window, threshold);
    }
  }

  /** `j` is an alert for `source`. */
  predicate Alerted(fs: seq<Failure>, source: string, window: real, threshold: int, j: nat)
    requires j < |fs|
  {
    fs[j].source == source && AlertAt(fs, window, threshold, j).Some?
  }

  lemma AlertedInPrefix(fs: seq<Failure>, source: string, window: real, threshold: int, n: nat)
    requires n <= |fs|
    ensures forall j :: 0 <= j < n ==> (Alerted(fs[..n], source, window, threshold, j) <==> Alerted(fs, source, window, threshold, j))
  {
    forall j | 0 <= j < n
      ensures Alerted(fs[..n], source, window, threshold, j) <==> Alerted(fs, source, window, threshold, j)
    {
      assert fs[..n][..j] == fs[..j];
    }
  }

  lemma {:induction false} LastAlertIsLatest(fs: seq<Failure>, source: string, window: real, threshold: int)
    requires WallClock(fs)
    ensures match LastAlert(fs, source, window, threshold)
      case None => forall j :: 0 <= j < |fs| ==> !Alerted(fs, source, window, threshold, j)
      case Some(t) =>
        && (exists j :: 0 <= j < |fs| && Alerted(fs, source, window, threshold, j) && fs[j].now == t)
        && forall j :: 0 <= j < |fs| && Alerted(fs, source, window, threshold, j) ==> fs[j].now <= t
  {
    if fs != [] {
      var n := |fs| - 1;
      LastAlertIsLatest(fs[..n], source, window, threshold);
      AlertedInPrefix(fs, source, window, threshold, n);
      if Alerted(fs, source, window, threshold, n) {
        assert LastAlert(fs, source, window, threshold) == Some(fs[n].now);
      } else {
        assert LastAlert(fs, source, window, threshold) == LastAlert(fs[..n], source, window, threshold);
      }
    }
  }

  /** An earlier alert for the source of call `i` lies less than a window back. */
  ghost predicate Quiet(fs: seq<Failure>, window: real, threshold: int, i: nat)
    requires i < |fs|
  {
    exists j :: 0 <= j < i && Alerted(fs, fs[i].source, window, threshold, j) && fs[i].now - fs[j].now < window
  }

  /** How many failures of the source of call `i`, itself included, the closed window up to it holds. */
  function InWindow(fs: seq<Failure>, window: real, i: nat): nat
    requires i < |fs|
  {
    CountIn(TimesOf(fs[..i + 1], fs[i].source), fs[i].now - window, fs[i].now)
  }

  lemma InWindowNext(fs: seq<Failure>, window: real, i: nat)
    requires i < |fs|
    ensures InWindow(fs, window, i) ==
      CountIn(TimesOf(fs[..i], fs[i].source) + [fs[i].now], fs[i].now - window, fs[i].now)
  {
    assert fs[..i + 1][..i] == fs[..i];
  }

  /** Whether call `i` alerts, and with what count, in terms of the history alone: it alerts exactly when
      the closed window up to now holds at least `threshold` failures of the source and no alert for the
      source lies less than a window back; the count reported is the true one. */
  lemma AlertMeetsSpecification(fs: seq<Failure>, window: real, threshold: int, i: nat)
    requires threshold > 0 && WallClock(fs) && i < |fs|
    ensures AlertAt(fs, window, threshold, i) ==
      AlertDue(InWindow(fs, window, i), threshold, Quiet(fs, window, threshold, i))
  {
    AlertByState(fs, window, threshold, i);
    QuietIsPending(fs, window, threshold, i);
  }

  lemma AlertByState(fs: seq<Failure>, window: real, threshold: int, i: nat)
    requires threshold > 0 && WallClock(fs) && i < |fs|
    ensures AlertAt(fs, window, threshold, i) ==
      AlertDue(InWindow(fs, window, i), threshold, After(fs[..i], fs[i].source, window, threshold).alertedUntil > fs[i].now)
  {
    InWindowNext(fs, window, i);
    PrefixAlert(fs[..i], fs[i], window, threshold);
  }

  lemma PrefixAlert(past: seq<Failure>, f: Failure, window: real, threshold: int)
    requires threshold > 0 && WallClock(past) && (past != [] ==> past[|past| - 1].now <= f.now)
    ensures AlertsRight(TimesOf(past, f.source), After(past, f.source, window, threshold), window, threshold, f.now)
  {
    RunRemembers(past, f.source, window, threshold, f.now);
    SourceStepAlert(TimesOf(past, f.source), After(past, f.source, window, threshold), window, threshold, f.now);
  }

  lemma QuietIsPending(fs: seq<Failure>, window: real, threshold: int, i: nat)
    requires threshold > 0 && WallClock(fs) && i < |fs|
    ensures Quiet(fs, window, threshold, i) <==> After(fs[..i], fs[i].source, window, threshold).alertedUntil > fs[i].now
  {
    RunQuietUntil(fs[..i], fs[i].source, window, threshold);
    QuietIsLastAlert(fs, window, threshold, i);
  }

  lemma QuietIsLastAlert(fs: seq<Failure>, window: real, threshold: int, i: nat)
    requires threshold > 0 && WallClock(fs) && i < |fs|
    ensures Quiet(fs, window, threshold, i) <==>
      match LastAlert(fs[..i], fs[i].source, window, threshold)
      case None => false
      case Some(t) => t + window > fs[i].now
  {
    LastAlertIsLatest(fs[..i], fs[i].source, window, threshold);
    AlertedInPrefix(fs, fs[i].source, window, threshold, i);
  }

  /** Two alerts for one source are at least a window apart. */
  lemma AlertsAreApart(fs: seq<Failure>, window: real, threshold: int, i: nat, j: nat)
    requires threshold > 0 && WallClock(fs) && i < j < |fs| && fs[i].source == fs[j].source
    requires AlertAt(fs, window, threshold, i).Some? && AlertAt(fs, window, threshold, j).Some?
    ensures fs[j].now - fs[i].now >= window
  {
    AlertMeetsSpecification(fs, window, threshold, j);
    assert Alerted(fs, fs[j].source, window, threshold, i);
  }

  /** A threshold of zero or less turns the alerts off, and nothing is remembered. */
  lemma {:induction false} DisabledNeverAlerts(fs: seq<Failure>, source: string, window: real, threshold: int)
    requires threshold <= 0
    ensures After(fs, source, window, threshold) == Source([], 0.0)
    ensures forall i :: 0 <= i < |fs| ==> AlertAt(fs, window, threshold, i) == None
  {
    if fs != [] {
      DisabledNeverAlerts(fs[..|fs| - 1], source, window, threshold);
    }
  }
}
