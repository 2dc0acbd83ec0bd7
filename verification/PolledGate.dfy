/** A polling connector in front of the ingestion gate (ingestion/crowdstrike_polling.py and ingestion/sentinel_polling.py
    over ingestion/pipeline.py). A rate-limited alert is only logged, and the cursor passes its record all the same. */
module PolledGate {
  import opened Wrappers
  import opened Polling
  import PollingRuns
  import Gate
  import GateRuns
  import RateLimit

  /** What the normalizer makes of a record and what the gate finds when it arrives; None for a record without an alert. */
  type Visit = Record -> Option<Gate.Arrival>

  /** The alerts of a page, as the gate sees them. */
  function Sent(records: seq<Record>, visit: Visit): Gate.History {
    if records == [] then []
    else
      var n := |records| - 1;
      Sent(records[..n], visit) + match visit(records[n]) case Some(a) => [a] case None => []
  }

  /** What reaches the gate around the events of the connector: other sources before each event, and for each poll the
      visits of its records. */
  datatype Traffic = Traffic(others: nat -> Gate.History, visits: nat -> Visit)

  /** The gate's history when event `n` begins. */
  function GateBefore(events: seq<Event>, traffic: Traffic, n: nat): Gate.History
    requires n <= |events|
  {
    if n == 0 then traffic.others(0)
    else
      var sent := if events[n - 1].Poll? then Sent(events[n - 1].records, traffic.visits(n - 1)) else [];
      GateBefore(events, traffic, n - 1) + sent + traffic.others(n)
  }

  /** The `k`-th record of poll `i` carries an alert that gets past the limiter. */
  predicate Passes(cfg: Gate.Settings, events: seq<Event>, traffic: Traffic, i: nat, k: nat)
    requires i < |events| && events[i].Poll? && k < |events[i].records|
  {
    traffic.visits(i)(events[i].records[k]).Some?
    && Admits(cfg, GateBefore(events, traffic, i), events[i].records, traffic.visits(i), k)
  }

  /** In some poll of the run the record's alert gets past the limiter. */
  ghost predicate Delivered(cfg: Gate.Settings, events: seq<Event>, traffic: Traffic, r: Record) {
    exists i: nat, k: nat :: PassesAs(cfg, events, traffic, i, k, r)
  }

  predicate PassesAs(cfg: Gate.Settings, events: seq<Event>, traffic: Traffic, i: nat, k: nat, r: Record) {
    i < |events| && events[i].Poll? && k < |events[i].records| && events[i].records[k] == r && Passes(cfg, events, traffic, i, k)
  }

  /** The gate sees each page where its poll stands, and what other sources send in between. */
  lemma HistoryGrows(events: seq<Event>, traffic: Traffic, i: nat)
    requires i < |events|
    ensures GateBefore(events, traffic, 0) == traffic.others(0)
    ensures match events[i]
      case Arrive(_) => GateBefore(events, traffic, i + 1) == GateBefore(events, traffic, i) + traffic.others(i + 1)
      case Poll(records, _) =>
        GateBefore(events, traffic, i + 1) == (GateBefore(events, traffic, i) + Sent(records, traffic.visits(i))) + traffic.others(i + 1)
  {
    if events[i].Arrive? {
      assert GateBefore(events, traffic, i) + [] == GateBefore(events, traffic, i);
    }
  }

  // ----- one page at the gate

  function RateTimes(h: Gate.History): (r: seq<real>)
    ensures |r| == |h| && forall i :: 0 <= i < |h| ==> r[i] == h[i].rateNow
  {
    seq(|h|, i requires 0 <= i < |h| => h[i].rateNow)
  }

  ghost predicate OfTenant(records: seq<Record>, visit: Visit, slug: string) {
    forall k :: 0 <= k < |records| && visit(records[k]).Some? ==> visit(records[k]).value.tenantId == slug
  }

  predicate Admits(cfg: Gate.Settings, h: Gate.History, records: seq<Record>, visit: Visit, k: nat)
    requires k < |records|
  {
    match visit(records[k])
    case Some(a) => LetIn(cfg, h, Sent(records[..k], visit), a)
    case None => true
  }

  /** The alert finds room in its minute, all alerts of the page before it counted. */
  predicate HasRoom(cfg: Gate.Settings, h: Gate.History, records: seq<Record>, visit: Visit, k: nat)
    requires k < |records|
  {
    match visit(records[k])
    case Some(a) => Fits(cfg, h, Sent(records[..k], visit), a)
    case None => true
  }

  lemma SentNext(records: seq<Record>, visit: Visit, k: nat)
    requires k < |records|
    ensures Sent(records[..k + 1], visit) ==
      Sent(records[..k], visit) + match visit(records[k]) case Some(a) => [a] case None => []
  {
    assert records[..k + 1][..k] == records[..k];
  }

  lemma {:induction false} SentPrefix(records: seq<Record>, visit: Visit, k: nat)
    requires k <= |records|
    ensures Sent(records[..k], visit) <= Sent(records, visit)
  {
    if k == |records| {
      assert records[..k] == records;
    } else {
      assert records[..|records| - 1][..k] == records[..k];
      SentPrefix(records[..|records| - 1], visit, k);
    }
  }

  lemma TimelyOnPage(h: Gate.History, records: seq<Record>, visit: Visit, k: nat)
    requires k <= |records| && GateRuns.Timely(h + Sent(records, visit))
    ensures GateRuns.Timely(h + Sent(records[..k], visit))
  {
    SentPrefix(records, visit, k);
    var all, part := h + Sent(records, visit), h + Sent(records[..k], visit);
    assert forall i :: 0 <= i < |part| ==> part[i] == all[i];
  }

  lemma LimitedIsAnswer(cfg: Gate.Settings, h: Gate.History, a: Gate.Arrival)
    ensures Gate.Limited(cfg, h, a) == RateLimit.Answer(Gate.RateCalls(h + [a]), cfg.rateLimit, |h|)
    ensures Gate.RateCalls(h + [a])[..|h|] == Gate.RateCalls(h)
  {
    assert (h + [a])[..|h|] == h;
    GateRuns.LimitedIsAnswer(cfg, h + [a], |h|);
    Gate.CallsSnoc(h, a);
  }

  lemma TimelyCalls(h: Gate.History)
    requires GateRuns.Timely(h)
    ensures RateLimit.Chronological(Gate.RateCalls(h))
  {
  }

  /** The limiter's answer, by counting. */
  lemma LimitedByCount(cfg: Gate.Settings, h: Gate.History, a: Gate.Arrival)
    requires cfg.rateLimit > 0 && GateRuns.Timely(h + [a])
    ensures Gate.Limited(cfg, h, a) == None
       <==> RateLimit.CountIn(GateRuns.Admitted(cfg, h, a.tenantId), a.rateNow - RateLimit.WINDOW, a.rateNow) < cfg.rateLimit
  {
    LimitedIsAnswer(cfg, h, a);
    TimelyCalls(h + [a]);
    RateLimit.AdmittedByCount(Gate.RateCalls(h + [a]), cfg.rateLimit, |h|);
  }

  lemma AdmittedSnoc(cfg: Gate.Settings, h: Gate.History, a: Gate.Arrival)
    requires Gate.Limited(cfg, h, a) == None
    ensures GateRuns.Admitted(cfg, h + [a], a.tenantId) == GateRuns.Admitted(cfg, h, a.tenantId) + [a.rateNow]
  {
    assert (h + [a])[..|h|] == h;
    GateRuns.AdmittedStep(cfg, h + [a], a.tenantId);
  }

  /** `sent` after `h` were all admitted. */
  ghost predicate AddsAll(cfg: Gate.Settings, h: Gate.History, sent: Gate.History, slug: string) {
    GateRuns.Admitted(cfg, h + sent, slug) == GateRuns.Admitted(cfg, h, slug) + RateTimes(sent)
  }

  lemma AddsOneMore(cfg: Gate.Settings, h: Gate.History, sent: Gate.History, a: Gate.Arrival)
    requires AddsAll(cfg, h, sent, a.tenantId) && Gate.Limited(cfg, h + sent, a) == None
    ensures AddsAll(cfg, h, sent + [a], a.tenantId)
  {
    AdmittedSnoc(cfg, h + sent, a);
    assert h + (sent + [a]) == (h + sent) + [a];
    assert RateTimes(sent + [a]) == RateTimes(sent) + [a.rateNow];
  }

  /** The next alert of the page, after admitted ones. */
  lemma NextByCount(cfg: Gate.Settings, h: Gate.History, sent: Gate.History, a: Gate.Arrival)
    requires cfg.rateLimit > 0 && AddsAll(cfg, h, sent, a.tenantId) && GateRuns.Timely(h + (sent + [a]))
    ensures Gate.Limited(cfg, h + sent, a) == None <==>
      RateLimit.CountIn(GateRuns.Admitted(cfg, h, a.tenantId), a.rateNow - RateLimit.WINDOW, a.rateNow)
      + RateLimit.CountIn(RateTimes(sent), a.rateNow - RateLimit.WINDOW, a.rateNow) < cfg.rateLimit
  {
    assert h + (sent + [a]) == (h + sent) + [a];
    LimitedByCount(cfg, h + sent, a);
    RateLimit.CountConcat(GateRuns.Admitted(cfg, h, a.tenantId), RateTimes(sent), a.rateNow - RateLimit.WINDOW, a.rateNow);
  }

  predicate LetIn(cfg: Gate.Settings, h: Gate.History, sent: Gate.History, a: Gate.Arrival) {
    Gate.Limited(cfg, h + sent, a) == None
  }

  /** The closed minute that ends with the arrival holds fewer than the limit, counting what was admitted in `h` and all
      that was sent since. */
  predicate Fits(cfg: Gate.Settings, h: Gate.History, sent: Gate.History, a: Gate.Arrival) {
    RateLimit.CountIn(GateRuns.Admitted(cfg, h, a.tenantId), a.rateNow - RateLimit.WINDOW, a.rateNow)
    + RateLimit.CountIn(RateTimes(sent), a.rateNow - RateLimit.WINDOW, a.rateNow) < cfg.rateLimit
  }

  lemma NextStep(cfg: Gate.Settings, h: Gate.History, sent: Gate.History, a: Gate.Arrival)
    requires cfg.rateLimit > 0 && AddsAll(cfg, h, sent, a.tenantId) && GateRuns.Timely(h + (sent + [a]))
    ensures LetIn(cfg, h, sent, a) <==> Fits(cfg, h, sent, a)
    ensures LetIn(cfg, h, sent, a) ==> AddsAll(cfg, h, sent + [a], a.tenantId)
  {
    NextByCount(cfg, h, sent, a);
    if LetIn(cfg, h, sent, a) {
      AddsOneMore(cfg, h, sent, a);
    }
  }

  lemma PageStep(cfg: Gate.Settings, h: Gate.History, records: seq<Record>, visit: Visit, slug: string, n: nat)
    requires cfg.rateLimit > 0 && n < |records| && OfTenant(records, visit, slug) && GateRuns.Timely(h + Sent(records, visit))
    requires AddsAll(cfg, h, Sent(records[..n], visit), slug)
    ensures Admits(cfg, h, records, visit, n) <==> HasRoom(cfg, h, records, visit, n)
    ensures Admits(cfg, h, records, visit, n) ==> AddsAll(cfg, h, Sent(records[..n + 1], visit), slug)
  {
    SentNext(records, visit, n);
    match visit(records[n])
    case Some(a) =>
      TimelyOnPage(h, records, visit, n + 1);
      NextStep(cfg, h, Sent(records[..n], visit), a);
    case None =>
      assert Sent(records[..n + 1], visit) == Sent(records[..n], visit);
  }

  lemma NothingAdded(cfg: Gate.Settings, h: Gate.History, slug: string)
    ensures AddsAll(cfg, h, [], slug)
  {
    assert h + [] == h;
  }

  ghost predicate PageAdmitted(cfg: Gate.Settings, h: Gate.History, records: seq<Record>, visit: Visit) {
    forall k :: 0 <= k < |records| ==> Admits(cfg, h, records, visit, k)
  }

  ghost predicate PageHasRoom(cfg: Gate.Settings, h: Gate.History, records: seq<Record>, visit: Visit) {
    forall k :: 0 <= k < |records| ==> HasRoom(cfg, h, records, visit, k)
  }

  lemma {:induction false} RoomAdmits(cfg: Gate.Settings, h: Gate.History, records: seq<Record>, visit: Visit, slug: string, n: nat)
    requires cfg.rateLimit > 0 && n <= |records| && OfTenant(records, visit, slug) && GateRuns.Timely(h + Sent(records, visit))
    requires PageHasRoom(cfg, h, records, visit)
    ensures AddsAll(cfg, h, Sent(records[..n], visit), slug)
  {
    if n == 0 {
      NothingAdded(cfg, h, slug);
    } else {
      RoomAdmits(cfg, h, records, visit, slug, n - 1);
      PageStep(cfg, h, records, visit, slug, n - 1);
      assert HasRoom(cfg, h, records, visit, n - 1);
    }
  }

  lemma {:induction false} AdmittedAdds(cfg: Gate.Settings, h: Gate.History, records: seq<Record>, visit: Visit, slug: string, n: nat)
    requires cfg.rateLimit > 0 && n <= |records| && OfTenant(records, visit, slug) && GateRuns.Timely(h + Sent(records, visit))
    requires PageAdmitted(cfg, h, records, visit)
    ensures AddsAll(cfg, h, Sent(records[..n], visit), slug)
  {
    if n == 0 {
      NothingAdded(cfg, h, slug);
    } else {
      AdmittedAdds(cfg, h, records, visit, slug, n - 1);
      PageStep(cfg, h, records, visit, slug, n - 1);
      assert Admits(cfg, h, records, visit, n - 1);
    }
  }

  /** All alerts of a page get past the limiter if and only if each of them finds room in its minute. */
  lemma PageAdmittedExactly(cfg: Gate.Settings, h: Gate.History, records: seq<Record>, visit: Visit, slug: string)
    requires cfg.rateLimit > 0 && OfTenant(records, visit, slug) && GateRuns.Timely(h + Sent(records, visit))
    ensures PageAdmitted(cfg, h, records, visit) <==> PageHasRoom(cfg, h, records, visit)
  {
    if PageHasRoom(cfg, h, records, visit) {
      forall k | 0 <= k < |records|
        ensures Admits(cfg, h, records, visit, k)
      {
        RoomAdmits(cfg, h, records, visit, slug, k);
        PageStep(cfg, h, records, visit, slug, k);
      }
    }
    if PageAdmitted(cfg, h, records, visit) {
      forall k | 0 <= k < |records|
        ensures HasRoom(cfg, h, records, visit, k)
      {
        AdmittedAdds(cfg, h, records, visit, slug, k);
        PageStep(cfg, h, records, visit, slug, k);
      }
    }
  }

  // ----- no second chance

  lemma SharpPasses(text: int -> string, s: State, records: seq<Record>, r: Record)
    requires PollingRuns.Sharp(text, s, records) && r in records
    ensures !Newer(Polled(text, s, records, Completed).cursor, r)
  {
    PollingRuns.NewestIsGreatest(s.cursor, records);
  }

  lemma {:induction false} PassedStays(text: int -> string, size: nat, events: seq<Event>, i: nat, j: nat, r: Record)
    requires Legal(text, size, events) && CrashFree(events) && i <= j <= |events|
    requires !Newer(After(text, events[..i]).cursor, r)
    ensures !Newer(After(text, events[..j]).cursor, r)
    decreases j
  {
    if i < j {
      PassedStays(text, size, events, i, j - 1, r);
      assert events[..j][..j - 1] == events[..j - 1];
      assert EnabledAt(text, size, events, j - 1);
      CursorStep(text, After(text, events[..j - 1]), size, events[j - 1]);
    }
  }

  /** A record on the page of a poll that moved the cursor to its newest time is on no later page. */
  lemma HandedOnce(text: int -> string, size: nat, events: seq<Event>, i: nat, j: nat, r: Record)
    requires Legal(text, size, events) && CrashFree(events) && i < j < |events| && events[i].Poll? && events[j].Poll?
    requires PollingRuns.SharpAt(text, events, i) && r in events[i].records
    ensures r !in events[j].records
  {
    assert events[..i + 1][..i] == events[..i];
    SharpPasses(text, After(text, events[..i]), events[i].records, r);
    PassedStays(text, size, events, i + 1, j, r);
    assert EnabledAt(text, size, events, j);
  }

  lemma SamePlace(text: int -> string, size: nat, events: seq<Event>, i: nat, k: nat, j: nat, l: nat)
    requires Legal(text, size, events) && CrashFree(events) && PollingRuns.AllSharp(text, events)
    requires i < |events| && events[i].Poll? && k < |events[i].records|
    requires j < |events| && events[j].Poll? && l < |events[j].records| && events[i].records[k] == events[j].records[l]
    ensures i == j && k == l
  {
    assert PollingRuns.SharpAt(text, events, i) && PollingRuns.SharpAt(text, events, j);
    if i < j {
      HandedOnce(text, size, events, i, j, events[i].records[k]);
    } else if j < i {
      HandedOnce(text, size, events, j, i, events[i].records[k]);
    } else {
      assert EnabledAt(text, size, events, i);
    }
  }

  lemma DeliveredHere(text: int -> string, size: nat, cfg: Gate.Settings, events: seq<Event>, traffic: Traffic, i: nat, k: nat)
    requires Legal(text, size, events) && CrashFree(events) && PollingRuns.AllSharp(text, events)
    requires i < |events| && events[i].Poll? && k < |events[i].records|
    ensures Delivered(cfg, events, traffic, events[i].records[k]) <==> Passes(cfg, events, traffic, i, k)
  {
    var r := events[i].records[k];
    assert Passes(cfg, events, traffic, i, k) <==> PassesAs(cfg, events, traffic, i, k, r);
    if j: nat, l: nat :| PassesAs(cfg, events, traffic, j, l, r) {
      SamePlace(text, size, events, i, k, j, l);
    }
  }

  ghost predicate PageDelivered(cfg: Gate.Settings, events: seq<Event>, traffic: Traffic, i: nat)
    requires i < |events| && events[i].Poll?
  {
    forall k :: 0 <= k < |events[i].records| && traffic.visits(i)(events[i].records[k]).Some? ==>
      Delivered(cfg, events, traffic, events[i].records[k])
  }

  lemma DeliveredIsAdmitted(text: int -> string, size: nat, cfg: Gate.Settings, events: seq<Event>, traffic: Traffic, i: nat)
    requires Legal(text, size, events) && CrashFree(events) && PollingRuns.AllSharp(text, events)
    requires i < |events| && events[i].Poll?
    ensures PageDelivered(cfg, events, traffic, i)
       <==> PageAdmitted(cfg, GateBefore(events, traffic, i), events[i].records, traffic.visits(i))
  {
    var records, visit, h := events[i].records, traffic.visits(i), GateBefore(events, traffic, i);
    if PageDelivered(cfg, events, traffic, i) {
      forall k | 0 <= k < |records|
        ensures Admits(cfg, h, records, visit, k)
      {
        DeliveredHere(text, size, cfg, events, traffic, i, k);
      }
    }
    if PageAdmitted(cfg, h, records, visit) {
      forall k | 0 <= k < |records| && visit(records[k]).Some?
        ensures Delivered(cfg, events, traffic, records[k])
      {
        assert Admits(cfg, h, records, visit, k);
        DeliveredHere(text, size, cfg, events, traffic, i, k);
      }
    }
  }

  /** Every alert on the page of a poll gets past the limiter, in this poll or in any other of the run, if and only if each
      of them finds room in its minute when it is handed over: the connector never asks for a rate-limited alert again. */
  lemma PollDeliversExactly(text: int -> string, size: nat, cfg: Gate.Settings, events: seq<Event>, traffic: Traffic, slug: string, i: nat)
    requires cfg.rateLimit > 0 && Legal(text, size, events) && CrashFree(events) && PollingRuns.AllSharp(text, events)
    requires i < |events| && events[i].Poll? && OfTenant(events[i].records, traffic.visits(i), slug)
    requires GateRuns.Timely(GateBefore(events, traffic, i) + Sent(events[i].records, traffic.visits(i)))
    ensures PageDelivered(cfg, events, traffic, i)
       <==> PageHasRoom(cfg, GateBefore(events, traffic, i), events[i].records, traffic.visits(i))
  {
    DeliveredIsAdmitted(text, size, cfg, events, traffic, i);
    PageAdmittedExactly(cfg, GateBefore(events, traffic, i), events[i].records, traffic.visits(i), slug);
  }

  // ----- pages larger than the limit

  lemma {:induction false} AllSent(records: seq<Record>, visit: Visit, k: nat, lo: real, hi: real)
    requires k <= |records| && forall i :: 0 <= i < k ==> visit(records[i]).Some? && lo <= visit(records[i]).value.rateNow <= hi
    ensures |Sent(records[..k], visit)| == k
    ensures forall i :: 0 <= i < k ==> lo <= Sent(records[..k], visit)[i].rateNow <= hi
  {
    if k > 0 {
      AllSent(records, visit, k - 1, lo, hi);
      SentNext(records, visit, k - 1);
    }
  }

  /** Each record has an alert, and all arrive within one minute. */
  ghost predicate WithinMinute(records: seq<Record>, visit: Visit) {
    && (forall k :: 0 <= k < |records| ==> visit(records[k]).Some?)
    && forall k, l :: 0 <= k < l < |records| ==>
         visit(records[k]).value.rateNow <= visit(records[l]).value.rateNow <= visit(records[k]).value.rateNow + RateLimit.WINDOW
  }

  lemma NoRoomAtEnd(cfg: Gate.Settings, h: Gate.History, records: seq<Record>, visit: Visit)
    requires 0 < cfg.rateLimit < |records| && WithinMinute(records, visit)
    ensures !HasRoom(cfg, h, records, visit, |records| - 1)
  {
    var n := |records| - 1;
    var a := visit(records[n]).value;
    AllSent(records, visit, n, a.rateNow - RateLimit.WINDOW, a.rateNow);
    RateLimit.CountAll(RateTimes(Sent(records[..n], visit)), a.rateNow - RateLimit.WINDOW, a.rateNow);
    assert !Fits(cfg, h, Sent(records[..n], visit), a);
  }

  /** If more records than the limit come within one minute, each with an alert, some alert is lost for good. */
  lemma LargePageLosesAlerts(text: int -> string, size: nat, cfg: Gate.Settings, events: seq<Event>, traffic: Traffic, slug: string, i: nat)
    requires cfg.rateLimit > 0 && Legal(text, size, events) && CrashFree(events) && PollingRuns.AllSharp(text, events)
    requires i < |events| && events[i].Poll? && OfTenant(events[i].records, traffic.visits(i), slug)
    requires GateRuns.Timely(GateBefore(events, traffic, i) + Sent(events[i].records, traffic.visits(i)))
    requires |events[i].records| > cfg.rateLimit && WithinMinute(events[i].records, traffic.visits(i))
    ensures exists r :: r in events[i].records && !Delivered(cfg, events, traffic, r)
  {
    PollDeliversExactly(text, size, cfg, events, traffic, slug, i);
    var records, visit := events[i].records, traffic.visits(i);
    NoRoomAtEnd(cfg, GateBefore(events, traffic, i), records, visit);
  }
}
