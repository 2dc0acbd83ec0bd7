/** What every run of the ingestion gate keeps, under constant settings (ingestion/pipeline.py). */
module GateRuns {
  import opened Wrappers
  import opened Strings
  import opened Alerts
  import opened Llm
  import opened Gate
  import RateLimit
  import RateLimitBackends
  import RateLimitRedis
  import Dedup
  import Tenancy

  /** Neither clock goes back. */
  ghost predicate Timely(h: History) {
    forall i, j :: 0 <= i <= j < |h| ==> h[i].rateNow <= h[j].rateNow && h[i].dedupNow <= h[j].dedupNow
  }

  // ----- one record per alert

  lemma {:induction false} LogLength(cfg: Settings, h: History)
    ensures |LogOf(cfg, h)| == |h|
  {
    if h != [] {
      LogLength(cfg, h[..|h| - 1]);
    }
  }

  lemma {:induction false} LogPrefix(cfg: Settings, h: History, i: nat)
    requires i <= |h|
    ensures LogOf(cfg, h[..i]) <= LogOf(cfg, h)
  {
    if i == |h| {
      assert h[..i] == h;
    } else {
      assert h[..|h| - 1][..i] == h[..i];
      LogPrefix(cfg, h[..|h| - 1], i);
    }
  }

  lemma LastRecord(cfg: Settings, h: History)
    requires h != []
    ensures LogOf(cfg, h) == LogOf(cfg, h[..|h| - 1]) + [RecordOf(cfg, h[..|h| - 1], h[|h| - 1])]
  {
  }

  function RecordOf(cfg: Settings, h: History, a: Arrival): Record {
    Record(a.tenantId, a.alert, ResultOf(cfg, h, a))
  }

  /** Nothing is silently discarded: the log holds one record for each alert, in order, with the alert and the
      very result that was returned. */
  lemma LogIsComplete(cfg: Settings, h: History, i: nat)
    requires i < |h|
    ensures |LogOf(cfg, h)| == |h|
    ensures LogOf(cfg, h)[i] == RecordOf(cfg, h[..i], h[i])
  {
    var upTo := h[..i + 1];
    LogLength(cfg, h);
    LogLength(cfg, upTo[..i]);
    LogPrefix(cfg, h, i + 1);
    LastRecord(cfg, upTo);
    assert upTo[..i] == h[..i];
  }

  // ----- when an alert is rate limited

  function Admitted(cfg: Settings, h: History, slug: string): seq<real> {
    RateLimit.AdmittedTimes(RateCalls(h), cfg.rateLimit, IngestKey(slug))
  }

  lemma CallsPrefix(h: History, i: nat)
    requires i <= |h|
    ensures RateCalls(h)[..i] == RateCalls(h[..i])
  {
  }

  lemma LimitedIsAnswer(cfg: Settings, h: History, i: nat)
    requires i < |h|
    ensures Limited(cfg, h[..i], h[i]) == RateLimit.Answer(RateCalls(h), cfg.rateLimit, i)
  {
    CallsPrefix(h, i);
  }

  /** An alert is rate limited exactly when `rateLimit` alerts of its tenant were admitted in the closed minute
      that ends now. */
  lemma LimitedIffWindowFull(cfg: Settings, h: History, i: nat)
    requires cfg.rateLimit > 0 && Timely(h) && i < |h|
    ensures ResultOf(cfg, h[..i], h[i]).RateLimited? <==>
      RateLimit.CountIn(Admitted(cfg, h[..i], h[i].tenantId), h[i].rateNow - RateLimit.WINDOW, h[i].rateNow)
        == cfg.rateLimit
  {
    LimitedIsAnswer(cfg, h, i);
    CallsPrefix(h, i);
    RateLimit.RejectionIsDue(RateCalls(h), cfg.rateLimit, i);
  }

  // ----- when an alert is a duplicate

  /** Arrival `i` got past the limiter. */
  predicate Sighted(cfg: Settings, h: History, i: nat)
    requires i < |h|
  {
    Limited(cfg, h[..i], h[i]) == None
  }

  predicate Twins(a: Arrival, b: Arrival) {
    a.tenantId == b.tenantId && a.alert.dedupKey == b.alert.dedupKey
  }

  /** A sighted twin of arrival `i` came less than a window before it. */
  ghost predicate RecentTwin(cfg: Settings, h: History, i: nat, j: nat)
    requires i < |h|
  {
    j < i && Sighted(cfg, h, j) && Twins(h[j], h[i]) && h[i].dedupNow - h[j].dedupNow < cfg.dedupWindow
  }

  lemma {:induction false} SightedIsSeen(cfg: Settings, h: History, j: nat)
    requires j < |h| && Sighted(cfg, h, j)
    ensures Sighting(cfg, h[j]) in Seen(cfg, h)
  {
    var n := |h| - 1;
    if j < n {
      assert h[..n][..j] == h[..j];
      SightedIsSeen(cfg, h[..n], j);
    }
  }

  lemma {:induction false} SeenWasSighted(cfg: Settings, h: History, s: Dedup.Sighting) returns (j: nat)
    requires s in Seen(cfg, h)
    ensures j < |h| && Sighted(cfg, h, j) && s == Sighting(cfg, h[j])
  {
    var n := |h| - 1;
    if s in Seen(cfg, h[..n]) {
      j := SeenWasSighted(cfg, h[..n], s);
      assert h[..n][..j] == h[..j];
    } else {
      j := n;
    }
  }

  lemma {:induction false} SeenIsChronological(cfg: Settings, h: History, last: real)
    requires Timely(h) && (h != [] ==> h[|h| - 1].dedupNow <= last)
    ensures Dedup.Chronological(Seen(cfg, h))
    ensures forall s :: s in Seen(cfg, h) ==> s.now <= last
  {
    if h != [] {
      var n := |h| - 1;
      SeenIsChronological(cfg, h[..n], h[n].dedupNow);
      ChronologicalSnoc(Seen(cfg, h[..n]), Sighting(cfg, h[n]));
    }
  }

  lemma ChronologicalSnoc(ss: seq<Dedup.Sighting>, s: Dedup.Sighting)
    requires Dedup.Chronological(ss) && forall x :: x in ss ==> x.now <= s.now
    ensures Dedup.Chronological(ss + [s])
  {
    assert forall i :: 0 <= i < |ss| ==> ss[i] in ss;
  }

  /** The deduplicator's answer in terms of its own history. */
  lemma DuplicateIsSeen(cfg: Settings, h: History, a: Arrival)
    requires Timely(h + [a])
    ensures Duplicate(cfg, h, a) <==>
      Dedup.SeenWithinWindow(Seen(cfg, h) + [Sighting(cfg, a)], |Seen(cfg, h)|)
  {
    var seen, s := Seen(cfg, h), Sighting(cfg, a);
    assert forall i :: 0 <= i < |h| ==> (h + [a])[i] == h[i];
    assert (h + [a])[|h|] == a;
    SeenIsChronological(cfg, h, a.dedupNow);
    ChronologicalSnoc(seen, s);
    assert (seen + [s])[..|seen|] == seen;
    Dedup.MemoryMeetsSpecification(seen + [s], |seen|);
  }

  lemma TimelyPrefix(h: History, i: nat)
    requires Timely(h) && i < |h|
    ensures Timely(h[..i] + [h[i]]) && h[..i] + [h[i]] == h[..i + 1]
  {
  }

  lemma TwinMakesDuplicate(cfg: Settings, h: History, i: nat, j: nat)
    requires Timely(h) && i < |h| && cfg.dedupWindow > 0.0 && RecentTwin(cfg, h, i, j)
    ensures Duplicate(cfg, h[..i], h[i])
  {
    TimelyPrefix(h, i);
    DuplicateIsSeen(cfg, h[..i], h[i]);
    assert h[..i][..j] == h[..j];
    SightedIsSeen(cfg, h[..i], j);
    var seen, s := Seen(cfg, h[..i]), Sighting(cfg, h[i]);
    var k :| 0 <= k < |seen| && seen[k] == Sighting(cfg, h[j]);
    assert (seen + [s])[k] == seen[k];
    assert Dedup.SameAlert((seen + [s])[k], s);
  }

  lemma DuplicateHasTwin(cfg: Settings, h: History, i: nat) returns (j: nat)
    requires Timely(h) && i < |h| && Duplicate(cfg, h[..i], h[i])
    ensures cfg.dedupWindow > 0.0 && RecentTwin(cfg, h, i, j)
  {
    TimelyPrefix(h, i);
    DuplicateIsSeen(cfg, h[..i], h[i]);
    var seen, s := Seen(cfg, h[..i]), Sighting(cfg, h[i]);
    var k :| 0 <= k < |seen| && Dedup.SameAlert((seen + [s])[k], s) && s.now - (seen + [s])[k].now < s.window;
    assert seen[k] in seen;
    j := SeenWasSighted(cfg, h[..i], seen[k]);
    assert h[..i][..j] == h[..j];
  }

  /** An alert that is not rate limited is deduped exactly when the same tenant and key were sighted less than a
      window ago. Rate-limited alerts never count as sightings. */
  lemma DedupedIffRecentTwin(cfg: Settings, h: History, i: nat)
    requires Timely(h) && i < |h| && Sighted(cfg, h, i)
    ensures ResultOf(cfg, h[..i], h[i]).Deduped?
       <==> cfg.dedupWindow > 0.0 && exists j :: RecentTwin(cfg, h, i, j)
  {
    if Duplicate(cfg, h[..i], h[i]) {
      var j := DuplicateHasTwin(cfg, h, i);
    }
    if j :| cfg.dedupWindow > 0.0 && RecentTwin(cfg, h, i, j) {
      TwinMakesDuplicate(cfg, h, i, j);
    }
  }

  /** Arrival `i` got past both counters: it was correlated, suppressed or promoted. */
  predicate Handled(cfg: Settings, h: History, i: nat)
    requires i < |h|
  {
    var r := ResultOf(cfg, h[..i], h[i]);
    r.Correlated? || r.SuppressedLowSeverity? || r.Promoted?
  }

  /** Two alerts with one key that both get through are at least a window apart. */
  lemma HandledTwinsAreApart(cfg: Settings, h: History, i: nat, j: nat)
    requires Timely(h) && j < i < |h| && cfg.dedupWindow > 0.0
    requires Handled(cfg, h, i) && Handled(cfg, h, j) && Twins(h[j], h[i])
    ensures h[i].dedupNow - h[j].dedupNow >= cfg.dedupWindow
  {
    if h[i].dedupNow - h[j].dedupNow < cfg.dedupWindow {
      assert RecentTwin(cfg, h, i, j);
      TwinMakesDuplicate(cfg, h, i, j);
    }
  }

  // ----- the cost bound

  /** The alert starts an agent run or asks the judge. */
  predicate Costly(cfg: Settings, h: History, a: Arrival) {
    || ResultOf(cfg, h, a).Promoted?
    || Judged(cfg, h, a)
  }

  predicate Judged(cfg: Settings, h: History, a: Arrival) {
    ReachesSemantic(cfg, a, Limited(cfg, h, a), Duplicate(cfg, h, a)) && Asks(cfg, a.candidates)
  }

  function CostlyTimes(cfg: Settings, h: History, slug: string): seq<real> {
    if h == [] then []
    else
      var n := |h| - 1;
      var before := CostlyTimes(cfg, h[..n], slug);
      if h[n].tenantId == slug && Costly(cfg, h[..n], h[n]) then before + [h[n].rateNow] else before
  }

  lemma CountSnoc(times: seq<real>, t: real, lo: real, hi: real)
    ensures RateLimit.CountIn(times + [t], lo, hi) == RateLimit.CountIn(times, lo, hi) + if lo <= t <= hi then 1 else 0
  {
    assert (times + [t])[..|times|] == times;
  }

  lemma AdmittedStep(cfg: Settings, h: History, slug: string)
    requires h != []
    ensures var n := |h| - 1;
      Admitted(cfg, h, slug) ==
      if h[n].tenantId == slug && Limited(cfg, h[..n], h[n]) == None then Admitted(cfg, h[..n], slug) + [h[n].rateNow]
      else Admitted(cfg, h[..n], slug)
  {
    var n := |h| - 1;
    CallsPrefix(h, n);
    LimitedIsAnswer(cfg, h, n);
    IngestKeysDiffer(h[n].tenantId, slug);
  }

  lemma CostlyIsSighted(cfg: Settings, h: History, a: Arrival)
    ensures Costly(cfg, h, a) ==> Limited(cfg, h, a) == None
  {
  }

  lemma CountStep(costly: seq<real>, admitted: seq<real>, t: real, lo: real, hi: real, inCostly: bool, inAdmitted: bool)
    requires RateLimit.CountIn(costly, lo, hi) <= RateLimit.CountIn(admitted, lo, hi) && (inCostly ==> inAdmitted)
    ensures RateLimit.CountIn(if inCostly then costly + [t] else costly, lo, hi)
         <= RateLimit.CountIn(if inAdmitted then admitted + [t] else admitted, lo, hi)
  {
    CountSnoc(costly, t, lo, hi);
    CountSnoc(admitted, t, lo, hi);
  }

  lemma {:induction false} CostlyIsAdmitted(cfg: Settings, h: History, slug: string, lo: real, hi: real)
    ensures RateLimit.CountIn(CostlyTimes(cfg, h, slug), lo, hi) <= RateLimit.CountIn(Admitted(cfg, h, slug), lo, hi)
  {
    if h != [] {
      var n := |h| - 1;
      CostlyIsAdmitted(cfg, h[..n], slug, lo, hi);
      AdmittedStep(cfg, h, slug);
      CostlyIsSighted(cfg, h[..n], h[n]);
      CountStep(CostlyTimes(cfg, h[..n], slug), Admitted(cfg, h[..n], slug), h[n].rateNow, lo, hi,
                h[n].tenantId == slug && Costly(cfg, h[..n], h[n]),
                h[n].tenantId == slug && Limited(cfg, h[..n], h[n]) == None);
    }
  }

  /** Whatever is sent, in any closed 60-second interval at most `rateLimit` alerts of one tenant start an agent
      run or reach the LLM judge. */
  lemma CostIsBounded(cfg: Settings, h: History, slug: string, lo: real)
    requires cfg.rateLimit > 0 && Timely(h)
    ensures RateLimit.CountIn(CostlyTimes(cfg, h, slug), lo, lo + RateLimit.WINDOW) <= cfg.rateLimit
  {
    CostlyIsAdmitted(cfg, h, slug, lo, lo + RateLimit.WINDOW);
    RateLimit.WindowHoldsAtMostLimit(RateCalls(h), cfg.rateLimit, IngestKey(slug), lo);
  }

  // ----- what the cheap answers leave alone

  /** A rate-limited alert leaves the deduplicator as it was. */
  lemma LimitedIsNotSighted(cfg: Settings, h: History, a: Arrival)
    requires ResultOf(cfg, h, a).RateLimited?
    ensures Seen(cfg, h + [a]) == Seen(cfg, h)
  {
    PrefixOfSnoc(h, a);
  }

  lemma EffectsSnoc(cfg: Settings, h: History, a: Arrival)
    ensures AllEffects(cfg, h + [a]) == AllEffects(cfg, h) + EffectsOf(cfg, h, a)
  {
    PrefixOfSnoc(h, a);
  }

  /** The one pipeline call of a correlated or promoted alert, if any, and nothing else. */
  predicate Answers(r: Result, a: Arrival, effects: seq<Effect>) {
    match r
    case Correlated(threadId, _, _) =>
      && |effects| == 1 && effects[0].Merge? && effects[0].alert == a.alert
      && threadId == (if a.returned.Some? then a.returned.value.id else effects[0].threadId)
    case Promoted(created, _) =>
      && |effects| == 1 && effects[0].NewIncident? && effects[0].alert == a.alert
      && created == (if a.returned.Some? then Some(a.returned.value.id) else None)
    case _ => effects == []
  }

  lemma ResultAndCallsAgree(cfg: Settings, h: History, a: Arrival)
    ensures Answers(ResultOf(cfg, h, a), a, EffectsOf(cfg, h, a))
  {
  }

  predicate Escalates(r: Result) {
    r.Correlated? || r.Promoted?
  }

  /** The alerts whose log records say correlated or promoted, in order. */
  function Escalated(log: seq<Record>): seq<Alert> {
    if log == [] then []
    else
      var last := log[|log| - 1];
      Escalated(log[..|log| - 1]) + if Escalates(last.result) then [last.alert] else []
  }

  /** The alerts that were handed to the incident pipeline, in order. */
  function Handed(effects: seq<Effect>): seq<Alert> {
    if effects == [] then [] else Handed(effects[..|effects| - 1]) + [effects[|effects| - 1].alert]
  }

  lemma HandedSnoc(effects: seq<Effect>, more: seq<Effect>)
    requires |more| <= 1
    ensures Handed(effects + more) == Handed(effects) + if more == [] then [] else [more[0].alert]
  {
    if more == [] {
      assert effects + more == effects;
    } else {
      assert (effects + more)[..|effects|] == effects;
    }
  }

  lemma EscalatedSnoc(log: seq<Record>, r: Record)
    ensures Escalated(log + [r]) == Escalated(log) + if Escalates(r.result) then [r.alert] else []
  {
    assert (log + [r])[..|log|] == log;
  }

  /** Over every run the log and the calls into the incident pipeline tell the same story: exactly the alerts logged as
      correlated or promoted were handed on, each once, in the order of their records. */
  lemma {:induction false} PipelineCallsAreLogged(cfg: Settings, h: History)
    ensures Handed(AllEffects(cfg, h)) == Escalated(LogOf(cfg, h))
  {
    if h != [] {
      var n := |h| - 1;
      PipelineCallsAreLogged(cfg, h[..n]);
      ResultAndCallsAgree(cfg, h[..n], h[n]);
      HandedSnoc(AllEffects(cfg, h[..n]), EffectsOf(cfg, h[..n], h[n]));
      EscalatedSnoc(LogOf(cfg, h[..n]), RecordOf(cfg, h[..n], h[n]));
    }
  }

  lemma CheapAnswersHaveNoEffects(cfg: Settings, h: History, a: Arrival)
    requires ResultOf(cfg, h, a).RateLimited? || ResultOf(cfg, h, a).Deduped?
    ensures EffectsOf(cfg, h, a) == []
  {
  }

  /** Corollary: neither a rate-limited alert nor a duplicate reaches the incident pipeline. */
  lemma CheapAnswersCallNothing(cfg: Settings, h: History, a: Arrival)
    requires ResultOf(cfg, h, a).RateLimited? || ResultOf(cfg, h, a).Deduped?
    ensures AllEffects(cfg, h + [a]) == AllEffects(cfg, h)
  {
    EffectsSnoc(cfg, h, a);
    CheapAnswersHaveNoEffects(cfg, h, a);
  }

  /** Below the floor an alert can only join an incident through the free tiers: it is never promoted, never merged
      semantically, and the judge is never asked. */
  lemma BelowFloorIsNeverEscalated(cfg: Settings, h: History, a: Arrival)
    requires BelowFloor(cfg, a)
    ensures !Costly(cfg, h, a)
    ensures ResultOf(cfg, h, a).Correlated? ==> a.free.Some?
    ensures forall e :: e in EffectsOf(cfg, h, a) ==> a.free.Some? && e == Merge(a.free.value.threadId, a.alert, EMPTY_USAGE)
  {
  }

  lemma StartsAboveFloor(cfg: Settings, h: History, a: Arrival, e: Effect)
    requires e in EffectsOf(cfg, h, a) && e.NewIncident?
    ensures SeverityRank(e.alert.severity) >= cfg.minRank
  {
    if BelowFloor(cfg, a) {
      BelowFloorIsNeverEscalated(cfg, h, a);
    }
  }

  /** Over every run, no incident is started for an alert below the floor. */
  lemma {:induction false} IncidentsStartAboveFloor(cfg: Settings, h: History, e: Effect)
    requires e in AllEffects(cfg, h) && e.NewIncident?
    ensures SeverityRank(e.alert.severity) >= cfg.minRank
  {
    var n := |h| - 1;
    if e in AllEffects(cfg, h[..n]) {
      IncidentsStartAboveFloor(cfg, h[..n], e);
    } else {
      StartsAboveFloor(cfg, h[..n], h[n], e);
    }
  }

  /** A merge that the free tiers did not ask for names one of the first `maxCandidates` open incidents, with at
      least the configured confidence, for an alert at or above the floor. */
  lemma SemanticMergeIsJustified(cfg: Settings, h: History, a: Arrival) returns (i: nat)
    requires a.free == None && ResultOf(cfg, h, a).Correlated?
    ensures Judged(cfg, h, a) && !BelowFloor(cfg, a)
    ensures a.judge.Parsed? && a.judge.value.correlates && ConfidenceRank(a.judge.value.confidence) >= cfg.minConfidence
    ensures i < |a.candidates| && i < cfg.maxCandidates
    ensures EffectsOf(cfg, h, a) == [Merge(a.candidates[i], a.alert, a.judge.usage)]
  {
    var pool := Pool(cfg, a.candidates);
    var t := a.judge.value.threadId.value;
    assert t in pool;
    i :| 0 <= i < |pool| && pool[i] == t;
  }

  // ----- the judge's tokens are never dropped

  function JudgeTokens(cfg: Settings, h: History): int {
    if h == [] then 0
    else
      var n := |h| - 1;
      JudgeTokens(cfg, h[..n]) + if Judged(cfg, h[..n], h[n]) then h[n].judge.usage.total else 0
  }

  function Tokens(e: Effect): int {
    match e
    case Merge(_, _, usage) => usage.total
    case NewIncident(_, seed) => if seed.Some? then seed.value.total else 0
  }

  function HandedOn(effects: seq<Effect>): int {
    if effects == [] then 0 else HandedOn(effects[..|effects| - 1]) + Tokens(effects[|effects| - 1])
  }

  lemma EffectTokens(cfg: Settings, h: History, a: Arrival, before: seq<Effect>)
    ensures HandedOn(before + EffectsOf(cfg, h, a))
         == HandedOn(before) + if Judged(cfg, h, a) then a.judge.usage.total else 0
  {
    var more := EffectsOf(cfg, h, a);
    if more == [] {
      assert before + more == before;
    } else {
      assert (before + more)[..|before|] == before;
    }
  }

  /** Every token the judge spent, failed calls included, is booked on the incident the alert ends up in. */
  lemma {:induction false} JudgeTokensAreHandedOn(cfg: Settings, h: History)
    ensures HandedOn(AllEffects(cfg, h)) == JudgeTokens(cfg, h)
  {
    if h != [] {
      var n := |h| - 1;
      JudgeTokensAreHandedOn(cfg, h[..n]);
      EffectTokens(cfg, h[..n], h[n], AllEffects(cfg, h[..n]));
    }
  }

  // ----- the same gate on Redis

  predicate Clean(h: History) {
    forall i :: 0 <= i < |h| ==> Lacks(h[i].tenantId, ':')
  }

  /** The arrivals as the gate sees them, whatever tenants its callers named. */
  function AllSanitized(space: char -> bool, arrivals: seq<Arrival>): (h: History)
    ensures |h| == |arrivals| && forall i :: 0 <= i < |h| ==> h[i] == Sanitized(space, arrivals[i])
  {
    seq(|arrivals|, i requires 0 <= i < |arrivals| => Sanitized(space, arrivals[i]))
  }

  lemma SanitizedIsClean(space: char -> bool, a: Arrival)
    ensures Lacks(Sanitized(space, a).tenantId, ':')
  {
    Tenancy.SanitizedIsSlug(space, a.tenantId);
    Tenancy.SlugLacksColon(Tenancy.SanitizeTenantId(space, a.tenantId));
  }

  lemma AllSanitizedIsClean(space: char -> bool, arrivals: seq<Arrival>)
    ensures Clean(AllSanitized(space, arrivals))
  {
    forall i | 0 <= i < |arrivals|
      ensures Lacks(AllSanitized(space, arrivals)[i].tenantId, ':')
    {
      SanitizedIsClean(space, arrivals[i]);
    }
  }

  /** The limiter keys of two tenants never run into each other's counters. */
  lemma IngestKeysNeverClash(s: string, t: string)
    requires Lacks(s, ':') && Lacks(t, ':')
    ensures !RateLimitBackends.Clashing(IngestKey(s), IngestKey(t))
  {
    assert (IngestKey(t) + ":seq")[7..] == t + ":seq" && (t + ":seq")[|t|] == ':';
    assert (IngestKey(s) + ":seq")[7..] == s + ":seq" && (s + ":seq")[|s|] == ':';
    assert IngestKey(s)[7..] == s && IngestKey(t)[7..] == t;
  }

  lemma {:induction false} SeenIsClean(cfg: Settings, h: History)
    requires Clean(h)
    ensures forall s :: s in Seen(cfg, h) ==> Lacks(s.tenantId, ':') && s.window == cfg.dedupWindow
  {
    if h != [] {
      SeenIsClean(cfg, h[..|h| - 1]);
    }
  }

  lemma DedupOnRedis(cfg: Settings, h: History, a: Arrival)
    requires Timely(h + [a]) && Clean(h) && Lacks(a.tenantId, ':')
    ensures Dedup.RedisAnswer(Dedup.RedisAfter(Seen(cfg, h)), Sighting(cfg, a)) == Duplicate(cfg, h, a)
  {
    var seen, s := Seen(cfg, h), Sighting(cfg, a);
    assert forall i :: 0 <= i < |h| ==> (h + [a])[i] == h[i];
    assert (h + [a])[|h|] == a;
    SeenIsChronological(cfg, h, a.dedupNow);
    ChronologicalSnoc(seen, s);
    SeenIsClean(cfg, h);
    assert forall i :: 0 <= i < |seen| ==> seen[i] in seen;
    assert (seen + [s])[..|seen|] == seen;
    Dedup.ConstantWindowAgrees(seen + [s], cfg.dedupWindow, |seen|);
  }

  /** All keys of the gate have the one limit. */
  function Limits(cfg: Settings): string -> int {
    key => cfg.rateLimit
  }

  /** Both Redis counters answer arrival `i` as the in-memory ones do. */
  ghost predicate SameOnRedis(cfg: Settings, show: real -> string, h: History, i: nat)
    requires i < |h|
  {
    && RateLimitRedis.Matches(RateLimitBackends.RedisReply(RateCalls(h), show, Limits(cfg), i), Limited(cfg, h[..i], h[i]))
    && Dedup.RedisAnswer(Dedup.RedisAfter(Seen(cfg, h[..i])), Sighting(cfg, h[i])) == Duplicate(cfg, h[..i], h[i])
  }

  lemma CleanCallsNeverClash(cfg: Settings, h: History, i: nat)
    requires Clean(h) && i < |h|
    ensures !RateLimitBackends.LiveClash(RateCalls(h), Limits(cfg), i)
  {
    forall j | 0 <= j < i
      ensures !RateLimitBackends.Clashing(RateCalls(h)[j].key, RateCalls(h)[i].key)
    {
      IngestKeysNeverClash(h[j].tenantId, h[i].tenantId);
    }
  }

  /** For whatever tenants the callers name, the gate gets the same answers from both counters on Redis as in memory, for
      every alert of a run, if and only if no alert meets a full window whose oldest admission is exactly 60 seconds old. */
  lemma GateOnEitherBackend(space: char -> bool, cfg: Settings, show: real -> string, arrivals: seq<Arrival>)
    requires cfg.rateLimit > 0 && Timely(AllSanitized(space, arrivals))
    ensures var h := AllSanitized(space, arrivals);
      (forall i :: 0 <= i < |h| ==> SameOnRedis(cfg, show, h, i))
      <==> (forall i :: 0 <= i < |h| ==> !RateLimitBackends.Boundary(RateCalls(h), Limits(cfg), i))
  {
    AllSanitizedIsClean(space, arrivals);
    CleanGateOnEitherBackend(cfg, show, AllSanitized(space, arrivals));
  }

  lemma CleanGateOnEitherBackend(cfg: Settings, show: real -> string, h: History)
    requires cfg.rateLimit > 0 && Timely(h) && Clean(h)
    ensures (forall i :: 0 <= i < |h| ==> SameOnRedis(cfg, show, h, i))
      <==> (forall i :: 0 <= i < |h| ==> !RateLimitBackends.Boundary(RateCalls(h), Limits(cfg), i))
  {
    var calls := RateCalls(h);
    forall i | 0 <= i < |h|
      ensures RateLimitBackends.Untroubled(calls, Limits(cfg), i) == !RateLimitBackends.Boundary(calls, Limits(cfg), i)
      ensures SameOnRedis(cfg, show, h, i) ==
        RateLimitRedis.Matches(RateLimitBackends.RedisReply(calls, show, Limits(cfg), i), RateLimitBackends.MemoryReply(calls, Limits(cfg), i))
    {
      CleanCallsNeverClash(cfg, h, i);
      LimitedIsAnswer(cfg, h, i);
      TimelyPrefix(h, i);
      DedupOnRedis(cfg, h[..i], h[i]);
    }
    RateLimitBackends.BackendsInterchangeable(calls, show, Limits(cfg));
  }
}
