/** Which of its outcomes the gate gives an alert, decided on the alert and the history alone (ingestion/pipeline.py). */
module GateOutcomes {
  import opened Wrappers
  import opened Alerts
  import opened Llm
  import opened Gate
  import opened GateRuns
  import RateLimit

  /** The four severities, and what the gate takes any other text for. */
  lemma SeverityValues(severity: string)
    ensures SeverityRank("low") == 0 && SeverityRank("medium") == 1 && SeverityRank("high") == 2 && SeverityRank("critical") == 3
    ensures severity !in {"low", "medium", "high", "critical"} ==> SeverityRank(severity) == 1
  {
  }

  /** The three confidences; any other text counts as none. */
  lemma ConfidenceValues(confidence: string)
    ensures ConfidenceRank("low") == 0 && ConfidenceRank("medium") == 1 && ConfidenceRank("high") == 2
    ensures confidence !in {"low", "medium", "high"} ==> ConfidenceRank(confidence) == 0
  {
  }

  /** The judge is asked if the tier is on and there is anything to choose from. */
  predicate Asked(cfg: Settings, a: Arrival) {
    cfg.semanticEnabled && a.candidates != [] && cfg.maxCandidates > 0
  }

  /** The judge named one of the first `maxCandidates` incidents with enough confidence. */
  ghost predicate JudgedSame(cfg: Settings, a: Arrival) {
    && Asked(cfg, a)
    && a.judge.Parsed? && a.judge.value.correlates
    && a.judge.value.threadId.Some? && a.judge.value.threadId.value != ""
    && (exists i :: 0 <= i < |a.candidates| && i < cfg.maxCandidates && a.candidates[i] == a.judge.value.threadId.value)
    && ConfidenceRank(a.judge.value.confidence) >= cfg.minConfidence
  }

  /** The answer to a merge: the incident that came back, or the one merged into if none did. */
  predicate JoinedTo(r: Result, a: Arrival, threadId: string, matchType: string) {
    && r.Correlated? && r.matchType == matchType
    && r.threadId == (if a.returned == None then threadId else a.returned.value.id)
    && r.status == (if a.returned == None then None else Some(a.returned.value.status))
  }

  /** Which outcome an alert past both counters gets, and the one call into the incident pipeline that goes with it. */
  ghost predicate RightOutcome(cfg: Settings, a: Arrival, r: Result, effects: seq<Effect>) {
    if a.free.Some? then
      && JoinedTo(r, a, a.free.value.threadId, a.free.value.matchType)
      && effects == [Merge(a.free.value.threadId, a.alert, Usage(0, 0, 0))]
    else if SeverityRank(a.alert.severity) < cfg.minRank then
      r == SuppressedLowSeverity(a.alert.severity) && effects == []
    else if JudgedSame(cfg, a) then
      && JoinedTo(r, a, a.judge.value.threadId.value, "semantic")
      && effects == [Merge(a.judge.value.threadId.value, a.alert, a.judge.usage)]
    else
      && r.Promoted?
      && r.created == (if a.returned == None then None else Some(a.returned.value.id))
      && r.status == (if a.returned == None then None else Some(a.returned.value.status))
      && effects == [NewIncident(a.alert, if Asked(cfg, a) && a.judge.usage.total != 0 then Some(a.judge.usage) else None)]
  }

  lemma CutPool(cfg: Settings, a: Arrival, t: string)
    ensures Asks(cfg, a.candidates) <==> Asked(cfg, a)
    ensures t in Pool(cfg, a.candidates) <==> exists i :: 0 <= i < |a.candidates| && i < cfg.maxCandidates && a.candidates[i] == t
  {
    var pool := Pool(cfg, a.candidates);
    if t in pool {
      var i :| 0 <= i < |pool| && pool[i] == t;
      assert a.candidates[i] == t;
    }
    if i :| 0 <= i < |a.candidates| && i < cfg.maxCandidates && a.candidates[i] == t {
      assert pool[i] == t;
    }
  }

  lemma SemanticExactly(cfg: Settings, a: Arrival)
    ensures Semantic(cfg, a.candidates, a.judge) ==
      if JudgedSame(cfg, a) then Some(SemanticMatch(a.judge.value.threadId.value, a.judge.value.confidence)) else None
  {
    CutPool(cfg, a, "");
    if a.judge.Parsed? && a.judge.value.threadId.Some? {
      CutPool(cfg, a, a.judge.value.threadId.value);
    }
  }

  lemma DecideExactly(cfg: Settings, a: Arrival)
    ensures RightOutcome(cfg, a, Decide(cfg, a, None, false), Effects(cfg, a, None, false))
  {
    SemanticExactly(cfg, a);
    CutPool(cfg, a, "");
  }

  /** Over every history: an alert that is neither rate limited nor a duplicate gets exactly this outcome. */
  lemma OutcomeExactly(cfg: Settings, h: History, a: Arrival)
    requires Limited(cfg, h, a) == None && !Duplicate(cfg, h, a)
    ensures RightOutcome(cfg, a, ResultOf(cfg, h, a), EffectsOf(cfg, h, a))
  {
    DecideExactly(cfg, a);
  }

  /** In the log of any run: a record says rate limited if the tenant's minute was full, deduped if it was not but a sighted
      twin lay in the window, and in every other case carries the outcome above. */
  lemma LogExactly(cfg: Settings, h: History, i: nat)
    requires cfg.rateLimit > 0 && Timely(h) && i < |h|
    ensures |LogOf(cfg, h)| == |h| && LogOf(cfg, h)[i].alert == h[i].alert && LogOf(cfg, h)[i].tenantId == h[i].tenantId
    ensures var r := LogOf(cfg, h)[i].result;
      if RateLimit.CountIn(Admitted(cfg, h[..i], h[i].tenantId), h[i].rateNow - RateLimit.WINDOW, h[i].rateNow) == cfg.rateLimit then
        r.RateLimited?
      else if cfg.dedupWindow > 0.0 && exists j :: RecentTwin(cfg, h, i, j) then r == Deduped(h[i].alert.dedupKey)
      else RightOutcome(cfg, h[i], r, EffectsOf(cfg, h[..i], h[i]))
  {
    LogIsComplete(cfg, h, i);
    LimitedIffWindowFull(cfg, h, i);
    if Limited(cfg, h[..i], h[i]) == None {
      DedupedIffRecentTwin(cfg, h, i);
      if !Duplicate(cfg, h[..i], h[i]) {
        OutcomeExactly(cfg, h[..i], h[i]);
      }
    }
  }

  // ----- what a tenant can cost

  /** Arrival `i` starts an agent run, or puts a call to the judge: past both counters, without a free match and not below
      the floor, it finds the tier on and something to choose from. */
  predicate Expensive(cfg: Settings, h: History, i: nat)
    requires i < |h|
  {
    || ResultOf(cfg, h[..i], h[i]).Promoted?
    || (Limited(cfg, h[..i], h[i]) == None && !Duplicate(cfg, h[..i], h[i])
        && h[i].free == None && SeverityRank(h[i].alert.severity) >= cfg.minRank && Asked(cfg, h[i]))
  }

  predicate ExpensiveAt(cfg: Settings, h: History, slug: string, lo: real, hi: real, i: nat) {
    i < |h| && h[i].tenantId == slug && lo <= h[i].rateNow <= hi && Expensive(cfg, h, i)
  }

  function ExpensiveWithin(cfg: Settings, h: History, slug: string, lo: real, hi: real): set<nat> {
    set i: nat | i < |h| && ExpensiveAt(cfg, h, slug, lo, hi, i)
  }

  lemma ExpensiveIsCostly(cfg: Settings, h: History, i: nat)
    requires i < |h|
    ensures Expensive(cfg, h, i) <==> Costly(cfg, h[..i], h[i])
  {
    CutPool(cfg, h[i], "");
  }

  lemma ExpensiveInPrefix(cfg: Settings, h: History, slug: string, lo: real, hi: real, n: nat, i: nat)
    requires i < n <= |h|
    ensures ExpensiveAt(cfg, h[..n], slug, lo, hi, i) == ExpensiveAt(cfg, h, slug, lo, hi, i)
  {
    assert h[..n][..i] == h[..i];
  }

  lemma OneMore(before: set<nat>, after: set<nat>, n: nat, p: bool)
    requires n !in before && after == if p then before + {n} else before
    ensures |after| == |before| + if p then 1 else 0
  {
  }

  lemma ExpensiveSnoc(cfg: Settings, h: History, slug: string, lo: real, hi: real)
    requires h != []
    ensures var n := |h| - 1;
      |ExpensiveWithin(cfg, h, slug, lo, hi)| == |ExpensiveWithin(cfg, h[..n], slug, lo, hi)|
        + if ExpensiveAt(cfg, h, slug, lo, hi, n) then 1 else 0
  {
    var n := |h| - 1;
    var before, after := ExpensiveWithin(cfg, h[..n], slug, lo, hi), ExpensiveWithin(cfg, h, slug, lo, hi);
    forall i: nat
      ensures i in after <==> i in before || (i == n && ExpensiveAt(cfg, h, slug, lo, hi, n))
    {
      if i < n {
        ExpensiveInPrefix(cfg, h, slug, lo, hi, n, i);
      }
    }
    OneMore(before, after, n, ExpensiveAt(cfg, h, slug, lo, hi, n));
  }

  lemma {:induction false} ExpensiveIsCounted(cfg: Settings, h: History, slug: string, lo: real, hi: real)
    ensures |ExpensiveWithin(cfg, h, slug, lo, hi)| == RateLimit.CountIn(CostlyTimes(cfg, h, slug), lo, hi)
  {
    if h != [] {
      var n := |h| - 1;
      ExpensiveIsCounted(cfg, h[..n], slug, lo, hi);
      ExpensiveSnoc(cfg, h, slug, lo, hi);
      ExpensiveIsCosts(cfg, h, slug, lo, hi);
    }
  }

  lemma ExpensiveIsCosts(cfg: Settings, h: History, slug: string, lo: real, hi: real)
    requires h != []
    ensures var n := |h| - 1;
      RateLimit.CountIn(CostlyTimes(cfg, h, slug), lo, hi) == RateLimit.CountIn(CostlyTimes(cfg, h[..n], slug), lo, hi)
        + if h[n].tenantId == slug && lo <= h[n].rateNow <= hi && Expensive(cfg, h, n) then 1 else 0
  {
    var n := |h| - 1;
    ExpensiveIsCostly(cfg, h, n);
    CountSnoc(CostlyTimes(cfg, h[..n], slug), h[n].rateNow, lo, hi);
  }

  /** Whatever is sent, of the alerts of one tenant that arrive within any closed minute at most `rateLimit` start an agent run
      or reach the judge. */
  lemma AtMostLimitExpensive(cfg: Settings, h: History, slug: string, lo: real)
    requires cfg.rateLimit > 0 && Timely(h)
    ensures |ExpensiveWithin(cfg, h, slug, lo, lo + 60.0)| <= cfg.rateLimit
  {
    ExpensiveIsCounted(cfg, h, slug, lo, lo + 60.0);
    CostIsBounded(cfg, h, slug, lo);
  }
}
