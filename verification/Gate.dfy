/** The ingestion gate (ingestion/pipeline.py) with the acceptance test of the semantic tier
    (ingestion/semantic_correlation.py), on the in-memory backends.

    What the free correlation tiers found, the candidates of the semantic tier, the judge's answer and what the incident
    pipeline returned are part of an arrival (GateCorrelation computes the first two); its two clock readings are
    `rateNow` and `dedupNow`. */
module Gate {
  import opened Wrappers
  import opened Strings
  import opened Alerts
  import opened Llm
  import RateLimit
  import Dedup
  import Tenancy

  // ----- configuration

  /** `minRank` and `minConfidence` are ranks; `dedupWindow` is in seconds. */
  datatype Settings = Settings(rateLimit: int, dedupWindow: real, minRank: nat,
                               semanticEnabled: bool, maxCandidates: nat, minConfidence: nat)

  function SeverityRank(severity: string): nat {
    match severity
    case "low" => 0
    case "high" => 2
    case "critical" => 3
    case _ => 1
  }

  function ConfidenceRank(confidence: string): nat {
    match confidence
    case "medium" => 1
    case "high" => 2
    case _ => 0
  }

  // ----- the semantic tier

  datatype Campaign = Campaign(correlates: bool, threadId: Option<string>, confidence: string)

  datatype SemanticMatch = SemanticMatch(threadId: string, confidence: string)

  function Pool(cfg: Settings, candidates: seq<string>): seq<string> {
    if |candidates| <= cfg.maxCandidates then candidates else candidates[..cfg.maxCandidates]
  }

  /** Whether the judge is called at all. */
  predicate Asks(cfg: Settings, candidates: seq<string>) {
    cfg.semanticEnabled && Pool(cfg, candidates) != []
  }

  function JudgeUsage(cfg: Settings, candidates: seq<string>, judge: Outcome<Campaign>): Usage {
    if Asks(cfg, candidates) then judge.usage else EMPTY_USAGE
  }

  predicate Accepts(cfg: Settings, candidates: seq<string>, c: Campaign) {
    && c.correlates
    && c.threadId.Some? && c.threadId.value != "" && c.threadId.value in Pool(cfg, candidates)
    && ConfidenceRank(c.confidence) >= cfg.minConfidence
  }

  /** A match is never invented: it takes an enabled tier, a parsed verdict, a member of the (cut) pool and enough
      confidence, and those together always give it. */
  method FindSemanticCorrelation(cfg: Settings, candidates: seq<string>, judge: Outcome<Campaign>)
    returns (m: Option<SemanticMatch>, usage: Usage)
    ensures m.Some? <==> Asks(cfg, candidates) && judge.Parsed? && Accepts(cfg, candidates, judge.value)
    ensures m.Some? ==> judge.value.threadId == Some(m.value.threadId) && m.value.confidence == judge.value.confidence
    ensures usage == JudgeUsage(cfg, candidates, judge)
    ensures m == Semantic(cfg, candidates, judge)
  {
    if !cfg.semanticEnabled {
      return None, EMPTY_USAGE;
    }
    var pool := Pool(cfg, candidates);
    if pool == [] {
      return None, EMPTY_USAGE;
    }
    var validIds := set t | t in pool;
    if judge.Failed? {
      return None, judge.usage;
    }
    var parsed := judge.value;
    if !parsed.correlates || parsed.threadId == None || parsed.threadId.value == ""
       || parsed.threadId.value !in validIds {
      return None, judge.usage;
    }
    if ConfidenceRank(parsed.confidence) < cfg.minConfidence {
      return None, judge.usage;
    }
    return Some(SemanticMatch(parsed.threadId.value, parsed.confidence)), judge.usage;
  }

  function Semantic(cfg: Settings, candidates: seq<string>, judge: Outcome<Campaign>): Option<SemanticMatch> {
    if Asks(cfg, candidates) && judge.Parsed? && Accepts(cfg, candidates, judge.value)
    then Some(SemanticMatch(judge.value.threadId.value, judge.value.confidence))
    else None
  }

  // ----- one arrival

  /** The incident in the state that a call into the incident pipeline returns. */
  datatype Incident = Incident(id: string, status: string)

  datatype Arrival = Arrival(tenantId: string, alert: Alert, rateNow: real, dedupNow: real,
                             free: Option<Correlation>, candidates: seq<string>, judge: Outcome<Campaign>,
                             returned: Option<Incident>)

  datatype Result =
    | RateLimited(retryAfter: real)
    | Deduped(dedupKey: string)
    | Correlated(threadId: string, status: Option<string>, matchType: string)
    | SuppressedLowSeverity(severity: string)
    | Promoted(created: Option<string>, status: Option<string>)

  /** A merge is answered with the incident that came back, or with the match if none did. */
  function Joined(matched: string, matchType: string, returned: Option<Incident>): Result {
    match returned
    case Some(i) => Correlated(i.id, Some(i.status), matchType)
    case None => Correlated(matched, None, matchType)
  }

  function Started(returned: Option<Incident>): Result {
    match returned
    case Some(i) => Promoted(Some(i.id), Some(i.status))
    case None => Promoted(None, None)
  }

  datatype Record = Record(tenantId: string, alert: Alert, result: Result)

  /** Calls into the incident pipeline, with the token usage handed along. */
  datatype Effect = Merge(threadId: string, alert: Alert, usage: Usage) | NewIncident(alert: Alert, seedUsage: Option<Usage>)

  /** The first thing the gate does; histories hold arrivals with sanitized tenants. */
  function Sanitized(space: char -> bool, a: Arrival): Arrival {
    a.(tenantId := Tenancy.SanitizeTenantId(space, a.tenantId))
  }

  function IngestKey(slug: string): string {
    "ingest:" + slug
  }

  function Sighting(cfg: Settings, a: Arrival): Dedup.Sighting {
    Dedup.Sighting(a.tenantId, a.alert.dedupKey, a.dedupNow, cfg.dedupWindow)
  }

  predicate BelowFloor(cfg: Settings, a: Arrival) {
    SeverityRank(a.alert.severity) < cfg.minRank
  }

  /** What the gate does with an arrival, given the limiter's and the deduplicator's answers. */
  function Decide(cfg: Settings, a: Arrival, retryAfter: Option<real>, duplicate: bool): Result {
    if retryAfter.Some? then RateLimited(retryAfter.value)
    else if duplicate then Deduped(a.alert.dedupKey)
    else if a.free.Some? then Joined(a.free.value.threadId, a.free.value.matchType, a.returned)
    else if BelowFloor(cfg, a) then SuppressedLowSeverity(a.alert.severity)
    else
      match Semantic(cfg, a.candidates, a.judge)
      case Some(m) => Joined(m.threadId, "semantic", a.returned)
      case None => Started(a.returned)
  }

  /** Whether the arrival gets as far as the semantic tier. */
  predicate ReachesSemantic(cfg: Settings, a: Arrival, retryAfter: Option<real>, duplicate: bool) {
    retryAfter == None && !duplicate && a.free == None && !BelowFloor(cfg, a)
  }

  function Effects(cfg: Settings, a: Arrival, retryAfter: Option<real>, duplicate: bool): seq<Effect> {
    if retryAfter.Some? || duplicate then []
    else if a.free.Some? then [Merge(a.free.value.threadId, a.alert, EMPTY_USAGE)]
    else if BelowFloor(cfg, a) then []
    else
      var usage := JudgeUsage(cfg, a.candidates, a.judge);
      match Semantic(cfg, a.candidates, a.judge)
      case Some(m) => [Merge(m.threadId, a.alert, usage)]
      case None => [NewIncident(a.alert, if usage.total != 0 then Some(usage) else None)]
  }

  // ----- the gate's state as a function of its history

  type History = seq<Arrival>

  /** Every arrival asks the limiter. */
  function RateCalls(h: History): (r: seq<RateLimit.Call>)
    ensures |r| == |h|
    ensures forall i :: 0 <= i < |h| ==> r[i] == RateLimit.Call(IngestKey(h[i].tenantId), h[i].rateNow)
  {
    seq(|h|, i requires 0 <= i < |h| => RateLimit.Call(IngestKey(h[i].tenantId), h[i].rateNow))
  }

  function BucketOf(cfg: Settings, h: History, slug: string): seq<real> {
    RateLimit.BucketAfter(RateCalls(h), cfg.rateLimit, IngestKey(slug))
  }

  /** What the limiter answers `a` after `h`. */
  function Limited(cfg: Settings, h: History, a: Arrival): Option<real> {
    RateLimit.MemoryStep(BucketOf(cfg, h, a.tenantId), a.rateNow, cfg.rateLimit).1
  }

  /** Only arrivals that were not rate limited are sighted. */
  function Seen(cfg: Settings, h: History): seq<Dedup.Sighting> {
    if h == [] then []
    else
      var n := |h| - 1;
      var before := Seen(cfg, h[..n]);
      if Limited(cfg, h[..n], h[n]).Some? then before else before + [Sighting(cfg, h[n])]
  }

  predicate Duplicate(cfg: Settings, h: History, a: Arrival) {
    Dedup.MemoryAnswer(Dedup.MemoryAfter(Seen(cfg, h)), Sighting(cfg, a))
  }

  function ResultOf(cfg: Settings, h: History, a: Arrival): Result {
    Decide(cfg, a, Limited(cfg, h, a), Duplicate(cfg, h, a))
  }

  function EffectsOf(cfg: Settings, h: History, a: Arrival): seq<Effect> {
    Effects(cfg, a, Limited(cfg, h, a), Duplicate(cfg, h, a))
  }

  function LogOf(cfg: Settings, h: History): seq<Record> {
    if h == [] then []
    else
      var n := |h| - 1;
      LogOf(cfg, h[..n]) + [Record(h[n].tenantId, h[n].alert, ResultOf(cfg, h[..n], h[n]))]
  }

  function AllEffects(cfg: Settings, h: History): seq<Effect> {
    if h == [] then [] else AllEffects(cfg, h[..|h| - 1]) + EffectsOf(cfg, h[..|h| - 1], h[|h| - 1])
  }

  lemma CallsSnoc(h: History, a: Arrival)
    ensures RateCalls(h + [a]) == RateCalls(h) + [RateLimit.Call(IngestKey(a.tenantId), a.rateNow)]
    ensures RateCalls(h + [a])[..|h|] == RateCalls(h)
  {
  }

  lemma BucketSnoc(cfg: Settings, h: History, a: Arrival, slug: string)
    ensures BucketOf(cfg, h + [a], slug)
         == if a.tenantId == slug then RateLimit.MemoryStep(BucketOf(cfg, h, slug), a.rateNow, cfg.rateLimit).0
            else BucketOf(cfg, h, slug)
  {
    CallsSnoc(h, a);
    IngestKeysDiffer(a.tenantId, slug);
  }

  lemma IngestKeysDiffer(a: string, b: string)
    ensures IngestKey(a) == IngestKey(b) <==> a == b
  {
    assert IngestKey(a)[7..] == a && IngestKey(b)[7..] == b;
  }

  lemma PrefixOfSnoc(h: History, a: Arrival)
    ensures (h + [a])[..|h|] == h
  {
  }

  /** The limiter holds what the history calls for under every tenant's key. */
  ghost predicate Buckets(cfg: Settings, h: History, requests: map<string, seq<real>>) {
    forall slug :: RateLimit.Bucket(requests, IngestKey(slug)) == BucketOf(cfg, h, slug)
  }

  lemma BucketsAdvance(cfg: Settings, h: History, a: Arrival, before: map<string, seq<real>>, after: map<string, seq<real>>)
    requires Buckets(cfg, h, before)
    requires RateLimit.Bucket(after, IngestKey(a.tenantId))
          == RateLimit.MemoryStep(RateLimit.Bucket(before, IngestKey(a.tenantId)), a.rateNow, cfg.rateLimit).0
    requires forall k :: k != IngestKey(a.tenantId) ==> RateLimit.Bucket(after, k) == RateLimit.Bucket(before, k)
    ensures Buckets(cfg, h + [a], after)
  {
    forall slug
      ensures RateLimit.Bucket(after, IngestKey(slug)) == BucketOf(cfg, h + [a], slug)
    {
      BucketSnoc(cfg, h, a, slug);
      IngestKeysDiffer(slug, a.tenantId);
      assert RateLimit.Bucket(before, IngestKey(slug)) == BucketOf(cfg, h, slug);
    }
  }

  // ----- the gate as it runs

  class IngestionGate {
    const limiter: RateLimit.RateLimiter
    const store: Dedup.DedupStore
    var log: seq<Record>
    var effects: seq<Effect>

    constructor ()
      ensures forall cfg :: Holds(cfg, [])
      ensures fresh(limiter) && fresh(store)
    {
      limiter := new RateLimit.RateLimiter();
      store := new Dedup.DedupStore();
      log, effects := [], [];
    }

    /** The state is what the history calls for. Other users of the limiter keep their own keys. */
    ghost predicate Holds(cfg: Settings, h: History)
      reads this, limiter, store
    {
      && Buckets(cfg, h, limiter.requests)
      && store.lastSeen == Dedup.MemoryAfter(Seen(cfg, h))
      && log == LogOf(cfg, h)
      && effects == AllEffects(cfg, h)
    }

    method LogRawEvent(tenantId: string, alert: Alert, result: Result)
      modifies this`log
      ensures log == old(log) + [Record(tenantId, alert, result)]
    {
      log := log + [Record(tenantId, alert, result)];
    }

    /** Everything after the two counters: correlation, floor, semantic tier, promotion. */
    method Dispatch(cfg: Settings, a: Arrival) returns (r: Result)
      modifies this
      ensures r == Decide(cfg, a, None, false)
      ensures effects == old(effects) + Effects(cfg, a, None, false)
      ensures log == old(log) + [Record(a.tenantId, a.alert, r)]
    {
      if a.free.Some? {
        effects := effects + [Merge(a.free.value.threadId, a.alert, EMPTY_USAGE)];
        r := Joined(a.free.value.threadId, a.free.value.matchType, a.returned);
        LogRawEvent(a.tenantId, a.alert, r);
        return;
      }
      if SeverityRank(a.alert.severity) < cfg.minRank {
        r := SuppressedLowSeverity(a.alert.severity);
        LogRawEvent(a.tenantId, a.alert, r);
        return;
      }
      var m, usage := FindSemanticCorrelation(cfg, a.candidates, a.judge);
      if m.Some? {
        effects := effects + [Merge(m.value.threadId, a.alert, usage)];
        r := Joined(m.value.threadId, "semantic", a.returned);
        LogRawEvent(a.tenantId, a.alert, r);
        return;
      }
      effects := effects + [NewIncident(a.alert, if usage.total != 0 then Some(usage) else None)];
      r := Started(a.returned);
      LogRawEvent(a.tenantId, a.alert, r);
    }

    /** `ingest_normalized_alert`: the answer, the log, the calls into the pipeline and both counters are what the
        history up to and including the alert calls for. */
    method IngestNormalizedAlert(space: char -> bool, cfg: Settings, arrival: Arrival, ghost h: History) returns (r: Result)
      requires Holds(cfg, h)
      modifies this, limiter, store
      ensures r == ResultOf(cfg, h, Sanitized(space, arrival))
      ensures Holds(cfg, h + [Sanitized(space, arrival)])
    {
      r := IngestSanitized(cfg, Sanitized(space, arrival), h);
    }

    method IngestSanitized(cfg: Settings, a: Arrival, ghost h: History) returns (r: Result)
      requires Holds(cfg, h)
      modifies this, limiter, store
      ensures r == ResultOf(cfg, h, a)
      ensures Holds(cfg, h + [a])
    {
      ghost var before := limiter.requests;
      var retryAfter := limiter.CheckRateLimit(IngestKey(a.tenantId), a.rateNow, cfg.rateLimit);
      assert retryAfter == Limited(cfg, h, a);
      BucketsAdvance(cfg, h, a, before, limiter.requests);
      PrefixOfSnoc(h, a);
      if retryAfter.Some? {
        r := RateLimited(retryAfter.value);
        LogRawEvent(a.tenantId, a.alert, r);
        return;
      }
      SeenSnoc(Seen(cfg, h), Sighting(cfg, a));
      var duplicate := store.IsDuplicate(Sighting(cfg, a));
      if duplicate {
        r := Deduped(a.alert.dedupKey);
        LogRawEvent(a.tenantId, a.alert, r);
        return;
      }
      r := Dispatch(cfg, a);
    }
  }

  lemma SeenSnoc(seen: seq<Dedup.Sighting>, s: Dedup.Sighting)
    ensures Dedup.MemoryAfter(seen + [s]) == Dedup.MemoryAfter(seen)[(s.tenantId, s.dedupKey) := s.now]
  {
    assert (seen + [s])[..|seen|] == seen;
  }
}
