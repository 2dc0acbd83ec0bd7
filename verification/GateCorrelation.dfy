/** The gate on top of the tiers it calls: what its arrivals carry, computed from the incident index
    (ingestion/pipeline.py over ingestion/correlation.py and ingestion/identity_correlation.py). */
module GateCorrelation {
  import opened Wrappers
  import opened Alerts
  import opened IsoTime
  import opened Subnet
  import C = CorrelationTiers
  import G = Gate
  import I = IdentityCorrelation

  /** One read of the index: the rows that came back and the clock read after it. */
  datatype Query = Query(rows: seq<Candidate>, now: int)

  /** Each tier asks the index anew. */
  datatype Env = Env(world: C.World, prefixes: Prefixes, fuzzyEnabled: bool, resolve: string -> Option<string>,
                     isDomain: string -> bool, lookup: string -> set<string>, dnsEnabled: bool, lookupLimit: int,
                     window: int, free: Query, identity: Query, semantic: Query)

  function PoolOf(e: Env, q: Query): seq<Candidate> {
    C.Pool(q.rows, q.now, e.window)
  }

  /** The identity tier's answer on its pool: asset identity first, then domain identity within the budget. */
  ghost predicate IdentityAnswer(e: Env, alert: Alert, m: Option<I.IdentityMatch>) {
    var pool := PoolOf(e, e.identity);
    if I.NoAssetBefore(e.resolve, Unique(alert.affectedAssets), pool, |pool|, 0) then
      m == if e.dnsEnabled then
             I.Budgeted(e.lookup, I.OfClass(e.isDomain, Unique(alert.iocs)), I.Flat(pool, I.CandidateDomains(e.isDomain)), e.lookupLimit)
           else None
    else m.Some? && I.IsAssetMatch(e.resolve, Unique(alert.affectedAssets), pool, m)
  }

  function AsCorrelation(m: Option<I.IdentityMatch>): Option<Correlation> {
    if m == None then None else Some(Correlation(m.value.threadId, m.value.matchType))
  }

  ghost predicate BestFree(e: Env, alert: Alert, m: Option<Correlation>) {
    C.BestMatch(m, PoolOf(e, e.free), e.fuzzyEnabled, C.ExactTier(alert), C.FuzzyTier(e.world, e.prefixes, alert))
  }

  /** `find_correlated_incident(...) or find_identity_correlation(...)`. */
  ghost predicate FreeAnswer(e: Env, alert: Alert, free: Option<Correlation>) {
    || (free.Some? && BestFree(e, alert, free))
    || (BestFree(e, alert, None) && exists m :: IdentityAnswer(e, alert, m) && free == AsCorrelation(m))
  }

  method FindFree(e: Env, dns: I.PassiveDns, alert: Alert) returns (free: Option<Correlation>)
    requires dns.answers == e.lookup
    modifies dns
    ensures FreeAnswer(e, alert, free)
  {
    free := C.FindCorrelatedIncident(e.world, e.prefixes, e.fuzzyEnabled, alert, PoolOf(e, e.free));
    if free == None {
      var m := I.FindIdentityCorrelation(e.resolve, e.isDomain, dns, e.dnsEnabled, e.lookupLimit, alert, PoolOf(e, e.identity));
      assert IdentityAnswer(e, alert, m);
      free := AsCorrelation(m);
    }
  }

  function Threads(pool: seq<Candidate>): (r: seq<string>)
    ensures |r| == |pool| && forall i :: 0 <= i < |r| ==> r[i] == pool[i].threadId
  {
    seq(|pool|, i requires 0 <= i < |pool| => pool[i].threadId)
  }

  /** The arrival carries what the tiers computed for it. */
  ghost predicate Computed(e: Env, a: G.Arrival) {
    FreeAnswer(e, a.alert, a.free) && a.candidates == Threads(PoolOf(e, e.semantic))
  }

  /** Every query returned the newest open rows of the one index. */
  ghost predicate Reads(e: Env, table: seq<Candidate>) {
    && C.ValidRows(table) && e.window > 0
    && C.NewestFirst(C.OpenRows(table), e.free.rows, C.POOL_LIMIT)
    && C.NewestFirst(C.OpenRows(table), e.identity.rows, C.POOL_LIMIT)
    && C.NewestFirst(C.OpenRows(table), e.semantic.rows, C.POOL_LIMIT)
  }

  /** An open incident of the index that lay in the window at the time of the query. */
  predicate Recent(table: seq<Candidate>, e: Env, q: Query, c: Candidate) {
    c in table && C.Open(c.status) && Valid(c.updatedAt) && C.WithinWindow(q.now, e.window, c)
  }

  ghost predicate NamesRecent(table: seq<Candidate>, e: Env, q: Query, threadId: string) {
    exists c :: Recent(table, e, q, c) && c.threadId == threadId
  }

  lemma PoolIsRecent(table: seq<Candidate>, e: Env, q: Query, c: Candidate)
    requires C.NewestFirst(C.OpenRows(table), q.rows, C.POOL_LIMIT) && c in PoolOf(e, q)
    ensures Recent(table, e, q, c)
  {
    assert c in multiset(q.rows);
    assert c in multiset(C.OpenRows(table));
  }

  lemma DomainMatchNamesCandidate(e: Env, alert: Alert, m: I.IdentityMatch)
    requires I.Budgeted(e.lookup, I.OfClass(e.isDomain, Unique(alert.iocs)),
                        I.Flat(PoolOf(e, e.identity), I.CandidateDomains(e.isDomain)), e.lookupLimit) == Some(m)
    ensures Names(PoolOf(e, e.identity), m.threadId)
  {
    var flat := I.Flat(PoolOf(e, e.identity), I.CandidateDomains(e.isDomain));
    var k := I.FirstHit(e.lookup, I.OfClass(e.isDomain, Unique(alert.iocs)), flat).value;
    I.FlatNames(PoolOf(e, e.identity), I.CandidateDomains(e.isDomain), k);
  }

  predicate Names(pool: seq<Candidate>, threadId: string) {
    exists c :: c in pool && c.threadId == threadId
  }

  lemma AssetMatchNamesCandidate(resolve: string -> Option<string>, assets: seq<string>, pool: seq<Candidate>, m: I.IdentityMatch)
    requires I.IsAssetMatch(resolve, assets, pool, Some(m))
    ensures Names(pool, m.threadId)
  {
    var i: nat, j: nat :| i < |pool| && j < |pool[i].affectedAssets| && I.NoAssetBefore(resolve, assets, pool, i, j)
      && I.SameAsset(resolve, assets, pool[i].affectedAssets[j]) == Some(m.alertName)
      && m == I.IdentityMatch(pool[i].threadId, "identity_asset", m.alertName, pool[i].affectedAssets[j]);
    assert pool[i] in pool;
  }

  lemma IdentityNamesCandidate(e: Env, alert: Alert, m: I.IdentityMatch)
    requires IdentityAnswer(e, alert, Some(m))
    ensures Names(PoolOf(e, e.identity), m.threadId)
  {
    var pool, assets := PoolOf(e, e.identity), Unique(alert.affectedAssets);
    if I.NoAssetBefore(e.resolve, assets, pool, |pool|, 0) {
      DomainMatchNamesCandidate(e, alert, m);
    } else {
      AssetMatchNamesCandidate(e.resolve, assets, pool, m);
    }
  }

  lemma BestFreeNamesCandidate(e: Env, alert: Alert, m: Correlation)
    requires BestFree(e, alert, Some(m))
    ensures Names(PoolOf(e, e.free), m.threadId)
  {
    var pool, exact, fuzzy := PoolOf(e, e.free), C.ExactTier(alert), C.FuzzyTier(e.world, e.prefixes, alert);
    assert C.IsFirstMatch(Some(m), pool, exact) || C.IsFirstMatch(Some(m), pool, fuzzy);
    var i :| 0 <= i < |pool| && pool[i].threadId == m.threadId;
    assert pool[i] in pool;
  }

  lemma NamedIsRecent(table: seq<Candidate>, e: Env, q: Query, threadId: string)
    requires C.NewestFirst(C.OpenRows(table), q.rows, C.POOL_LIMIT) && Names(PoolOf(e, q), threadId)
    ensures NamesRecent(table, e, q, threadId)
  {
    var c :| c in PoolOf(e, q) && c.threadId == threadId;
    PoolIsRecent(table, e, q, c);
  }

  /** The tier that answered has the match in its pool. */
  lemma FreeNamesCandidate(e: Env, alert: Alert, free: Correlation)
    requires FreeAnswer(e, alert, Some(free))
    ensures Names(PoolOf(e, e.free), free.threadId) || Names(PoolOf(e, e.identity), free.threadId)
  {
    if BestFree(e, alert, Some(free)) {
      BestFreeNamesCandidate(e, alert, free);
    } else {
      var m :| IdentityAnswer(e, alert, m) && Some(free) == AsCorrelation(m);
      IdentityNamesCandidate(e, alert, m.value);
    }
  }

  /** The incident was open and in the window when one of the tiers looked. */
  ghost predicate NamesOpen(table: seq<Candidate>, e: Env, threadId: string) {
    || NamesRecent(table, e, e.free, threadId)
    || NamesRecent(table, e, e.identity, threadId)
    || NamesRecent(table, e, e.semantic, threadId)
  }

  ghost predicate NamesAny(e: Env, threadId: string) {
    Names(PoolOf(e, e.free), threadId) || Names(PoolOf(e, e.identity), threadId) || Names(PoolOf(e, e.semantic), threadId)
  }

  lemma AnyNamedIsOpen(table: seq<Candidate>, e: Env, threadId: string)
    requires Reads(e, table) && NamesAny(e, threadId)
    ensures NamesOpen(table, e, threadId)
  {
    if Names(PoolOf(e, e.free), threadId) {
      NamedIsRecent(table, e, e.free, threadId);
    } else if Names(PoolOf(e, e.identity), threadId) {
      NamedIsRecent(table, e, e.identity, threadId);
    } else {
      NamedIsRecent(table, e, e.semantic, threadId);
    }
  }

  lemma MergeNamesCandidate(e: Env, cfg: G.Settings, a: G.Arrival, retryAfter: Option<real>, duplicate: bool, effect: G.Effect)
    requires Computed(e, a) && effect in G.Effects(cfg, a, retryAfter, duplicate) && effect.Merge?
    ensures NamesAny(e, effect.threadId)
  {
    if a.free.Some? {
      FreeNamesCandidate(e, a.alert, a.free.value);
    } else {
      var threads, pool := Threads(PoolOf(e, e.semantic)), PoolOf(e, e.semantic);
      assert effect.threadId in G.Pool(cfg, threads);
      var i :| 0 <= i < |threads| && threads[i] == effect.threadId;
      assert pool[i] in pool;
    }
  }

  /** Every merge the gate asks for, by whatever tier, names an open incident of the index that was in the window when
      one of the tiers looked. */
  lemma MergesAreOpen(table: seq<Candidate>, e: Env, cfg: G.Settings, h: G.History, a: G.Arrival, effect: G.Effect)
    requires Reads(e, table) && Computed(e, a) && effect in G.EffectsOf(cfg, h, a) && effect.Merge?
    ensures NamesOpen(table, e, effect.threadId)
  {
    MergeNamesCandidate(e, cfg, a, G.Limited(cfg, h, a), G.Duplicate(cfg, h, a), effect);
    AnyNamedIsOpen(table, e, effect.threadId);
  }

  ghost predicate IsUnrelated(table: seq<Candidate>, e: Env, alert: Alert) {
    && (forall c :: Recent(table, e, e.free, c) ==>
          && !Share(alert.iocs, c.iocs) && !Share(alert.affectedAssets, c.affectedAssets)
          && (e.fuzzyEnabled ==> C.FuzzyType(e.world, e.prefixes, alert.iocs, c) == None))
    && (forall c, n :: Recent(table, e, e.identity, c) && n in c.affectedAssets ==>
          I.SameAsset(e.resolve, Unique(alert.affectedAssets), n) == None)
    && (e.dnsEnabled && e.lookupLimit >= DomainLookups(e, alert) ==>
          forall c :: Recent(table, e, e.identity, c) ==> !I.Related(e.isDomain, e.lookup, Unique(alert.iocs), c))
  }

  /** What the passive-DNS search costs if it finds nothing: every domain of the alert and of the pool, repeats included. */
  function DomainLookups(e: Env, alert: Alert): nat {
    |I.OfClass(e.isDomain, Unique(alert.iocs))| + |I.Flat(PoolOf(e, e.identity), I.CandidateDomains(e.isDomain))|
  }

  /** A new incident is only started for an alert that is related to nothing open: with at most 1000 open incidents, no
      open incident of the window shares an IOC or an asset with it, nor, with the fuzzy tier on, a subnet or a
      registered domain; no name of the identity pool is one of its assets under another name; and if the lookup budget
      covers the pool, no domain of the pool has resolved to an address of one of its domains. */
  lemma PromotedIsUnrelated(table: seq<Candidate>, e: Env, cfg: G.Settings, h: G.History, a: G.Arrival)
    requires Reads(e, table) && Computed(e, a) && |C.OpenRows(table)| <= C.POOL_LIMIT
    requires G.ResultOf(cfg, h, a).Promoted?
    ensures IsUnrelated(table, e, a.alert)
  {
    assert a.free == None;
    Unrelated(table, e, a.alert);
  }

  lemma RecentIsPooled(table: seq<Candidate>, e: Env, q: Query, c: Candidate)
    requires C.ValidRows(table) && e.window > 0 && |C.OpenRows(table)| <= C.POOL_LIMIT
    requires C.NewestFirst(C.OpenRows(table), q.rows, C.POOL_LIMIT) && Recent(table, e, q, c)
    ensures c in PoolOf(e, q)
  {
    C.PoolIsComplete(table, q.rows, q.now, e.window);
  }

  lemma Unrelated(table: seq<Candidate>, e: Env, alert: Alert)
    requires Reads(e, table) && FreeAnswer(e, alert, None) && |C.OpenRows(table)| <= C.POOL_LIMIT
    ensures IsUnrelated(table, e, alert)
  {
    forall c | Recent(table, e, e.free, c)
      ensures !Share(alert.iocs, c.iocs) && !Share(alert.affectedAssets, c.affectedAssets)
      ensures e.fuzzyEnabled ==> C.FuzzyType(e.world, e.prefixes, alert.iocs, c) == None
    {
      RecentIsPooled(table, e, e.free, c);
      NothingBest(e, alert, c);
    }
    forall c, n | Recent(table, e, e.identity, c) && n in c.affectedAssets
      ensures I.SameAsset(e.resolve, Unique(alert.affectedAssets), n) == None
    {
      RecentIsPooled(table, e, e.identity, c);
      NoIdentity(e, alert, c, n);
    }
    if e.dnsEnabled && e.lookupLimit >= DomainLookups(e, alert) {
      forall c | Recent(table, e, e.identity, c)
        ensures !I.Related(e.isDomain, e.lookup, Unique(alert.iocs), c)
      {
        RecentIsPooled(table, e, e.identity, c);
        NoDomain(e, alert, c);
      }
    }
  }

  lemma NoDomain(e: Env, alert: Alert, c: Candidate)
    requires FreeAnswer(e, alert, None) && c in PoolOf(e, e.identity)
    requires e.dnsEnabled && e.lookupLimit >= DomainLookups(e, alert)
    ensures !I.Related(e.isDomain, e.lookup, Unique(alert.iocs), c)
  {
    assert IdentityAnswer(e, alert, None);
    I.DomainMatchExactly(e.isDomain, e.lookup, Unique(alert.iocs), PoolOf(e, e.identity), e.lookupLimit);
  }

  lemma NothingBest(e: Env, alert: Alert, c: Candidate)
    requires FreeAnswer(e, alert, None) && c in PoolOf(e, e.free)
    ensures C.ExactType(alert.iocs, alert.affectedAssets, c) == None
    ensures e.fuzzyEnabled ==> C.FuzzyType(e.world, e.prefixes, alert.iocs, c) == None
  {
    var pool := PoolOf(e, e.free);
    var i :| 0 <= i < |pool| && pool[i] == c;
    assert BestFree(e, alert, None);
    assert C.ExactTier(alert)(pool[i]) == None;
    assert e.fuzzyEnabled ==> C.FuzzyTier(e.world, e.prefixes, alert)(pool[i]) == None;
  }

  lemma NoIdentity(e: Env, alert: Alert, c: Candidate, name: string)
    requires FreeAnswer(e, alert, None) && c in PoolOf(e, e.identity) && name in c.affectedAssets
    ensures I.SameAsset(e.resolve, Unique(alert.affectedAssets), name) == None
  {
    var pool := PoolOf(e, e.identity);
    assert pool[..|pool|] == pool;
    assert I.NoAssetBefore(e.resolve, Unique(alert.affectedAssets), pool, |pool|, 0);
  }
}
