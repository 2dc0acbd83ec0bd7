/** The free correlation tiers and their candidate pool (ingestion/correlation.py, over
    `list_open_incidents` of utils/incident_index.py).

    The indicator classifier, the address parser and the public-suffix lookup are arbitrary functions. */
module CorrelationTiers {
  import opened Wrappers
  import opened Strings
  import opened Alerts
  import opened IsoTime
  import opened Subnet

  datatype Kind = Ip | Domain | OtherKind

  /** The outside world as the fuzzy tier sees it. */
  datatype World = World(classify: string -> Kind, parse: string -> Option<Address>, registered: string -> string)

  // ----- the exact tier

  /** How a candidate matches exactly: a shared IOC is reported before a shared asset. */
  function ExactType(iocs: seq<string>, assets: seq<string>, c: Candidate): Option<string> {
    if Share(iocs, c.iocs) then Some("exact_ioc")
    else if Share(assets, c.affectedAssets) then Some("exact_asset")
    else None
  }

  method FirstExactMatch(iocs: seq<string>, assets: seq<string>, candidates: seq<Candidate>) returns (m: Option<Correlation>)
    ensures IsFirstMatch(m, candidates, c => ExactType(iocs, assets, c))
  {
    var iocSet, assetSet := set x | x in iocs, set x | x in assets;
    for i := 0 to |candidates|
      invariant forall j :: 0 <= j < i ==> ExactType(iocs, assets, candidates[j]) == None
    {
      var c := candidates[i];
      var sharedIocs := iocSet * (set x | x in c.iocs);
      if sharedIocs != {} {
        var x :| x in sharedIocs;
        assert x in iocs && x in c.iocs;
        return Some(Correlation(c.threadId, "exact_ioc"));
      }
      assert forall x :: x in iocs && x in c.iocs ==> x in sharedIocs;
      var sharedAssets := assetSet * (set x | x in c.affectedAssets);
      if sharedAssets != {} {
        var x :| x in sharedAssets;
        assert x in assets && x in c.affectedAssets;
        return Some(Correlation(c.threadId, "exact_asset"));
      }
      assert forall x :: x in assets && x in c.affectedAssets ==> x in sharedAssets;
    }
    return None;
  }

  /** `m` is the first candidate, in pool order, to which a tier gives a type; None only if none has one. */
  ghost predicate IsFirstMatch(m: Option<Correlation>, candidates: seq<Candidate>, tier: Candidate -> Option<string>) {
    match m
    case None => forall j :: 0 <= j < |candidates| ==> tier(candidates[j]) == None
    case Some(found) => exists i ::
      && 0 <= i < |candidates|
      && tier(candidates[i]) == Some(found.matchType) && candidates[i].threadId == found.threadId
      && forall j :: 0 <= j < i ==> tier(candidates[j]) == None
  }

  // ----- the fuzzy tier

  predicate SubnetHit(w: World, p: Prefixes, a: string, c: string) {
    NetworkFor(w.parse, a, p) != None && NetworkFor(w.parse, c, p) == NetworkFor(w.parse, a, p)
  }

  /** Some pair of addresses falls in one network. */
  predicate SharesSubnet(w: World, p: Prefixes, iocs: seq<string>, c: Candidate) {
    exists a, b :: a in iocs && b in c.iocs && w.classify(a) == Ip && w.classify(b) == Ip && SubnetHit(w, p, a, b)
  }

  /** Some pair of domains has one registered domain. */
  predicate SharesDomain(w: World, iocs: seq<string>, c: Candidate) {
    exists a, b :: a in iocs && b in c.iocs && w.classify(a) == Domain && w.classify(b) == Domain
                && w.registered(a) == w.registered(b)
  }

  function FuzzyType(w: World, p: Prefixes, iocs: seq<string>, c: Candidate): Option<string> {
    if SharesSubnet(w, p, iocs, c) then Some("subnet")
    else if SharesDomain(w, iocs, c) then Some("domain_family")
    else None
  }

  function OfKind(w: World, k: Kind, xs: seq<string>): (r: seq<string>)
    ensures forall x :: x in r <==> x in xs && w.classify(x) == k
  {
    if xs == [] then []
    else
      var rest := OfKind(w, k, xs[..|xs| - 1]);
      var last := xs[|xs| - 1];
      assert forall x :: x in xs <==> x in xs[..|xs| - 1] || x == last;
      if w.classify(last) == k then rest + [last] else rest
  }

  method SubnetMatches(w: World, p: Prefixes, alertIps: seq<string>, candidateIps: seq<string>) returns (hit: bool)
    ensures hit <==> exists a, b :: a in alertIps && b in candidateIps && SubnetHit(w, p, a, b)
  {
    for i := 0 to |alertIps|
      invariant forall a, b :: a in alertIps[..i] && b in candidateIps ==> !SubnetHit(w, p, a, b)
    {
      var net := NetworkFor(w.parse, alertIps[i], p);
      assert alertIps[..i + 1] == alertIps[..i] + [alertIps[i]];
      if net != None {
        for j := 0 to |candidateIps|
          invariant forall b :: b in candidateIps[..j] ==> !SubnetHit(w, p, alertIps[i], b)
        {
          assert candidateIps[..j + 1] == candidateIps[..j] + [candidateIps[j]];
          if NetworkFor(w.parse, candidateIps[j], p) == net {
            assert SubnetHit(w, p, alertIps[i], candidateIps[j]);
            return true;
          }
        }
        assert candidateIps[..|candidateIps|] == candidateIps;
      }
    }
    assert alertIps[..|alertIps|] == alertIps;
    return false;
  }

  method DomainMatches(w: World, alertDomains: seq<string>, candidateDomains: seq<string>) returns (hit: bool)
    ensures hit <==> exists a, b :: a in alertDomains && b in candidateDomains && w.registered(a) == w.registered(b)
  {
    for i := 0 to |alertDomains|
      invariant forall a, b :: a in alertDomains[..i] && b in candidateDomains ==> w.registered(a) != w.registered(b)
    {
      var reg := w.registered(alertDomains[i]);
      assert alertDomains[..i + 1] == alertDomains[..i] + [alertDomains[i]];
      for j := 0 to |candidateDomains|
        invariant forall b :: b in candidateDomains[..j] ==> reg != w.registered(b)
      {
        assert candidateDomains[..j + 1] == candidateDomains[..j] + [candidateDomains[j]];
        if w.registered(candidateDomains[j]) == reg {
          return true;
        }
      }
      assert candidateDomains[..|candidateDomains|] == candidateDomains;
    }
    assert alertDomains[..|alertDomains|] == alertDomains;
    return false;
  }

  method FirstFuzzyMatch(w: World, p: Prefixes, iocs: seq<string>, candidates: seq<Candidate>) returns (m: Option<Correlation>)
    ensures IsFirstMatch(m, candidates, c => FuzzyType(w, p, iocs, c))
  {
    var alertIps, alertDomains := OfKind(w, Ip, iocs), OfKind(w, Domain, iocs);
    if alertIps == [] && alertDomains == [] {
      assert forall x :: x in iocs ==> w.classify(x) != Ip && w.classify(x) != Domain by {
        forall x | x in iocs
          ensures w.classify(x) != Ip && w.classify(x) != Domain
        {
          assert x !in alertIps && x !in alertDomains;
        }
      }
      return None;
    }
    for i := 0 to |candidates|
      invariant forall j :: 0 <= j < i ==> FuzzyType(w, p, iocs, candidates[j]) == None
    {
      var c := candidates[i];
      var bySubnet := SubnetMatches(w, p, alertIps, OfKind(w, Ip, c.iocs));
      assert bySubnet <==> SharesSubnet(w, p, iocs, c);
      if bySubnet {
        return Some(Correlation(c.threadId, "subnet"));
      }
      var byDomain := DomainMatches(w, alertDomains, OfKind(w, Domain, c.iocs));
      assert byDomain <==> SharesDomain(w, iocs, c);
      if byDomain {
        return Some(Correlation(c.threadId, "domain_family"));
      }
    }
    return None;
  }

  // ----- when the tiers match, in the terms of indicators

  function Least(a: int, b: int): int {
    if a <= b then a else b
  }

  function Greatest(a: int, b: int): int {
    if a <= b then b else a
  }

  /** The two addresses agree in their first `bits` bits. */
  predicate SameLeadingBits(a: nat, b: nat, width: nat, bits: int)
    requires bits <= width
  {
    a / Pow2(width - bits) == b / Pow2(width - bits)
  }

  /** Both texts are addresses of one family that agree in as many leading bits as are configured for that family. */
  predicate SameSubnet(w: World, p: Prefixes, s: string, t: string) {
    match (w.parse(s), w.parse(t))
    case (Some(V4(a)), Some(V4(b))) => SameLeadingBits(a, b, 32, Least(Greatest(p.bitsV4, 1), 32))
    case (Some(V6(a)), Some(V6(b))) => SameLeadingBits(a, b, 128, Least(Greatest(p.bitsV6, 1), 128))
    case _ => false
  }

  /** What the matcher compares are those leading bits. */
  lemma SubnetHitExactly(w: World, p: Prefixes, s: string, t: string)
    ensures SubnetHit(w, p, s, t) <==> SameSubnet(w, p, s, t)
  {
    if w.parse(s).Some? && w.parse(t).Some? {
      SameNetworkIsSameQuotient(w.parse(s).value, w.parse(t).value, p);
    }
  }

  ghost predicate SubnetPair(w: World, p: Prefixes, iocs: seq<string>, c: Candidate) {
    exists a, b :: a in iocs && b in c.iocs && w.classify(a) == Ip && w.classify(b) == Ip && SameSubnet(w, p, a, b)
  }

  ghost predicate DomainPair(w: World, iocs: seq<string>, c: Candidate) {
    exists a, b :: a in iocs && b in c.iocs && w.classify(a) == Domain && w.classify(b) == Domain && w.registered(a) == w.registered(b)
  }

  /** A candidate matches by subnet exactly if some pair of address indicators agrees so, and else by domain family exactly
      if some pair of domain indicators has one registered domain. */
  lemma FuzzyTypeExactly(w: World, p: Prefixes, iocs: seq<string>, c: Candidate)
    ensures FuzzyType(w, p, iocs, c) ==
      if SubnetPair(w, p, iocs, c) then Some("subnet") else if DomainPair(w, iocs, c) then Some("domain_family") else None
  {
    forall a, b
      ensures SubnetHit(w, p, a, b) <==> SameSubnet(w, p, a, b)
    {
      SubnetHitExactly(w, p, a, b);
    }
  }

  /** A candidate matches exactly if it lists an indicator of the alert, and else if it lists one of its assets. */
  lemma ExactTypeExactly(iocs: seq<string>, assets: seq<string>, c: Candidate)
    ensures ExactType(iocs, assets, c) ==
      if exists x :: x in iocs && x in c.iocs then Some("exact_ioc")
      else if exists x :: x in assets && x in c.affectedAssets then Some("exact_asset")
      else None
  {
  }

  // ----- both tiers

  /** The first match by (tier, recency): the exact tier decides whenever any candidate matches
      exactly, the fuzzy one only when none does and it is enabled. */
  ghost predicate BestMatch(m: Option<Correlation>, candidates: seq<Candidate>, fuzzyEnabled: bool,
                            exact: Candidate -> Option<string>, fuzzy: Candidate -> Option<string>) {
    if exists i :: 0 <= i < |candidates| && exact(candidates[i]) != None then
      m != None && IsFirstMatch(m, candidates, exact)
    else if fuzzyEnabled then IsFirstMatch(m, candidates, fuzzy)
    else m == None
  }

  function ExactTier(alert: Alert): Candidate -> Option<string> {
    c => ExactType(alert.iocs, alert.affectedAssets, c)
  }

  function FuzzyTier(w: World, p: Prefixes, alert: Alert): Candidate -> Option<string> {
    c => FuzzyType(w, p, alert.iocs, c)
  }

  method FindCorrelatedIncident(w: World, p: Prefixes, fuzzyEnabled: bool, alert: Alert, candidates: seq<Candidate>)
      returns (m: Option<Correlation>)
    ensures BestMatch(m, candidates, fuzzyEnabled, ExactTier(alert), FuzzyTier(w, p, alert))
  {
    var iocs, assets := Unique(alert.iocs), Unique(alert.affectedAssets);
    assert forall c: Candidate :: ExactType(iocs, assets, c) == ExactType(alert.iocs, alert.affectedAssets, c);
    assert forall c: Candidate :: FuzzyType(w, p, iocs, c) == FuzzyType(w, p, alert.iocs, c);
    if iocs == [] && assets == [] {
      return None;
    }
    if candidates == [] {
      return None;
    }
    var exact := FirstExactMatch(iocs, assets, candidates);
    if exact != None {
      return exact;
    }
    if !fuzzyEnabled {
      return None;
    }
    m := FirstFuzzyMatch(w, p, iocs, candidates);
  }

  // ----- the candidate pool

  const POOL_LIMIT := 1000

  predicate Open(status: string) {
    status == "open" || status == "investigating" || status == "pending_approval"
  }

  function Filter(xs: seq<Candidate>, keep: Candidate -> bool): (r: seq<Candidate>)
    ensures forall x :: x in r <==> x in xs && keep(x)
  {
    if xs == [] then []
    else
      var rest := Filter(xs[..|xs| - 1], keep);
      var last := xs[|xs| - 1];
      assert forall x :: x in xs <==> x in xs[..|xs| - 1] || x == last;
      if keep(last) then rest + [last] else rest
  }

  /** `ORDER BY updated_at DESC LIMIT n` over text timestamps; the order of equal texts is the database's. */
  ghost predicate NewestFirst(rows: seq<Candidate>, out: seq<Candidate>, n: nat) {
    && multiset(out) <= multiset(rows)
    && |out| == (if |rows| < n then |rows| else n)
    && (forall i, j :: 0 <= i < j < |out| ==> !LexLess(Iso(out[i].updatedAt), Iso(out[j].updatedAt)))
    && (forall r, o :: r in multiset(rows) - multiset(out) && o in out ==> !LexLess(Iso(o.updatedAt), Iso(r.updatedAt)))
  }

  predicate WithinWindow(now: int, window: int, c: Candidate)
    requires Valid(c.updatedAt)
  {
    now - Micros(c.updatedAt) <= window
  }

  ghost predicate ValidRows(rows: seq<Candidate>) {
    forall r :: r in rows ==> Valid(r.updatedAt)
  }

  /** `recent_open_candidates`, given what the query returned; `now` and `window` in microseconds. */
  function Pool(out: seq<Candidate>, now: int, window: int): seq<Candidate> {
    if window <= 0 then []
    else Filter(out, (c: Candidate) => Valid(c.updatedAt) && WithinWindow(now, window, c))
  }

  /** A window of zero or less turns correlation off, also for rows stamped in the future. */
  lemma NoWindowNoPool(out: seq<Candidate>, now: int, window: int)
    requires window <= 0
    ensures Pool(out, now, window) == []
  {
  }

  lemma KeptIsNewer(rows: seq<Candidate>, out: seq<Candidate>, r: Candidate, o: Candidate)
    requires ValidRows(rows) && NewestFirst(rows, out, POOL_LIMIT)
    requires r in rows && r !in out && o in out
    ensures Valid(o.updatedAt) && Valid(r.updatedAt) && Micros(r.updatedAt) <= Micros(o.updatedAt)
  {
    assert o in multiset(out) && o in multiset(rows);
    assert r in multiset(rows) - multiset(out);
    TextOrderIsTimeOrder(o.updatedAt, r.updatedAt);
  }

  lemma {:induction false} FilterAll(xs: seq<Candidate>, keep: Candidate -> bool)
    requires forall x :: x in xs ==> keep(x)
    ensures Filter(xs, keep) == xs
  {
    if xs != [] {
      FilterAll(xs[..|xs| - 1], keep);
      assert xs == xs[..|xs| - 1] + [xs[|xs| - 1]];
    }
  }

  /** The cap only ever costs the oldest: the pool holds every open incident of the window, unless it is
      full with 1000 incidents of the window, each at least as recent as every one it lacks. */
  lemma PoolKeepsNewest(rows: seq<Candidate>, out: seq<Candidate>, now: int, window: int, r: Candidate)
    requires ValidRows(rows) && NewestFirst(rows, out, POOL_LIMIT) && window > 0
    requires r in rows && WithinWindow(now, window, r) && r !in Pool(out, now, window)
    ensures |Pool(out, now, window)| == 1000
    ensures forall o :: o in Pool(out, now, window) ==> Valid(o.updatedAt) && Micros(r.updatedAt) <= Micros(o.updatedAt)
  {
    assert r !in out;
    forall o | o in out
      ensures Valid(o.updatedAt) && Micros(r.updatedAt) <= Micros(o.updatedAt) && WithinWindow(now, window, o)
    {
      KeptIsNewer(rows, out, r, o);
    }
    FilterAll(out, (c: Candidate) => Valid(c.updatedAt) && WithinWindow(now, window, c));
    if |rows| < POOL_LIMIT {
      SameMultiset(rows, out);
    }
  }

  lemma SameMultiset(rows: seq<Candidate>, out: seq<Candidate>)
    requires multiset(out) <= multiset(rows) && |out| == |rows|
    ensures multiset(out) == multiset(rows)
    ensures forall r :: r in rows ==> r in out
  {
    var rest := multiset(rows) - multiset(out);
    assert multiset(rows) == multiset(out) + rest;
    assert |rest| == 0;
    forall r | r in rows
      ensures r in out
    {
      assert r in multiset(rows);
    }
  }

  /** `status IN (...)` */
  function OpenRows(table: seq<Candidate>): seq<Candidate> {
    Filter(table, (c: Candidate) => Open(c.status))
  }

  /** With at most 1000 open incidents the pool is exactly the open incidents of the window. */
  lemma PoolIsComplete(table: seq<Candidate>, out: seq<Candidate>, now: int, window: int)
    requires ValidRows(table) && window > 0
    requires NewestFirst(OpenRows(table), out, POOL_LIMIT) && |OpenRows(table)| <= 1000
    ensures forall c :: c in Pool(out, now, window) <==>
      c in table && c.status in {"open", "investigating", "pending_approval"} && Valid(c.updatedAt) && Micros(c.updatedAt) + window >= now
  {
    var rows := OpenRows(table);
    SameMultiset(rows, out);
    forall c | c in out
      ensures c in rows
    {
      assert c in multiset(out);
    }
  }

  ghost predicate ByRecency(rows: seq<Candidate>) {
    forall i, j :: 0 <= i < j < |rows| ==> !LexLess(Iso(rows[i].updatedAt), Iso(rows[j].updatedAt))
  }

  lemma RecencySnoc(xs: seq<Candidate>, c: Candidate)
    requires ByRecency(xs) && forall o :: o in xs ==> !LexLess(Iso(o.updatedAt), Iso(c.updatedAt))
    ensures ByRecency(xs + [c])
  {
    assert forall i :: 0 <= i < |xs| ==> xs[i] in xs;
  }

  lemma LastIsOldest(xs: seq<Candidate>)
    requires ByRecency(xs) && xs != []
    ensures ByRecency(xs[..|xs| - 1])
    ensures forall o :: o in xs[..|xs| - 1] ==> !LexLess(Iso(o.updatedAt), Iso(xs[|xs| - 1].updatedAt))
  {
  }

  lemma {:induction false} FilterKeepsOrder(xs: seq<Candidate>, keep: Candidate -> bool)
    requires ByRecency(xs)
    ensures ByRecency(Filter(xs, keep))
  {
    if xs != [] {
      var n := |xs| - 1;
      LastIsOldest(xs);
      FilterKeepsOrder(xs[..n], keep);
      RecencySnoc(Filter(xs[..n], keep), xs[n]);
    }
  }

  /** `c` was updated at least as recently as every pool member that the tier matches. */
  ghost predicate MostRecent(pool: seq<Candidate>, tier: Candidate -> Option<string>, c: Candidate) {
    c in pool && forall o :: o in pool && tier(o) != None ==>
      Valid(c.updatedAt) && Valid(o.updatedAt) && Micros(o.updatedAt) <= Micros(c.updatedAt)
  }

  lemma FirstIsMostRecent(pool: seq<Candidate>, tier: Candidate -> Option<string>, i: nat)
    requires ByRecency(pool) && ValidRows(pool) && i < |pool| && forall j :: 0 <= j < i ==> tier(pool[j]) == None
    ensures MostRecent(pool, tier, pool[i])
  {
    forall o | o in pool && tier(o) != None
      ensures Valid(o.updatedAt) && Micros(o.updatedAt) <= Micros(pool[i].updatedAt)
    {
      var j :| 0 <= j < |pool| && pool[j] == o;
      TextOrderIsTimeOrder(pool[i].updatedAt, o.updatedAt);
    }
  }

  /** Within a tier the most recently updated incident wins: no pool member that the tier matches has
      been updated after the one returned. */
  lemma MostRecentWins(rows: seq<Candidate>, out: seq<Candidate>, now: int, window: int,
                       m: Correlation, tier: Candidate -> Option<string>)
    requires NewestFirst(rows, out, POOL_LIMIT) && IsFirstMatch(Some(m), Pool(out, now, window), tier)
    ensures exists c :: MostRecent(Pool(out, now, window), tier, c) && c.threadId == m.threadId && tier(c) == Some(m.matchType)
  {
    var pool := Pool(out, now, window);
    FilterKeepsOrder(out, (c: Candidate) => Valid(c.updatedAt) && WithinWindow(now, window, c));
    var i :| 0 <= i < |pool| && tier(pool[i]) == Some(m.matchType) && pool[i].threadId == m.threadId
             && forall j :: 0 <= j < i ==> tier(pool[j]) == None;
    FirstIsMostRecent(pool, tier, i);
  }
}
