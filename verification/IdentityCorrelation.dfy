/** The identity tier (ingestion/identity_correlation.py): asset identity from an inventory, domain
    identity from passive DNS under a budget shared by two nested searches.

    `resolve` is the inventory, `lookup` the passive-DNS provider (an empty set stands for every
    falsy answer), `isDomain` the indicator classifier. */
module IdentityCorrelation {
  import opened Wrappers
  import opened Alerts

  datatype IdentityMatch = IdentityMatch(threadId: string, matchType: string, alertName: string, candidateName: string)

  // ----- flattened search order

  /** Every name of every candidate with the candidate's thread, in the order the loops visit them. */
  function Flat(candidates: seq<Candidate>, names: Candidate -> seq<string>): seq<(string, string)> {
    if candidates == [] then []
    else
      var n := |candidates| - 1;
      Flat(candidates[..n], names) + Tagged(candidates[n].threadId, names(candidates[n]))
  }

  function Tagged(threadId: string, names: seq<string>): (r: seq<(string, string)>)
    ensures |r| == |names| && forall i :: 0 <= i < |r| ==> r[i] == (threadId, names[i])
  {
    seq(|names|, i requires 0 <= i < |names| => (threadId, names[i]))
  }

  /** The first position that satisfies a test. */
  function First<T>(xs: seq<T>, test: T -> bool): (r: Option<nat>)
    ensures match r
      case None => forall i :: 0 <= i < |xs| ==> !test(xs[i])
      case Some(k) => k < |xs| && test(xs[k]) && forall i :: 0 <= i < k ==> !test(xs[i])
  {
    if xs == [] then None
    else
      var n := |xs| - 1;
      match First(xs[..n], test)
      case Some(k) => Some(k)
      case None => if test(xs[n]) then Some(n) else None
  }

  // ----- domain identity

  predicate SharesAddress(lookup: string -> set<string>, a: string, c: string) {
    lookup(a) * lookup(c) != {}
  }

  /** Some alert domain has resolved to an address of `c`. */
  predicate Hit(lookup: string -> set<string>, alertDomains: seq<string>, c: string) {
    First(alertDomains, a => SharesAddress(lookup, a, c)).Some?
  }

  /** The position of the first candidate domain that shares an address, with no budget at all. */
  function FirstHit(lookup: string -> set<string>, alertDomains: seq<string>, flat: seq<(string, string)>): Option<nat> {
    First(flat, (f: (string, string)) => Hit(lookup, alertDomains, f.1))
  }

  function MatchAt(lookup: string -> set<string>, alertDomains: seq<string>, flat: seq<(string, string)>, k: nat): IdentityMatch
    requires k < |flat| && Hit(lookup, alertDomains, flat[k].1)
  {
    var a := First(alertDomains, a => SharesAddress(lookup, a, flat[k].1)).value;
    IdentityMatch(flat[k].0, "identity_domain", alertDomains[a], flat[k].1)
  }

  /** What the search would answer with an unlimited budget. */
  function Unbudgeted(lookup: string -> set<string>, alertDomains: seq<string>, flat: seq<(string, string)>): Option<IdentityMatch> {
    match FirstHit(lookup, alertDomains, flat)
    case None => None
    case Some(k) => Some(MatchAt(lookup, alertDomains, flat, k))
  }

  /** How many lookups the unlimited search makes up to its answer; repeats count each time. */
  function Cost(lookup: string -> set<string>, alertDomains: seq<string>, flat: seq<(string, string)>): nat {
    match FirstHit(lookup, alertDomains, flat)
    case None => |alertDomains| + |flat|
    case Some(k) => |alertDomains| + k + 1
  }

  function OfClass(isDomain: string -> bool, xs: seq<string>): seq<string> {
    if xs == [] then []
    else
      var rest := OfClass(isDomain, xs[..|xs| - 1]);
      if isDomain(xs[|xs| - 1]) then rest + [xs[|xs| - 1]] else rest
  }

  function CandidateDomains(isDomain: string -> bool): Candidate -> seq<string> {
    (c: Candidate) => OfClass(isDomain, c.iocs)
  }

  /** The answer under a budget, in closed form: all or nothing around `Cost`. */
  function Budgeted(lookup: string -> set<string>, alertDomains: seq<string>, flat: seq<(string, string)>, budget: int): Option<IdentityMatch> {
    if FirstHit(lookup, alertDomains, flat).Some? && budget >= Cost(lookup, alertDomains, flat)
    then Unbudgeted(lookup, alertDomains, flat) else None
  }

  /** The passive-DNS provider. Every lookup is counted where it is made. */
  class PassiveDns {
    const answers: string -> set<string>
    var calls: nat

    constructor (answers: string -> set<string>)
      ensures this.answers == answers && calls == 0
    {
      this.answers := answers;
      calls := 0;
    }

    method LookUp(domain: string) returns (ips: set<string>)
      modifies this
      ensures ips == answers(domain) && calls == old(calls) + 1
    {
      calls := calls + 1;
      ips := answers(domain);
    }
  }

  /** `alert_ip_sets`: the domains that resolved, each with its addresses, in order. */
  type IpSets = seq<(string, set<string>)>

  ghost predicate SetsOf(sets: IpSets, lookup: string -> set<string>, domains: seq<string>) {
    |sets| == |domains| && forall i :: 0 <= i < |sets| ==> sets[i] == (domains[i], lookup(domains[i]))
  }

  /** One more domain looked up. */
  lemma ResolvingNext(lookup: string -> set<string>, xs: seq<string>, i: nat, sets: IpSets)
    requires i < |xs| && SetsOf(sets, lookup, Resolving(lookup, xs[..i]))
    ensures SetsOf(if lookup(xs[i]) != {} then sets + [(xs[i], lookup(xs[i]))] else sets, lookup, Resolving(lookup, xs[..i + 1]))
  {
    assert xs[..i + 1][..i] == xs[..i] && xs[..i + 1][i] == xs[i];
  }

  /** The first loop: look alert domains up while the budget lasts, keep those that resolve. */
  method LookUpAlertDomains(dns: PassiveDns, alertDomains: seq<string>, limit: int)
      returns (sets: IpSets, budget: int, ghost asked: nat)
    modifies dns
    ensures budget == if limit <= 0 then limit else if limit < |alertDomains| then 0 else limit - |alertDomains|
    ensures dns.calls == old(dns.calls) + limit - budget
    ensures asked <= |alertDomains| && (limit >= |alertDomains| ==> asked == |alertDomains|)
    ensures SetsOf(sets, dns.answers, Resolving(dns.answers, alertDomains[..asked]))
  {
    sets, budget := [], limit;
    var i := 0;
    while i < |alertDomains| && budget > 0
      invariant 0 <= i <= |alertDomains|
      invariant budget == limit - i && (limit > 0 ==> budget >= 0) && (limit <= 0 ==> i == 0)
      invariant dns.calls == old(dns.calls) + i
      invariant SetsOf(sets, dns.answers, Resolving(dns.answers, alertDomains[..i]))
    {
      ResolvingNext(dns.answers, alertDomains, i, sets);
      var ips := dns.LookUp(alertDomains[i]);
      budget := budget - 1;
      if ips != {} {
        sets := sets + [(alertDomains[i], ips)];
      }
      i := i + 1;
    }
    asked := i;
  }

  /** The first alert domain that shares an address with the candidate's. */
  method FirstSharing(sets: IpSets, ips: set<string>, ghost lookup: string -> set<string>, ghost resolved: seq<string>,
                      ghost c: string) returns (alertDomain: Option<string>)
    requires SetsOf(sets, lookup, resolved) && ips == lookup(c)
    ensures alertDomain.Some? <==> Hit(lookup, resolved, c)
    ensures alertDomain.Some? ==> alertDomain.value == resolved[First(resolved, a => SharesAddress(lookup, a, c)).value]
  {
    for i := 0 to |sets|
      invariant forall j :: 0 <= j < i ==> !SharesAddress(lookup, resolved[j], c)
    {
      if sets[i].1 * ips != {} {
        assert SharesAddress(lookup, resolved[i], c);
        return Some(sets[i].0);
      }
    }
    return None;
  }

  /** The alert domains that have resolved to anything, in order. */
  function Resolving(lookup: string -> set<string>, xs: seq<string>): (r: seq<string>)
    ensures forall x :: x in r <==> x in xs && lookup(x) != {}
  {
    if xs == [] then []
    else
      var rest := Resolving(lookup, xs[..|xs| - 1]);
      var last := xs[|xs| - 1];
      assert forall x :: x in xs <==> x in xs[..|xs| - 1] || x == last;
      if lookup(last) != {} then rest + [last] else rest
  }

  lemma {:induction false} ResolvingKeepsFirst(lookup: string -> set<string>, xs: seq<string>, c: string)
    ensures var test := (a: string) => SharesAddress(lookup, a, c);
      match First(Resolving(lookup, xs), test)
      case None => First(xs, test) == None
      case Some(k) => First(xs, test).Some? && xs[First(xs, test).value] == Resolving(lookup, xs)[k]
  {
    var test := (a: string) => SharesAddress(lookup, a, c);
    if xs != [] {
      var n := |xs| - 1;
      ResolvingKeepsFirst(lookup, xs[..n], c);
      var rest, all := Resolving(lookup, xs[..n]), Resolving(lookup, xs);
      if lookup(xs[n]) != {} {
        assert all[..|all| - 1] == rest;
      } else {
        assert !test(xs[n]);
      }
    }
  }

  /** One candidate's domains, while the budget lasts. */
  method SearchCandidate(dns: PassiveDns, sets: IpSets, ghost resolved: seq<string>, threadId: string, domains: seq<string>,
                         limit: nat) returns (m: Option<IdentityMatch>, budget: nat)
    requires SetsOf(sets, dns.answers, resolved)
    modifies dns
    ensures budget <= limit && dns.calls == old(dns.calls) + limit - budget
    ensures m == None ==> budget == if limit < |domains| then 0 else limit - |domains|
    ensures limit - budget <= |domains|
    ensures m.Some? ==>
      budget < limit && m.value == MatchOf(dns.answers, resolved, threadId, domains[limit - budget - 1])
    ensures m.Some? ==> Hit(dns.answers, resolved, domains[limit - budget - 1])
    ensures forall j :: 0 <= j < limit - budget - (if m.Some? then 1 else 0) ==> !Hit(dns.answers, resolved, domains[j])
  {
    budget := limit;
    var j := 0;
    while j < |domains| && budget > 0
      invariant 0 <= j <= |domains| && budget == limit - j
      invariant dns.calls == old(dns.calls) + j
      invariant forall i :: 0 <= i < j ==> !Hit(dns.answers, resolved, domains[i])
    {
      var ips := dns.LookUp(domains[j]);
      budget := budget - 1;
      if ips == {} {
        assert forall a :: !SharesAddress(dns.answers, a, domains[j]);
      } else {
        var alertDomain := FirstSharing(sets, ips, dns.answers, resolved, domains[j]);
        if alertDomain.Some? {
          return Some(IdentityMatch(threadId, "identity_domain", alertDomain.value, domains[j])), budget;
        }
      }
      j := j + 1;
    }
    m := None;
  }

  /** The match reported for a domain that hits; the alert domain is the first that shares. */
  function MatchOf(lookup: string -> set<string>, alertDomains: seq<string>, threadId: string, c: string): IdentityMatch {
    match First(alertDomains, a => SharesAddress(lookup, a, c))
    case None => IdentityMatch(threadId, "identity_domain", "", c)
    case Some(a) => IdentityMatch(threadId, "identity_domain", alertDomains[a], c)
  }

  lemma {:induction false} FlatPrefix(candidates: seq<Candidate>, names: Candidate -> seq<string>, i: nat)
    requires i <= |candidates|
    ensures Flat(candidates[..i], names) <= Flat(candidates, names)
    decreases |candidates|
  {
    if i == |candidates| {
      assert candidates[..i] == candidates;
    } else {
      FlatPrefix(candidates[..|candidates| - 1], names, i);
      assert candidates[..|candidates| - 1][..i] == candidates[..i];
    }
  }

  /** A run of `flat` starting at `at` that is one candidate's domains. */
  ghost predicate HoldsAt(flat: seq<(string, string)>, at: nat, threadId: string, domains: seq<string>) {
    at + |domains| <= |flat| && forall j :: 0 <= j < |domains| ==> flat[at + j] == (threadId, domains[j])
  }

  lemma PrefixHolds(flat: seq<(string, string)>, before: seq<(string, string)>, threadId: string, domains: seq<string>)
    requires before + Tagged(threadId, domains) <= flat
    ensures HoldsAt(flat, |before|, threadId, domains)
  {
    var part := before + Tagged(threadId, domains);
    assert forall j :: 0 <= j < |domains| ==> part[|before| + j] == (threadId, domains[j]);
  }

  lemma FlatHolds(candidates: seq<Candidate>, names: Candidate -> seq<string>, i: nat)
    requires i < |candidates|
    ensures HoldsAt(Flat(candidates, names), |Flat(candidates[..i], names)|, candidates[i].threadId, names(candidates[i]))
    ensures |Flat(candidates[..i + 1], names)| == |Flat(candidates[..i], names)| + |names(candidates[i])|
  {
    FlatNext(candidates, names, i);
    PrefixHolds(Flat(candidates, names), Flat(candidates[..i], names), candidates[i].threadId, names(candidates[i]));
  }

  lemma NoHitExtends(lookup: string -> set<string>, alertDomains: seq<string>, flat: seq<(string, string)>, at: nat,
                     threadId: string, domains: seq<string>, n: nat)
    requires NoHitBefore(lookup, alertDomains, flat, at) && HoldsAt(flat, at, threadId, domains) && n <= |domains|
    requires forall j :: 0 <= j < n ==> !Hit(lookup, alertDomains, domains[j])
    ensures NoHitBefore(lookup, alertDomains, flat, at + n)
  {
    forall i | 0 <= i < at + n
      ensures !Hit(lookup, alertDomains, flat[i].1)
    {
      if i >= at {
        assert flat[at + (i - at)] == (threadId, domains[i - at]);
      }
    }
  }

  lemma FlatNext(candidates: seq<Candidate>, names: Candidate -> seq<string>, i: nat)
    requires i < |candidates|
    ensures Flat(candidates[..i], names) + Tagged(candidates[i].threadId, names(candidates[i])) <= Flat(candidates, names)
    ensures Flat(candidates[..i + 1], names) == Flat(candidates[..i], names) + Tagged(candidates[i].threadId, names(candidates[i]))
  {
    assert candidates[..i + 1][..i] == candidates[..i];
    FlatPrefix(candidates, names, i + 1);
  }

  ghost predicate NoHitBefore(lookup: string -> set<string>, alertDomains: seq<string>, flat: seq<(string, string)>, n: nat) {
    n <= |flat| && forall i :: 0 <= i < n ==> !Hit(lookup, alertDomains, flat[i].1)
  }

  lemma CandidateHolds(isDomain: string -> bool, candidates: seq<Candidate>, i: nat)
    requires i < |candidates|
    ensures var names := CandidateDomains(isDomain);
      && HoldsAt(Flat(candidates, names), |Flat(candidates[..i], names)|, candidates[i].threadId,
                 OfClass(isDomain, candidates[i].iocs))
      && |Flat(candidates[..i + 1], names)| == |Flat(candidates[..i], names)| + |OfClass(isDomain, candidates[i].iocs)|
  {
    FlatHolds(candidates, CandidateDomains(isDomain), i);
  }

  /** `spent` lookups have gone through the first `i` candidates' domains, or run dry among them, without a hit. */
  ghost predicate Scanned(isDomain: string -> bool, lookup: string -> set<string>, resolved: seq<string>,
                          candidates: seq<Candidate>, i: nat, spent: nat, budget: nat) {
    var names := CandidateDomains(isDomain);
    && i <= |candidates|
    && (budget > 0 ==> spent == |Flat(candidates[..i], names)|)
    && NoHitBefore(lookup, resolved, Flat(candidates, names), spent)
  }

  lemma ScanBegins(isDomain: string -> bool, lookup: string -> set<string>, resolved: seq<string>,
                   candidates: seq<Candidate>, budget: nat)
    ensures Scanned(isDomain, lookup, resolved, candidates, 0, 0, budget)
  {
    assert candidates[..0] == [];
  }

  lemma ScanNext(isDomain: string -> bool, lookup: string -> set<string>, resolved: seq<string>,
                 candidates: seq<Candidate>, i: nat, spent: nat, budget: nat, n: nat)
    requires Scanned(isDomain, lookup, resolved, candidates, i, spent, budget) && budget > 0 && i < |candidates|
    requires var domains := OfClass(isDomain, candidates[i].iocs);
      n <= |domains| && n <= budget && (n < budget ==> n == |domains|)
      && forall j :: 0 <= j < n ==> !Hit(lookup, resolved, domains[j])
    ensures Scanned(isDomain, lookup, resolved, candidates, i + 1, spent + n, budget - n)
  {
    CandidateHolds(isDomain, candidates, i);
    NoHitExtends(lookup, resolved, Flat(candidates, CandidateDomains(isDomain)), spent, candidates[i].threadId,
                 OfClass(isDomain, candidates[i].iocs), n);
  }

  lemma ScanHits(isDomain: string -> bool, lookup: string -> set<string>, resolved: seq<string>,
                 candidates: seq<Candidate>, i: nat, spent: nat, budget: nat, k: nat, limit: nat)
    requires Scanned(isDomain, lookup, resolved, candidates, i, spent, budget) && k < budget && i < |candidates|
    requires limit == spent + budget
    requires var domains := OfClass(isDomain, candidates[i].iocs);
      k < |domains| && Hit(lookup, resolved, domains[k])
      && forall j :: 0 <= j < k ==> !Hit(lookup, resolved, domains[j])
    ensures FoundWithin(lookup, resolved, Flat(candidates, CandidateDomains(isDomain)), limit)
         == Some(MatchOf(lookup, resolved, candidates[i].threadId, OfClass(isDomain, candidates[i].iocs)[k]))
  {
    CandidateHolds(isDomain, candidates, i);
    FoundHere(lookup, resolved, Flat(candidates, CandidateDomains(isDomain)), spent, candidates[i].threadId,
              OfClass(isDomain, candidates[i].iocs), k, limit);
  }

  lemma ScanEnds(isDomain: string -> bool, lookup: string -> set<string>, resolved: seq<string>,
                 candidates: seq<Candidate>, i: nat, spent: nat, budget: nat, limit: nat)
    requires Scanned(isDomain, lookup, resolved, candidates, i, spent, budget) && (i == |candidates| || budget == 0)
    requires limit == spent + budget
    ensures FoundWithin(lookup, resolved, Flat(candidates, CandidateDomains(isDomain)), limit) == None
  {
    assert candidates[..|candidates|] == candidates;
    NothingFound(lookup, resolved, Flat(candidates, CandidateDomains(isDomain)), spent, limit);
  }

  /** One turn of the second loop. */
  method SearchNext(isDomain: string -> bool, dns: PassiveDns, sets: IpSets, ghost resolved: seq<string>,
                    candidates: seq<Candidate>, ghost limit: nat, i: nat, budget: nat)
      returns (m: Option<IdentityMatch>, left: nat)
    requires SetsOf(sets, dns.answers, resolved) && i < |candidates| && 0 < budget <= limit
    requires Scanned(isDomain, dns.answers, resolved, candidates, i, limit - budget, budget)
    modifies dns
    ensures left <= budget && dns.calls == old(dns.calls) + budget - left
    ensures m.Some? ==> m == FoundWithin(dns.answers, resolved, Flat(candidates, CandidateDomains(isDomain)), limit)
    ensures m == None ==> Scanned(isDomain, dns.answers, resolved, candidates, i + 1, limit - left, left)
  {
    m, left := SearchCandidate(dns, sets, resolved, candidates[i].threadId, OfClass(isDomain, candidates[i].iocs), budget);
    if m.Some? {
      ScanHits(isDomain, dns.answers, resolved, candidates, i, limit - budget, budget, budget - left - 1, limit);
    } else {
      ScanNext(isDomain, dns.answers, resolved, candidates, i, limit - budget, budget, budget - left);
    }
  }

  /** The second loop, over all candidates, sharing what budget is left. */
  method SearchCandidates(isDomain: string -> bool, dns: PassiveDns, sets: IpSets, ghost resolved: seq<string>,
                          candidates: seq<Candidate>, limit: nat) returns (m: Option<IdentityMatch>)
    requires SetsOf(sets, dns.answers, resolved)
    modifies dns
    ensures dns.calls <= old(dns.calls) + limit
    ensures m == FoundWithin(dns.answers, resolved, Flat(candidates, CandidateDomains(isDomain)), limit)
  {
    ScanBegins(isDomain, dns.answers, resolved, candidates, limit);
    var budget: nat := limit;
    var i := 0;
    while i < |candidates| && budget > 0
      invariant 0 <= i && budget <= limit && dns.calls == old(dns.calls) + limit - budget
      invariant Scanned(isDomain, dns.answers, resolved, candidates, i, limit - budget, budget)
    {
      m, budget := SearchNext(isDomain, dns, sets, resolved, candidates, limit, i, budget);
      if m.Some? {
        return;
      }
      i := i + 1;
    }
    ScanEnds(isDomain, dns.answers, resolved, candidates, i, limit - budget, budget, limit);
    m := None;
  }

  lemma FoundHere(lookup: string -> set<string>, alertDomains: seq<string>, flat: seq<(string, string)>, at: nat,
                  threadId: string, domains: seq<string>, k: nat, limit: nat)
    requires NoHitBefore(lookup, alertDomains, flat, at) && HoldsAt(flat, at, threadId, domains) && k < |domains|
    requires (forall j :: 0 <= j < k ==> !Hit(lookup, alertDomains, domains[j])) && Hit(lookup, alertDomains, domains[k])
    requires at + k < limit
    ensures FoundWithin(lookup, alertDomains, flat, limit) == Some(MatchOf(lookup, alertDomains, threadId, domains[k]))
  {
    NoHitExtends(lookup, alertDomains, flat, at, threadId, domains, k);
    assert flat[at + k] == (threadId, domains[k]);
    FoundAt(lookup, alertDomains, flat, at + k, limit);
  }

  /** The first hit, if it lies within the first `limit` lookups. */
  function FoundWithin(lookup: string -> set<string>, alertDomains: seq<string>, flat: seq<(string, string)>, limit: nat): Option<IdentityMatch> {
    match FirstHit(lookup, alertDomains, flat)
    case None => None
    case Some(k) => if k < limit then Some(MatchOf(lookup, alertDomains, flat[k].0, flat[k].1)) else None
  }

  lemma FoundAt(lookup: string -> set<string>, alertDomains: seq<string>, flat: seq<(string, string)>, k: nat, limit: nat)
    requires k < |flat| && Hit(lookup, alertDomains, flat[k].1) && NoHitBefore(lookup, alertDomains, flat, k) && k < limit
    ensures FoundWithin(lookup, alertDomains, flat, limit) == Some(MatchOf(lookup, alertDomains, flat[k].0, flat[k].1))
  {
    FirstHitIs(lookup, alertDomains, flat, k);
  }

  lemma NothingFound(lookup: string -> set<string>, alertDomains: seq<string>, flat: seq<(string, string)>, n: nat, limit: nat)
    requires NoHitBefore(lookup, alertDomains, flat, n) && (n == |flat| || n == limit)
    ensures FoundWithin(lookup, alertDomains, flat, limit) == None
  {
  }

  lemma FirstHitIs(lookup: string -> set<string>, alertDomains: seq<string>, flat: seq<(string, string)>, k: nat)
    requires k < |flat| && Hit(lookup, alertDomains, flat[k].1) && NoHitBefore(lookup, alertDomains, flat, k)
    ensures FirstHit(lookup, alertDomains, flat) == Some(k)
  {
  }

  /** Dropping alert domains that resolve to nothing changes neither the hits nor the match reported. */
  lemma ResolvingIsEnough(lookup: string -> set<string>, alertDomains: seq<string>, flat: seq<(string, string)>)
    ensures FirstHit(lookup, Resolving(lookup, alertDomains), flat) == FirstHit(lookup, alertDomains, flat)
    ensures forall t, c :: MatchOf(lookup, Resolving(lookup, alertDomains), t, c) == MatchOf(lookup, alertDomains, t, c)
  {
    forall c
      ensures Hit(lookup, Resolving(lookup, alertDomains), c) == Hit(lookup, alertDomains, c)
    {
      ResolvingKeepsFirst(lookup, alertDomains, c);
    }
    forall t, c
      ensures MatchOf(lookup, Resolving(lookup, alertDomains), t, c) == MatchOf(lookup, alertDomains, t, c)
    {
      ResolvingKeepsFirst(lookup, alertDomains, c);
    }
    SameTestSameFirst(flat, (f: (string, string)) => Hit(lookup, Resolving(lookup, alertDomains), f.1),
                      (f: (string, string)) => Hit(lookup, alertDomains, f.1));
  }

  lemma SameTestSameFirst<T>(xs: seq<T>, p: T -> bool, q: T -> bool)
    requires forall i :: 0 <= i < |xs| ==> p(xs[i]) == q(xs[i])
    ensures First(xs, p) == First(xs, q)
  {
  }

  lemma NoDomainsNoHit(lookup: string -> set<string>, flat: seq<(string, string)>)
    ensures FirstHit(lookup, [], flat) == None
  {
  }

  /** The whole search under a budget: the provider is asked at most `limit` times over both loops, and the answer is
      the unlimited search's first match or nothing, by whether the budget covers its cost. */
  method FirstDomainIdentityMatch(isDomain: string -> bool, dns: PassiveDns, alertIocs: seq<string>,
                                  candidates: seq<Candidate>, limit: int) returns (m: Option<IdentityMatch>)
    modifies dns
    ensures m == Budgeted(dns.answers, OfClass(isDomain, alertIocs), Flat(candidates, CandidateDomains(isDomain)), limit)
    ensures dns.calls <= old(dns.calls) + if limit < 0 then 0 else limit
  {
    var alertDomains := OfClass(isDomain, alertIocs);
    ghost var flat := Flat(candidates, CandidateDomains(isDomain));
    NoDomainsNoHit(dns.answers, flat);
    if alertDomains == [] {
      return None;
    }
    var sets, budget, asked := LookUpAlertDomains(dns, alertDomains, limit);
    ghost var resolved := Resolving(dns.answers, alertDomains);
    ResolvingIsEnough(dns.answers, alertDomains, flat);
    assert alertDomains[..|alertDomains|] == alertDomains;
    if sets == [] {
      assert limit >= |alertDomains| ==> resolved == [];
      return None;
    }
    if budget <= 0 {
      return None;
    }
    m := SearchCandidates(isDomain, dns, sets, resolved, candidates, budget);
  }

  // ----- what the budget means for a caller

  /** A corollary of the closed form: raising the budget never changes a match that was found. */
  lemma MoreBudgetKeepsMatch(lookup: string -> set<string>, alertDomains: seq<string>, flat: seq<(string, string)>, b: int, c: int)
    requires b <= c && Budgeted(lookup, alertDomains, flat, b).Some?
    ensures Budgeted(lookup, alertDomains, flat, c) == Budgeted(lookup, alertDomains, flat, b)
  {
  }

  /** Another: the budgeted answer is the unlimited one exactly when there is nothing to find or the budget covers
      every lookup up to the match. */
  lemma BudgetSufficesExactly(lookup: string -> set<string>, alertDomains: seq<string>, flat: seq<(string, string)>, b: int)
    ensures Budgeted(lookup, alertDomains, flat, b) == Unbudgeted(lookup, alertDomains, flat) <==>
      Unbudgeted(lookup, alertDomains, flat) == None || b >= Cost(lookup, alertDomains, flat)
    ensures b >= |alertDomains| + |flat| ==> Budgeted(lookup, alertDomains, flat, b) == Unbudgeted(lookup, alertDomains, flat)
  {
  }

  lemma {:induction false} OfClassHolds(isDomain: string -> bool, xs: seq<string>, x: string)
    ensures x in OfClass(isDomain, xs) <==> x in xs && isDomain(x)
  {
    if xs != [] {
      var n := |xs| - 1;
      OfClassHolds(isDomain, xs[..n], x);
      assert xs == xs[..n] + [xs[n]];
    }
  }

  lemma {:induction false} FlatNames(candidates: seq<Candidate>, names: Candidate -> seq<string>, k: nat)
    requires k < |Flat(candidates, names)|
    ensures exists c :: c in candidates && c.threadId == Flat(candidates, names)[k].0 && Flat(candidates, names)[k].1 in names(c)
  {
    var n := |candidates| - 1;
    var before := Flat(candidates[..n], names);
    if k < |before| {
      FlatNames(candidates[..n], names, k);
      var c :| c in candidates[..n] && c.threadId == before[k].0 && before[k].1 in names(c);
      assert c in candidates;
    } else {
      assert candidates[n] in candidates;
      assert Flat(candidates, names)[k] == Tagged(candidates[n].threadId, names(candidates[n]))[k - |before|];
    }
  }

  lemma FlatListsNames(candidates: seq<Candidate>, names: Candidate -> seq<string>, c: Candidate, d: string) returns (k: nat)
    requires c in candidates && d in names(c)
    ensures k < |Flat(candidates, names)| && Flat(candidates, names)[k].1 == d
  {
    var i: nat :| i < |candidates| && candidates[i] == c;
    var j: nat :| j < |names(c)| && names(c)[j] == d;
    FlatHolds(candidates, names, i);
    k := |Flat(candidates[..i], names)| + j;
    assert Flat(candidates, names)[|Flat(candidates[..i], names)| + j] == (c.threadId, names(c)[j]);
  }

  /** A domain of the alert and one of the candidate have resolved to a common address. */
  ghost predicate Related(isDomain: string -> bool, lookup: string -> set<string>, iocs: seq<string>, c: Candidate) {
    exists a, d :: a in iocs && isDomain(a) && d in c.iocs && isDomain(d) && SharesAddress(lookup, a, d)
  }

  lemma HitIsRelated(isDomain: string -> bool, lookup: string -> set<string>, iocs: seq<string>, c: Candidate, d: string)
    requires d in CandidateDomains(isDomain)(c) && Hit(lookup, OfClass(isDomain, iocs), d)
    ensures Related(isDomain, lookup, iocs, c)
  {
    var domains := OfClass(isDomain, iocs);
    var k := First(domains, a => SharesAddress(lookup, a, d)).value;
    OfClassHolds(isDomain, iocs, domains[k]);
    OfClassHolds(isDomain, c.iocs, d);
  }

  lemma RelatedIsHit(isDomain: string -> bool, lookup: string -> set<string>, iocs: seq<string>, pool: seq<Candidate>, c: Candidate)
    requires c in pool && Related(isDomain, lookup, iocs, c)
    ensures FirstHit(lookup, OfClass(isDomain, iocs), Flat(pool, CandidateDomains(isDomain))).Some?
  {
    var a, d :| a in iocs && isDomain(a) && d in c.iocs && isDomain(d) && SharesAddress(lookup, a, d);
    OfClassHolds(isDomain, iocs, a);
    OfClassHolds(isDomain, c.iocs, d);
    var i :| 0 <= i < |OfClass(isDomain, iocs)| && OfClass(isDomain, iocs)[i] == a;
    assert Hit(lookup, OfClass(isDomain, iocs), d);
    var k := FlatListsNames(pool, CandidateDomains(isDomain), c, d);
  }

  /** With a budget for every domain, repeats included, a match is found if and only if some candidate's domain has
      resolved to an address of one of the alert's. */
  lemma DomainMatchExactly(isDomain: string -> bool, lookup: string -> set<string>, iocs: seq<string>, pool: seq<Candidate>, b: int)
    requires b >= |OfClass(isDomain, iocs)| + |Flat(pool, CandidateDomains(isDomain))|
    ensures Budgeted(lookup, OfClass(isDomain, iocs), Flat(pool, CandidateDomains(isDomain)), b).Some?
       <==> exists c :: c in pool && Related(isDomain, lookup, iocs, c)
  {
    var flat := Flat(pool, CandidateDomains(isDomain));
    var hit := FirstHit(lookup, OfClass(isDomain, iocs), flat);
    if hit.Some? {
      FlatNames(pool, CandidateDomains(isDomain), hit.value);
      var c :| c in pool && flat[hit.value].1 in CandidateDomains(isDomain)(c);
      HitIsRelated(isDomain, lookup, iocs, c, flat[hit.value].1);
    }
    if c :| c in pool && Related(isDomain, lookup, iocs, c) {
      RelatedIsHit(isDomain, lookup, iocs, pool, c);
    }
  }

  /** The budget counts repeats: one domain listed by two candidates costs two lookups, so a budget above
      the number of distinct domains can still miss the match. Here three distinct domains, a budget
      of four, and a match behind the repeats. */
  lemma DistinctDomainsAreNotEnough()
    ensures (set f | f in SAMPLE :: f.1) == {"d", "e"} && |{"a", "d", "e"}| == 3
    ensures Unbudgeted(SampleLookup, ["a"], SAMPLE) == Some(IdentityMatch("t4", "identity_domain", "a", "e"))
    ensures Budgeted(SampleLookup, ["a"], SAMPLE, 4) == None
  {
    assert ("t1", "d") in SAMPLE && ("t4", "e") in SAMPLE;
    assert "a" != "d" && "a" != "e" && "d" != "e";
    SampleHits();
    FirstHitIs(SampleLookup, ["a"], SAMPLE, 3);
  }

  const SAMPLE := [("t1", "d"), ("t2", "d"), ("t3", "d"), ("t4", "e")]

  function SampleLookup(d: string): set<string> {
    if d == "a" || d == "e" then {"1.2.3.4"} else {"9.9.9.9"}
  }

  lemma SampleHits()
    ensures !Hit(SampleLookup, ["a"], "d")
    ensures First(["a"], a => SharesAddress(SampleLookup, a, "e")) == Some(0)
  {
    assert "1.2.3.4" in SampleLookup("a") * SampleLookup("e");
  }

  // ----- asset identity

  /** The inventory identity of a name; an empty identity counts as none. */
  function Identity(resolve: string -> Option<string>, name: string): Option<string> {
    if resolve(name) == Some("") then None else resolve(name)
  }

  /** The alert asset that is the same asset as `name` under another name: the first one listed. */
  function SameAsset(resolve: string -> Option<string>, alertAssets: seq<string>, name: string): Option<string> {
    if Identity(resolve, name) == None then None
    else
      match First(alertAssets, a => Identity(resolve, a) == Identity(resolve, name))
      case None => None
      case Some(k) => Some(alertAssets[k])
  }

  function Named(resolve: string -> Option<string>, ids: map<string, string>, name: string): Option<string> {
    var canonical := Identity(resolve, name);
    if canonical.Some? && canonical.value in ids then Some(ids[canonical.value]) else None
  }

  /** Both names are known to the inventory, under one identity that is not empty. */
  predicate OneIdentity(resolve: string -> Option<string>, a: string, b: string) {
    match (resolve(a), resolve(b))
    case (Some(x), Some(y)) => x == y && x != ""
    case _ => false
  }

  /** The first alert asset with the identity of the name; None exactly if no alert asset has it. */
  lemma SameAssetExactly(resolve: string -> Option<string>, alertAssets: seq<string>, name: string)
    ensures match SameAsset(resolve, alertAssets, name)
      case None => forall a :: a in alertAssets ==> !OneIdentity(resolve, a, name)
      case Some(found) =>
        exists k :: 0 <= k < |alertAssets| && alertAssets[k] == found && OneIdentity(resolve, found, name)
          && forall j :: 0 <= j < k ==> !OneIdentity(resolve, alertAssets[j], name)
  {
    if SameAsset(resolve, alertAssets, name) == None {
      forall a | a in alertAssets
        ensures !OneIdentity(resolve, a, name)
      {
        var k :| 0 <= k < |alertAssets| && alertAssets[k] == a;
      }
    } else {
      var k := First(alertAssets, a => Identity(resolve, a) == Identity(resolve, name)).value;
      assert alertAssets[k] == SameAsset(resolve, alertAssets, name).value && OneIdentity(resolve, alertAssets[k], name);
    }
  }

  lemma SameAssetNext(resolve: string -> Option<string>, alertAssets: seq<string>, i: nat, name: string)
    requires i < |alertAssets|
    ensures SameAsset(resolve, alertAssets[..i + 1], name) ==
      if SameAsset(resolve, alertAssets[..i], name).Some? then SameAsset(resolve, alertAssets[..i], name)
      else if Identity(resolve, name).Some? && Identity(resolve, alertAssets[i]) == Identity(resolve, name) then Some(alertAssets[i])
      else None
  {
    assert alertAssets[..i + 1][..i] == alertAssets[..i];
  }

  /** `alert_identities`: canonical identity to the first alert asset that has it. */
  method AlertIdentities(resolve: string -> Option<string>, alertAssets: seq<string>) returns (ids: map<string, string>)
    ensures forall name :: SameAsset(resolve, alertAssets, name) == Named(resolve, ids, name)
  {
    ids := map[];
    for i := 0 to |alertAssets|
      invariant forall name :: SameAsset(resolve, alertAssets[..i], name) == Named(resolve, ids, name)
    {
      ghost var before := ids;
      var canonical := Identity(resolve, alertAssets[i]);
      if canonical.Some? && canonical.value !in ids {
        ids := ids[canonical.value := alertAssets[i]];
      }
      forall name
        ensures SameAsset(resolve, alertAssets[..i + 1], name) == Named(resolve, ids, name)
      {
        SameAssetNext(resolve, alertAssets, i, name);
        assert SameAsset(resolve, alertAssets[..i], name) == Named(resolve, before, name);
      }
    }
    assert alertAssets[..|alertAssets|] == alertAssets;
  }

  /** No name before position (i, j) of the nested search is one of the alert's assets. */
  ghost predicate NoAssetBefore(resolve: string -> Option<string>, alertAssets: seq<string>, candidates: seq<Candidate>, i: nat, j: nat) {
    && i <= |candidates|
    && (forall c, n :: c in candidates[..i] && n in c.affectedAssets ==> SameAsset(resolve, alertAssets, n) == None)
    && (i < |candidates| ==> j <= |candidates[i].affectedAssets|)
    && (i < |candidates| ==> forall n :: n in candidates[i].affectedAssets[..j] ==> SameAsset(resolve, alertAssets, n) == None)
  }

  /** The asset match is the first in (candidate, name) order; None means no name of any candidate resolves
      to an identity of the alert. */
  ghost predicate IsAssetMatch(resolve: string -> Option<string>, alertAssets: seq<string>, candidates: seq<Candidate>, m: Option<IdentityMatch>) {
    match m
    case None => NoAssetBefore(resolve, alertAssets, candidates, |candidates|, 0)
    case Some(found) => exists i: nat, j: nat ::
      && i < |candidates| && j < |candidates[i].affectedAssets|
      && NoAssetBefore(resolve, alertAssets, candidates, i, j)
      && SameAsset(resolve, alertAssets, candidates[i].affectedAssets[j]) == Some(found.alertName)
      && found == IdentityMatch(candidates[i].threadId, "identity_asset", found.alertName, candidates[i].affectedAssets[j])
  }

  method FirstAssetIdentityMatch(resolve: string -> Option<string>, alertAssets: seq<string>, candidates: seq<Candidate>)
      returns (m: Option<IdentityMatch>)
    ensures IsAssetMatch(resolve, alertAssets, candidates, m)
  {
    var ids := AlertIdentities(resolve, alertAssets);
    if ids == map[] {
      return None;
    }
    for i := 0 to |candidates|
      invariant NoAssetBefore(resolve, alertAssets, candidates, i, 0)
    {
      var names := candidates[i].affectedAssets;
      for j := 0 to |names|
        invariant NoAssetBefore(resolve, alertAssets, candidates, i, j)
      {
        assert names[..j + 1] == names[..j] + [names[j]];
        var canonical := Identity(resolve, names[j]);
        if canonical.Some? && canonical.value in ids {
          return Some(IdentityMatch(candidates[i].threadId, "identity_asset", ids[canonical.value], names[j]));
        }
      }
      assert names[..|names|] == names;
      assert candidates[..i + 1] == candidates[..i] + [candidates[i]];
    }
    return None;
  }

  /** Asset identity decides first and costs nothing; domain identity is asked only if it is enabled. */
  method FindIdentityCorrelation(resolve: string -> Option<string>, isDomain: string -> bool, dns: PassiveDns,
                                 dnsEnabled: bool, limit: int, alert: Alert, pool: seq<Candidate>)
      returns (m: Option<IdentityMatch>)
    modifies dns
    ensures if NoAssetBefore(resolve, Unique(alert.affectedAssets), pool, |pool|, 0) then
        m == if dnsEnabled then
               Budgeted(dns.answers, OfClass(isDomain, Unique(alert.iocs)), Flat(pool, CandidateDomains(isDomain)), limit)
             else None
      else m.Some? && IsAssetMatch(resolve, Unique(alert.affectedAssets), pool, m)
    ensures dns.calls <= old(dns.calls) + (if dnsEnabled && limit > 0 then limit else 0)
    ensures m.Some? && m.value.matchType == "identity_asset" ==> dns.calls == old(dns.calls)
  {
    var alertAssets, alertIocs := Unique(alert.affectedAssets), Unique(alert.iocs);
    if (alertAssets == [] && alertIocs == []) || pool == [] {
      return None;
    }
    m := FirstAssetIdentityMatch(resolve, alertAssets, pool);
    if m.Some? {
      return;
    }
    if dnsEnabled {
      m := FirstDomainIdentityMatch(isDomain, dns, alertIocs, pool, limit);
    }
  }
}
