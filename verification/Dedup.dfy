/** Alert deduplication and its two backends (utils/dedup.py). */
module Dedup {
  import opened Wrappers
  import opened Strings

  /** One call: who and what was seen, when, and the window found in the environment. */
  datatype Sighting = Sighting(tenantId: string, dedupKey: string, now: real, window: real)

  ghost predicate Chronological(ss: seq<Sighting>) {
    forall i, j :: 0 <= i <= j < |ss| ==> ss[i].now <= ss[j].now
  }

  predicate SameAlert(a: Sighting, b: Sighting) {
    a.tenantId == b.tenantId && a.dedupKey == b.dedupKey
  }

  // ----- the in-memory backend

  class DedupStore {
    var lastSeen: map<(string, string), real>

    constructor ()
      ensures lastSeen == map[]
    {
      lastSeen := map[];
    }

    method IsDuplicate(s: Sighting) returns (duplicate: bool)
      modifies this
      ensures lastSeen == old(lastSeen)[(s.tenantId, s.dedupKey) := s.now]
      ensures duplicate == MemoryAnswer(old(lastSeen), s)
    {
      var key := (s.tenantId, s.dedupKey);
      var seen := if key in lastSeen then Some(lastSeen[key]) else None;
      lastSeen := lastSeen[key := s.now];
      if s.window <= 0.0 {
        return false;
      }
      return seen.Some? && s.now - seen.value < s.window;
    }
  }

  predicate MemoryAnswer(lastSeen: map<(string, string), real>, s: Sighting) {
    var key := (s.tenantId, s.dedupKey);
    s.window > 0.0 && key in lastSeen && s.now - lastSeen[key] < s.window
  }

  function MemoryAfter(ss: seq<Sighting>): map<(string, string), real> {
    if ss == [] then map[]
    else
      var last := ss[|ss| - 1];
      MemoryAfter(ss[..|ss| - 1])[(last.tenantId, last.dedupKey) := last.now]
  }

  // ----- the Redis backend

  /** A stored timestamp; `expireAt` is None for a key without a TTL. */
  datatype Stamp = Stamp(last: real, expireAt: Option<real>)

  function RedisKey(tenantId: string, dedupKey: string): string {
    "cavendex:dedup:" + tenantId + ":" + dedupKey
  }

  function Ceil(x: real): int {
    -((-x).Floor)
  }

  function Get(db: map<string, Stamp>, k: string, now: real): Option<real> {
    if k in db && (db[k].expireAt == None || now < db[k].expireAt.value) then Some(db[k].last) else None
  }

  /** `SET` clears any TTL; `EXPIRE` is only issued for a positive window. */
  function StampFor(s: Sighting): Stamp {
    Stamp(s.now, if s.window > 0.0 then Some(s.now + Ceil(s.window) as real) else None)
  }

  predicate RedisAnswer(db: map<string, Stamp>, s: Sighting) {
    var last := Get(db, RedisKey(s.tenantId, s.dedupKey), s.now);
    s.window > 0.0 && last.Some? && s.now - last.value < s.window
  }

  class DedupRedis {
    var db: map<string, Stamp>

    constructor ()
      ensures db == map[]
    {
      db := map[];
    }

    method IsDuplicate(s: Sighting) returns (duplicate: bool)
      modifies this
      ensures db == old(db)[RedisKey(s.tenantId, s.dedupKey) := StampFor(s)]
      ensures duplicate == RedisAnswer(old(db), s)
    {
      var k := RedisKey(s.tenantId, s.dedupKey);
      var last := Get(db, k, s.now);
      db := db[k := Stamp(s.now, None)];
      if s.window > 0.0 {
        db := db[k := db[k].(expireAt := Some(s.now + Ceil(s.window) as real))];
      }
      if s.window <= 0.0 {
        return false;
      }
      if last == None {
        return false;
      }
      return s.now - last.value < s.window;
    }
  }

  function RedisAfter(ss: seq<Sighting>): map<string, Stamp> {
    if ss == [] then map[]
    else
      var last := ss[|ss| - 1];
      RedisAfter(ss[..|ss| - 1])[RedisKey(last.tenantId, last.dedupKey) := StampFor(last)]
  }

  // ----- the state as a function of the history

  /** The most recent sighting of the same alert. */
  function LastSighting(ss: seq<Sighting>, s: Sighting): Option<Sighting> {
    if ss == [] then None
    else if SameAlert(ss[|ss| - 1], s) then Some(ss[|ss| - 1])
    else LastSighting(ss[..|ss| - 1], s)
  }

  lemma {:induction false} MemoryIsLastSighting(ss: seq<Sighting>, s: Sighting)
    ensures var m, last, key := MemoryAfter(ss), LastSighting(ss, s), (s.tenantId, s.dedupKey);
      (key in m <==> last.Some?) && (key in m ==> m[key] == last.value.now)
  {
    if ss != [] {
      MemoryIsLastSighting(ss[..|ss| - 1], s);
    }
  }

  lemma KeysInjective(t1: string, k1: string, t2: string, k2: string)
    requires Lacks(t1, ':') && Lacks(t2, ':')
    ensures RedisKey(t1, k1) == RedisKey(t2, k2) <==> t1 == t2 && k1 == k2
  {
    var p := "cavendex:dedup:";
    if RedisKey(t1, k1) == RedisKey(t2, k2) {
      assert RedisKey(t1, k1)[|p|..] == t1 + ":" + k1 && RedisKey(t2, k2)[|p|..] == t2 + ":" + k2;
      FirstSeparator(t1, k1, t2, k2, ':');
    }
  }

  lemma {:induction false} RedisIsLastSighting(ss: seq<Sighting>, s: Sighting)
    requires Lacks(s.tenantId, ':') && forall i :: 0 <= i < |ss| ==> Lacks(ss[i].tenantId, ':')
    ensures var db, last, k := RedisAfter(ss), LastSighting(ss, s), RedisKey(s.tenantId, s.dedupKey);
      (k in db <==> last.Some?) && (k in db ==> db[k] == StampFor(last.value))
  {
    if ss != [] {
      var n := |ss| - 1;
      RedisIsLastSighting(ss[..n], s);
      KeysInjective(ss[n].tenantId, ss[n].dedupKey, s.tenantId, s.dedupKey);
    }
  }

  // ----- what both backends mean

  /** An earlier sighting of this alert lies less than the window ago. */
  ghost predicate SeenWithinWindow(ss: seq<Sighting>, i: nat)
    requires i < |ss|
  {
    ss[i].window > 0.0 &&
    exists j :: 0 <= j < i && SameAlert(ss[j], ss[i]) && ss[i].now - ss[j].now < ss[i].window
  }

  lemma {:induction false} LastSightingIsLatest(ss: seq<Sighting>, s: Sighting)
    requires Chronological(ss)
    ensures match LastSighting(ss, s)
      case None => forall j :: 0 <= j < |ss| ==> !SameAlert(ss[j], s)
      case Some(last) =>
        && (exists j :: 0 <= j < |ss| && ss[j] == last && SameAlert(ss[j], s))
        && forall j :: 0 <= j < |ss| && SameAlert(ss[j], s) ==> ss[j].now <= last.now
  {
    if ss != [] && !SameAlert(ss[|ss| - 1], s) {
      LastSightingIsLatest(ss[..|ss| - 1], s);
    }
  }

  /** The in-memory answer to call `i` says exactly whether an earlier sighting is recent enough. */
  lemma MemoryMeetsSpecification(ss: seq<Sighting>, i: nat)
    requires Chronological(ss) && i < |ss|
    ensures MemoryAnswer(MemoryAfter(ss[..i]), ss[i]) <==> SeenWithinWindow(ss, i)
  {
    MemoryIsLastSighting(ss[..i], ss[i]);
    LastSightingIsLatest(ss[..i], ss[i]);
    var last := LastSighting(ss[..i], ss[i]);
    if last.Some? {
      var j :| 0 <= j < i && ss[..i][j] == last.value && SameAlert(ss[..i][j], ss[i]);
      assert ss[j] == last.value;
    }
    if SeenWithinWindow(ss, i) {
      var j :| 0 <= j < i && SameAlert(ss[j], ss[i]) && ss[i].now - ss[j].now < ss[i].window;
      assert ss[..i][j] == ss[j];
    }
  }

  /** The guard on which the backends differ: the key of the last sighting has expired under the window
      that sighting saw, although the window now in force still covers it. */
  predicate ExpiredEarly(ss: seq<Sighting>, i: nat)
    requires i < |ss|
  {
    match LastSighting(ss[..i], ss[i])
    case None => false
    case Some(last) =>
      && last.window > 0.0
      && last.now + Ceil(last.window) as real <= ss[i].now < last.now + ss[i].window
  }

  lemma CeilAbove(x: real)
    ensures Ceil(x) as real >= x
  {
  }

  /** Call by call, Redis and memory agree exactly when the key has not expired early. */
  lemma BackendsAgree(ss: seq<Sighting>, i: nat)
    requires Chronological(ss) && i < |ss|
    requires forall j :: 0 <= j <= i ==> Lacks(ss[j].tenantId, ':')
    ensures RedisAnswer(RedisAfter(ss[..i]), ss[i]) == MemoryAnswer(MemoryAfter(ss[..i]), ss[i])
       <==> !ExpiredEarly(ss, i)
  {
    MemoryIsLastSighting(ss[..i], ss[i]);
    RedisIsLastSighting(ss[..i], ss[i]);
    var last := LastSighting(ss[..i], ss[i]);
    if last.Some? {
      CeilAbove(last.value.window);
    }
  }

  /** With one window for the whole trace and sanitized tenants, both backends answer
      "an earlier sighting of this key exists less than a window ago", on every call. */
  lemma ConstantWindowAgrees(ss: seq<Sighting>, window: real, i: nat)
    requires Chronological(ss) && i < |ss|
    requires forall j :: 0 <= j < |ss| ==> ss[j].window == window && Lacks(ss[j].tenantId, ':')
    ensures RedisAnswer(RedisAfter(ss[..i]), ss[i]) <==> SeenWithinWindow(ss, i)
    ensures MemoryAnswer(MemoryAfter(ss[..i]), ss[i]) <==> SeenWithinWindow(ss, i)
  {
    MemoryMeetsSpecification(ss, i);
    BackendsAgree(ss, i);
    LastSightingIsLatest(ss[..i], ss[i]);
    CeilAbove(window);
  }

  /** A window enlarged between two sightings: Redis has forgotten what memory still holds. */
  lemma EnlargedWindowDiffers()
    ensures var ss := [Sighting("t", "k", 0.0, 1.0), Sighting("t", "k", 2.0, 10.0)];
      MemoryAnswer(MemoryAfter(ss[..1]), ss[1]) && !RedisAnswer(RedisAfter(ss[..1]), ss[1])
  {
    var ss := [Sighting("t", "k", 0.0, 1.0), Sighting("t", "k", 2.0, 10.0)];
    MemoryIsLastSighting(ss[..1], ss[1]);
    assert LastSighting(ss[..1], ss[1]) == Some(ss[0]);
    BackendsAgree(ss, 1);
  }

  /** Without sanitizing, two different alerts share one Redis key. */
  lemma UnsanitizedTenantsCollide()
    ensures RedisKey("a:b", "c") == RedisKey("a", "b:c")
  {
    assert "a:b" + ":" + "c" == "a" + ":" + "b:c";
  }
}
