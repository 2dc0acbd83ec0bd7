/** The bounded TTL cache in front of the enrichment providers (`_cache_get` and `_cache_set` of
    enrichment/providers.py). A Python dict keeps insertion order, which the stable sort of the
    eviction pass can observe, so the dict is a sequence of slots with distinct keys. */
module LookupCache {
  import opened Wrappers

  const TTL := 3600.0
  const MAX_ENTRIES := 5000

  /** A provider and what it was asked. */
  datatype Key = Key(provider: string, indicator: string)

  /** A provider's answer, which the cache never looks into. */
  type Answer = string

  datatype Slot = Slot(key: Key, value: Answer, at: real)

  function Find(cache: seq<Slot>, key: Key): (r: Option<nat>)
    ensures match r
      case None => forall i :: 0 <= i < |cache| ==> cache[i].key != key
      case Some(i) => i < |cache| && cache[i].key == key
  {
    if cache == [] then None
    else if cache[|cache| - 1].key == key then Some(|cache| - 1)
    else Find(cache[..|cache| - 1], key)
  }

  /** `d[key] = (value, at)`: an existing key keeps its position. */
  function Put(cache: seq<Slot>, key: Key, value: Answer, at: real): seq<Slot> {
    match Find(cache, key)
    case None => cache + [Slot(key, value, at)]
    case Some(i) => cache[i := Slot(key, value, at)]
  }

  /** The slots whose keys are not among `keys`, in order. */
  function Minus(cache: seq<Slot>, keys: seq<Key>): seq<Slot> {
    if cache == [] then []
    else
      var rest := Minus(cache[..|cache| - 1], keys);
      var last := cache[|cache| - 1];
      if last.key in keys then rest else rest + [last]
  }

  /** The keys older than the TTL, in order. */
  function Expired(cache: seq<Slot>, now: real): seq<Key> {
    if cache == [] then []
    else
      var rest := Expired(cache[..|cache| - 1], now);
      var last := cache[|cache| - 1];
      if now - last.at > TTL then rest + [last.key] else rest
  }

  function InsertByAge(sorted: seq<Slot>, s: Slot): seq<Slot> {
    if sorted != [] && sorted[|sorted| - 1].at > s.at
    then InsertByAge(sorted[..|sorted| - 1], s) + [sorted[|sorted| - 1]]
    else sorted + [s]
  }

  /** `sorted(items, key=cached_at)`, which is stable. */
  function SortByAge(cache: seq<Slot>): (r: seq<Slot>)
  {
    if cache == [] then [] else InsertByAge(SortByAge(cache[..|cache| - 1]), cache[|cache| - 1])
  }

  function Keys(cache: seq<Slot>): (r: seq<Key>)
    ensures |r| == |cache| && forall i :: 0 <= i < |r| ==> r[i] == cache[i].key
  {
    seq(|cache|, i requires 0 <= i < |cache| => cache[i].key)
  }

  function Take<T>(xs: seq<T>, n: int): seq<T> {
    if n <= 0 then [] else if n >= |xs| then xs else xs[..n]
  }

  /** The pass that follows an insertion. */
  function Evicted(cache: seq<Slot>, now: real): seq<Slot> {
    if |cache| <= MAX_ENTRIES then cache
    else
      var swept := Minus(cache, Expired(cache, now));
      if |swept| <= MAX_ENTRIES then swept
      else Minus(swept, Keys(Take(SortByAge(swept), |swept| - MAX_ENTRIES)))
  }

  function GetResult(cache: seq<Slot>, key: Key, now: real): (seq<Slot>, Option<Answer>) {
    match Find(cache, key)
    case None => (cache, None)
    case Some(i) =>
      if now - cache[i].at > TTL then (Minus(cache, [key]), None) else (cache, Some(cache[i].value))
  }

  class Cache {
    var slots: seq<Slot>

    constructor ()
      ensures slots == []
    {
      slots := [];
    }

    method Get(key: Key, now: real) returns (r: Option<Answer>)
      modifies this
      ensures (slots, r) == GetResult(old(slots), key, now)
    {
      match Find(slots, key) {
        case None =>
          return None;
        case Some(i) =>
          var slot := slots[i];
          if now - slot.at > TTL {
            slots := Minus(slots, [key]);
            return None;
          }
          return Some(slot.value);
      }
    }

    method DeleteAll(keys: seq<Key>)
      modifies this
      ensures slots == Minus(old(slots), keys)
    {
      MinusNothing(slots);
      for i := 0 to |keys|
        invariant slots == Minus(old(slots), keys[..i])
      {
        MinusTwice(old(slots), keys[..i], [keys[i]]);
        assert keys[..i + 1] == keys[..i] + [keys[i]];
        slots := Minus(slots, [keys[i]]);
      }
      assert keys[..|keys|] == keys;
    }

    /** `stamp` and `now` are the two clock readings of the call. */
    method Set(key: Key, value: Answer, stamp: real, now: real)
      modifies this
      ensures slots == Evicted(Put(old(slots), key, value, stamp), now)
    {
      slots := Put(slots, key, value, stamp);
      if |slots| <= MAX_ENTRIES {
        return;
      }
      DeleteAll(Expired(slots, now));
      if |slots| > MAX_ENTRIES {
        var oldestFirst := SortByAge(slots);
        DeleteAll(Keys(Take(oldestFirst, |slots| - MAX_ENTRIES)));
      }
    }
  }

  lemma {:induction false} MinusNothing(cache: seq<Slot>)
    ensures Minus(cache, []) == cache
  {
    if cache != [] {
      MinusNothing(cache[..|cache| - 1]);
      assert cache == cache[..|cache| - 1] + [cache[|cache| - 1]];
    }
  }

  lemma {:induction false} MinusTwice(cache: seq<Slot>, a: seq<Key>, b: seq<Key>)
    ensures Minus(Minus(cache, a), b) == Minus(cache, a + b)
  {
    if cache != [] {
      MinusTwice(cache[..|cache| - 1], a, b);
    }
  }

  // ----- what one call keeps

  ghost predicate DistinctKeys(cache: seq<Slot>) {
    forall i, j :: 0 <= i < j < |cache| ==> cache[i].key != cache[j].key
  }

  ghost predicate StampedBy(cache: seq<Slot>, now: real) {
    forall i :: 0 <= i < |cache| ==> cache[i].at <= now
  }

  ghost predicate Valid(cache: seq<Slot>, now: real) {
    DistinctKeys(cache) && StampedBy(cache, now) && |cache| <= MAX_ENTRIES
  }

  lemma {:induction false} MinusMembers(cache: seq<Slot>, keys: seq<Key>)
    ensures forall s :: s in Minus(cache, keys) <==> s in cache && s.key !in keys
    ensures |Minus(cache, keys)| <= |cache|
  {
    if cache != [] {
      var n := |cache| - 1;
      MinusMembers(cache[..n], keys);
      assert forall s :: s in cache <==> s in cache[..n] || s == cache[n];
    }
  }

  lemma {:induction false} MinusDistinct(cache: seq<Slot>, keys: seq<Key>)
    requires DistinctKeys(cache)
    ensures DistinctKeys(Minus(cache, keys))
  {
    if cache != [] {
      var n := |cache| - 1;
      MinusDistinct(cache[..n], keys);
      MinusMembers(cache[..n], keys);
      var rest := Minus(cache[..n], keys);
      forall i | 0 <= i < |rest|
        ensures rest[i].key != cache[n].key
      {
        assert rest[i] in rest && rest[i] in cache[..n];
      }
    }
  }

  /** Deleting one present key shrinks the dict by one. */
  lemma {:induction false} MinusOneShrinks(cache: seq<Slot>, s: Slot)
    requires DistinctKeys(cache) && s in cache
    ensures |Minus(cache, [s.key])| == |cache| - 1
  {
    var n := |cache| - 1;
    if cache[n].key == s.key {
      AbsentStays(cache[..n], s.key);
    } else {
      assert s in cache[..n];
      MinusOneShrinks(cache[..n], s);
    }
  }

  lemma {:induction false} AbsentStays(cache: seq<Slot>, key: Key)
    requires forall i :: 0 <= i < |cache| ==> cache[i].key != key
    ensures Minus(cache, [key]) == cache
  {
    if cache != [] {
      AbsentStays(cache[..|cache| - 1], key);
      assert cache == cache[..|cache| - 1] + [cache[|cache| - 1]];
    }
  }

  lemma {:induction false} ExpiredMembers(cache: seq<Slot>, now: real)
    ensures forall k :: k in Expired(cache, now) <==> exists i :: 0 <= i < |cache| && cache[i].key == k && now - cache[i].at > TTL
  {
    if cache != [] {
      ExpiredMembers(cache[..|cache| - 1], now);
    }
  }

  lemma {:induction false} InsertMembers(sorted: seq<Slot>, s: Slot)
    ensures |InsertByAge(sorted, s)| == |sorted| + 1
    ensures forall x :: x in InsertByAge(sorted, s) <==> x in sorted || x == s
  {
    if sorted != [] && sorted[|sorted| - 1].at > s.at {
      var n := |sorted| - 1;
      InsertMembers(sorted[..n], s);
      assert forall x :: x in sorted <==> x in sorted[..n] || x == sorted[n];
    }
  }

  ghost predicate OldestFirst(s: seq<Slot>) {
    forall i, j :: 0 <= i <= j < |s| ==> s[i].at <= s[j].at
  }

  lemma {:induction false} InsertSorted(sorted: seq<Slot>, s: Slot)
    requires OldestFirst(sorted)
    ensures OldestFirst(InsertByAge(sorted, s))
  {
    if sorted != [] && sorted[|sorted| - 1].at > s.at {
      var n := |sorted| - 1;
      InsertSorted(sorted[..n], s);
      InsertMembers(sorted[..n], s);
      var r := InsertByAge(sorted[..n], s);
      forall i | 0 <= i < |r|
        ensures r[i].at <= sorted[n].at
      {
        assert r[i] in r;
        if r[i] in sorted[..n] {
          assert r[i] in sorted;
        }
      }
    }
  }

  lemma {:induction false} SortFacts(cache: seq<Slot>)
    ensures |SortByAge(cache)| == |cache| && OldestFirst(SortByAge(cache))
    ensures forall x :: x in SortByAge(cache) <==> x in cache
  {
    if cache != [] {
      var n := |cache| - 1;
      SortFacts(cache[..n]);
      InsertSorted(SortByAge(cache[..n]), cache[n]);
      InsertMembers(SortByAge(cache[..n]), cache[n]);
      assert forall x :: x in cache <==> x in cache[..n] || x == cache[n];
    }
  }

  /** In a full dict whose last slot is the newest, the victim is one of the oldest slots and not the last. */
  lemma VictimIsOldest(cache: seq<Slot>)
    requires |cache| >= 2 && DistinctKeys(cache) && StampedBy(cache, cache[|cache| - 1].at)
    ensures |SortByAge(cache)| == |cache|
    ensures var v := SortByAge(cache)[0];
      && v in cache && v.key != cache[|cache| - 1].key
      && forall s :: s in cache ==> v.at <= s.at
  {
    var n := |cache| - 1;
    SortFacts(cache);
    SortFacts(cache[..n]);
    var sorted := SortByAge(cache[..n]);
    NewestSortsLast(sorted, cache[n]) by {
      forall x | x in sorted
        ensures x.at <= cache[n].at
      {
        assert x in cache[..n] && x in cache;
      }
    }
    assert SortByAge(cache)[0] == sorted[0];
    assert sorted[0] in sorted && sorted[0] in cache[..n];
    var k :| 0 <= k < n && cache[k] == sorted[0];
    forall s | s in cache
      ensures sorted[0].at <= s.at
    {
      assert s in SortByAge(cache);
    }
  }

  lemma NewestSortsLast(sorted: seq<Slot>, s: Slot)
    requires forall x :: x in sorted ==> x.at <= s.at
    ensures InsertByAge(sorted, s) == sorted + [s]
  {
  }

  lemma {:induction false} MinusAllKept(cache: seq<Slot>, keys: seq<Key>)
    requires |Minus(cache, keys)| == |cache|
    ensures Minus(cache, keys) == cache
  {
    if cache != [] {
      var n := |cache| - 1;
      MinusMembers(cache[..n], keys);
      MinusAllKept(cache[..n], keys);
      assert cache == cache[..n] + [cache[n]];
    }
  }

  // ----- one call against the slots that were there

  lemma PutFacts(cache: seq<Slot>, key: Key, value: Answer, stamp: real)
    requires Valid(cache, stamp)
    ensures var put := Put(cache, key, value, stamp);
      && DistinctKeys(put) && StampedBy(put, stamp)
      && (forall s :: s in put <==> s == Slot(key, value, stamp) || (s in cache && s.key != key))
      && |put| <= MAX_ENTRIES + 1
      && (|put| == MAX_ENTRIES + 1 ==> put[|put| - 1] == Slot(key, value, stamp))
  {
    var put := Put(cache, key, value, stamp);
    match Find(cache, key)
    case None =>
    case Some(i) =>
      forall s | s in put
        ensures s == Slot(key, value, stamp) || (s in cache && s.key != key)
      {
        var j :| 0 <= j < |put| && put[j] == s;
      }
      forall s | s in cache && s.key != key
        ensures s in put
      {
        var j :| 0 <= j < |cache| && cache[j] == s;
        assert put[j] == s;
      }
      assert put[i] == Slot(key, value, stamp);
  }

  /** Every slot of `before` that is gone from `after` had expired, or was pushed out of a dict left full of
      slots at least as new. */
  ghost predicate LossExplained(before: seq<Slot>, after: seq<Slot>, now: real) {
    forall s :: s in before && s !in after ==> now - s.at > TTL || FullSince(after, s.at)
  }

  ghost predicate FullSince(cache: seq<Slot>, t: real) {
    |cache| == 5000 && forall o :: o in cache ==> o.at >= t
  }

  lemma SweepFacts(cache: seq<Slot>, now: real)
    requires DistinctKeys(cache)
    ensures var swept := Minus(cache, Expired(cache, now));
      && DistinctKeys(swept) && |swept| <= |cache|
      && (forall s :: s in swept <==> s in cache && now - s.at <= TTL)
  {
    ExpiredMembers(cache, now);
    MinusMembers(cache, Expired(cache, now));
    MinusDistinct(cache, Expired(cache, now));
    forall s | s in cache
      ensures s.key in Expired(cache, now) <==> now - s.at > TTL
    {
      var i :| 0 <= i < |cache| && cache[i] == s;
    }
  }

  lemma OverflowFacts(cache: seq<Slot>)
    requires |cache| == MAX_ENTRIES + 1 && DistinctKeys(cache) && StampedBy(cache, cache[|cache| - 1].at)
    ensures var after := Minus(cache, Keys(Take(SortByAge(cache), 1)));
      && DistinctKeys(after) && |after| == MAX_ENTRIES && cache[|cache| - 1] in after
      && (forall s :: s in after ==> s in cache)
      && (forall s :: s in cache && s !in after ==> FullSince(after, s.at))
  {
    VictimIsOldest(cache);
    var v := SortByAge(cache)[0];
    assert Keys(Take(SortByAge(cache), 1)) == [v.key];
    MinusMembers(cache, [v.key]);
    MinusDistinct(cache, [v.key]);
    MinusOneShrinks(cache, v);
    forall s | s in cache && s.key == v.key
      ensures s == v
    {
      var i, j :| 0 <= i < |cache| && 0 <= j < |cache| && cache[i] == s && cache[j] == v;
    }
  }

  lemma EvictedFacts(put: seq<Slot>, now: real)
    requires DistinctKeys(put) && |put| <= MAX_ENTRIES + 1
    requires |put| == MAX_ENTRIES + 1 ==> StampedBy(put, put[|put| - 1].at) && now - put[|put| - 1].at <= TTL
    ensures var after := Evicted(put, now);
      && DistinctKeys(after) && |after| <= MAX_ENTRIES
      && (forall s :: s in after ==> s in put)
      && LossExplained(put, after, now)
      && (|put| == MAX_ENTRIES + 1 ==> put[|put| - 1] in after)
  {
    if |put| > MAX_ENTRIES {
      SweepFacts(put, now);
      if |Minus(put, Expired(put, now))| > MAX_ENTRIES {
        FullPass(put, now);
      } else {
        assert put[|put| - 1] in put;
      }
    }
  }

  lemma NothingSwept(put: seq<Slot>, now: real)
    requires |put| == MAX_ENTRIES + 1 && |Minus(put, Expired(put, now))| > MAX_ENTRIES
    ensures Minus(put, Expired(put, now)) == put
  {
    MinusMembers(put, Expired(put, now));
    MinusAllKept(put, Expired(put, now));
  }

  lemma EvictedIsOverflow(put: seq<Slot>, now: real)
    requires |put| == MAX_ENTRIES + 1 && |Minus(put, Expired(put, now))| > MAX_ENTRIES
    ensures Evicted(put, now) == Minus(put, Keys(Take(SortByAge(put), 1)))
  {
    NothingSwept(put, now);
  }

  lemma FullPass(put: seq<Slot>, now: real)
    requires DistinctKeys(put) && |put| == MAX_ENTRIES + 1 && StampedBy(put, put[|put| - 1].at)
    requires |Minus(put, Expired(put, now))| > MAX_ENTRIES
    ensures var after := Evicted(put, now);
      && DistinctKeys(after) && |after| == MAX_ENTRIES
      && (forall s :: s in after ==> s in put)
      && LossExplained(put, after, now)
      && put[|put| - 1] in after
  {
    EvictedIsOverflow(put, now);
    OverflowFacts(put);
  }

  /** One insertion, with less than an hour between its two clock readings: the dict stays within bounds,
      the new slot survives the pass it triggers, nothing else changes, and every loss is explained. */
  lemma SetFacts(cache: seq<Slot>, key: Key, value: Answer, stamp: real, now: real)
    requires Valid(cache, stamp) && stamp <= now && now - stamp <= TTL
    ensures var after := Evicted(Put(cache, key, value, stamp), now);
      && Valid(after, now) && Slot(key, value, stamp) in after
      && (forall s :: s in after ==> s == Slot(key, value, stamp) || (s in cache && s.key != key))
      && (forall s :: s in cache && s.key != key && s !in after ==> now - s.at > TTL || FullSince(after, s.at))
  {
    PutFacts(cache, key, value, stamp);
    var put := Put(cache, key, value, stamp);
    EvictedFacts(put, now);
    var after := Evicted(put, now);
    forall i | 0 <= i < |after|
      ensures after[i].at <= now
    {
      assert after[i] in after && after[i] in put;
    }
  }

  lemma GetFacts(cache: seq<Slot>, key: Key, now: real)
    requires Valid(cache, now)
    ensures var (after, r) := GetResult(cache, key, now);
      && Valid(after, now)
      && (forall s :: s in after ==> s in cache)
      && (forall s :: s in cache && s !in after ==> now - s.at > TTL)
      && (r.Some? <==> exists s :: s in cache && s.key == key && now - s.at <= TTL)
      && (r.Some? ==> exists s :: s in cache && s.key == key && now - s.at <= TTL && s.value == r.value)
  {
    match Find(cache, key)
    case None =>
      forall s | s in cache
        ensures s.key != key
      {
        var i :| 0 <= i < |cache| && cache[i] == s;
      }
    case Some(i) =>
      MinusMembers(cache, [key]);
      MinusDistinct(cache, [key]);
      forall s | s in cache && s.key == key
        ensures s == cache[i]
      {
        var j :| 0 <= j < |cache| && cache[j] == s;
      }
      assert cache[i] in cache;
      var after := GetResult(cache, key, now).0;
      assert forall j :: 0 <= j < |after| ==> after[j] in after;
  }

  // ----- whole runs against an ideal, unbounded map

  datatype Op =
    | Set(key: Key, value: Answer, stamp: real, now: real)
    | Get(key: Key, at: real)
  {
    function Begin(): real {
      if Set? then stamp else at
    }

    function End(): real {
      if Set? then now else at
    }
  }

  /** The clock does not go back, within a call and between calls; no single call takes an hour. */
  ghost predicate MonotoneClock(ops: seq<Op>) {
    && (forall i :: 0 <= i < |ops| ==> 0.0 <= ops[i].End() - ops[i].Begin() <= TTL)
    && (forall i, j :: 0 <= i < j < |ops| ==> ops[i].End() <= ops[j].Begin())
  }

  function Step(cache: seq<Slot>, op: Op): seq<Slot> {
    match op
    case Set(key, value, stamp, now) => Evicted(Put(cache, key, value, stamp), now)
    case Get(key, at) => GetResult(cache, key, at).0
  }

  function After(ops: seq<Op>): seq<Slot> {
    if ops == [] then [] else Step(After(ops[..|ops| - 1]), ops[|ops| - 1])
  }

  /** The ideal map: the value and time of the last set of a key. */
  function LastSet(ops: seq<Op>, key: Key): Option<(Answer, real)> {
    if ops == [] then None
    else
      var last := ops[|ops| - 1];
      if last.Set? && last.key == key then Some((last.value, last.stamp)) else LastSet(ops[..|ops| - 1], key)
  }

  /** At some moment since the last set of `key`, at time `t`, the dict was full of entries at least as new. */
  ghost predicate PushedOut(ops: seq<Op>, key: Key, t: real) {
    exists n :: 0 < n <= |ops| && LastSet(ops[..n], key) == LastSet(ops, key) && FullSince(After(ops[..n]), t)
  }

  /** What a run keeps for one key at clock `now`: a slot is the last value set; a last value without a
      slot has expired or was pushed out. */
  ghost predicate Tracks(ops: seq<Op>, key: Key, now: real) {
    match LastSet(ops, key)
    case None => forall s :: s in After(ops) ==> s.key != key
    case Some((v, t)) =>
      && (forall s :: s in After(ops) && s.key == key ==> s == Slot(key, v, t))
      && (Slot(key, v, t) in After(ops) || now - t > TTL || PushedOut(ops, key, t))
  }

  /** What an operation does to the slots: a set leaves its own slot as the only one for its key, other
      slots only disappear, and every disappearance is explained. */
  ghost predicate StepExplained(cache: seq<Slot>, op: Op, after: seq<Slot>) {
    && (op.Set? ==> Slot(op.key, op.value, op.stamp) in after)
    && (forall s :: s in after && op.Set? && s.key == op.key ==> s == Slot(op.key, op.value, op.stamp))
    && (forall s :: s in after && !(op.Set? && s.key == op.key) ==> s in cache)
    && (forall s :: s in cache && !(op.Set? && s.key == op.key) && s !in after ==>
          op.End() - s.at > TTL || FullSince(after, s.at))
  }

  lemma StepFacts(cache: seq<Slot>, op: Op)
    requires Valid(cache, op.Begin()) && 0.0 <= op.End() - op.Begin() <= TTL
    ensures Valid(Step(cache, op), op.End())
    ensures StepExplained(cache, op, Step(cache, op))
  {
    match op
    case Set(key, value, stamp, now) => SetFacts(cache, key, value, stamp, now);
    case Get(key, at) => GetFacts(cache, key, at);
  }

  lemma ValidLater(cache: seq<Slot>, t: real, now: real)
    requires Valid(cache, t) && t <= now
    ensures Valid(cache, now)
  {
  }

  /** After every operation of every run the dict has at most 5000 entries, one per key. */
  lemma {:induction false} RunStaysBounded(ops: seq<Op>, now: real)
    requires MonotoneClock(ops) && (ops != [] ==> ops[|ops| - 1].End() <= now)
    ensures Valid(After(ops), now) && |After(ops)| <= 5000
  {
    if ops != [] {
      var n := |ops| - 1;
      RunStaysBounded(ops[..n], ops[n].Begin());
      StepFacts(After(ops[..n]), ops[n]);
      ValidLater(After(ops), ops[n].End(), now);
    }
  }

  lemma PushedOutLater(ops: seq<Op>, key: Key, t: real)
    requires ops != [] && PushedOut(ops[..|ops| - 1], key, t)
    requires LastSet(ops, key) == LastSet(ops[..|ops| - 1], key)
    ensures PushedOut(ops, key, t)
  {
    var m := |ops| - 1;
    var n :| 0 < n <= m && LastSet(ops[..m][..n], key) == LastSet(ops[..m], key) && FullSince(After(ops[..m][..n]), t);
    assert ops[..m][..n] == ops[..n];
  }

  lemma PushedOutNow(ops: seq<Op>, key: Key, t: real)
    requires ops != [] && FullSince(After(ops), t)
    ensures PushedOut(ops, key, t)
  {
    assert ops[..|ops|] == ops;
  }

  lemma {:induction false} RunTracks(ops: seq<Op>, key: Key, now: real)
    requires MonotoneClock(ops) && (ops != [] ==> ops[|ops| - 1].End() <= now)
    ensures Tracks(ops, key, now)
  {
    if ops != [] {
      var n := |ops| - 1;
      var op := ops[n];
      RunTracks(ops[..n], key, op.Begin());
      RunStaysBounded(ops[..n], op.Begin());
      StepFacts(After(ops[..n]), op);
      TracksStep(ops, key, now);
    }
  }

  lemma TracksStep(ops: seq<Op>, key: Key, now: real)
    requires ops != [] && ops[|ops| - 1].Begin() <= ops[|ops| - 1].End() <= now
    requires Tracks(ops[..|ops| - 1], key, ops[|ops| - 1].Begin())
    requires StepExplained(After(ops[..|ops| - 1]), ops[|ops| - 1], After(ops))
    ensures Tracks(ops, key, now)
  {
    var op := ops[|ops| - 1];
    if !(op.Set? && op.key == key) {
      match LastSet(ops, key)
      case None =>
      case Some((v, t)) =>
        var slot := Slot(key, v, t);
        if PushedOut(ops[..|ops| - 1], key, t) {
          PushedOutLater(ops, key, t);
        } else if slot !in After(ops) && now - t <= TTL {
          assert slot in After(ops[..|ops| - 1]);
          PushedOutNow(ops, key, t);
        }
    }
  }

  /** A hit returns the value most recently set for the key, at most an hour old. */
  lemma HitIsLatest(ops: seq<Op>, key: Key, now: real)
    requires MonotoneClock(ops) && (ops != [] ==> ops[|ops| - 1].End() <= now)
    requires GetResult(After(ops), key, now).1.Some?
    ensures var last := LastSet(ops, key);
      last.Some? && last.value.0 == GetResult(After(ops), key, now).1.value && now - last.value.1 <= 3600.0
  {
    RunStaysBounded(ops, now);
    RunTracks(ops, key, now);
    GetFacts(After(ops), key, now);
    var v := GetResult(After(ops), key, now).1.value;
    var s :| s in After(ops) && s.key == key && now - s.at <= TTL && s.value == v;
  }

  /** A fresh value that is missing was pushed out while 5000 entries at least as new were present. */
  lemma MissIsExplained(ops: seq<Op>, key: Key, now: real)
    requires MonotoneClock(ops) && (ops != [] ==> ops[|ops| - 1].End() <= now)
    requires LastSet(ops, key).Some? && now - LastSet(ops, key).value.1 <= 3600.0
    requires GetResult(After(ops), key, now).1 == None
    ensures PushedOut(ops, key, LastSet(ops, key).value.1)
  {
    RunStaysBounded(ops, now);
    RunTracks(ops, key, now);
    GetFacts(After(ops), key, now);
    var last := LastSet(ops, key).value;
    if Slot(key, last.0, last.1) in After(ops) {
      assert false;
    }
  }
}
