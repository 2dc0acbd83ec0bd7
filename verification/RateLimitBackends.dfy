/** The two limiter backends over whole traces (utils/rate_limit.py).

    One name space holds both kinds of Redis value: the counter of key "k" lives under the name of the sorted set
    of key "k:seq". The traces here may contain such keys, and each key has a limit of its own, as the per-client,
    per-tenant and ingestion limits share one store. */
module RateLimitBackends {
  import opened Wrappers
  import opened Strings
  import opened RateLimit
  import opened RateLimitRedis

  function DbAfter(calls: seq<Call>, show: real -> string, limits: string -> int): Db {
    if calls == [] then map[]
    else
      var n := |calls| - 1;
      ScriptStep(DbAfter(calls[..n], show, limits), show, calls[n].key, calls[n].now, limits(calls[n].key)).0
  }

  function RedisReply(calls: seq<Call>, show: real -> string, limits: string -> int, i: nat): Reply
    requires i < |calls|
  {
    ScriptStep(DbAfter(calls[..i], show, limits), show, calls[i].key, calls[i].now, limits(calls[i].key)).1
  }

  function MemoryReply(calls: seq<Call>, limits: string -> int, i: nat): Option<real>
    requires i < |calls|
  {
    Answer(calls, limits(calls[i].key), i)
  }

  ghost predicate Positive(limits: string -> int) {
    forall key :: limits(key) > 0
  }

  // ----- what one key sees of the shared database

  predicate KindFor(key: string, k: string, v: Value) {
    v.ZSet? <==> k == ZKey(key)
  }

  /** The live values of the right kind under the two names of a key. */
  function View(db: Db, key: string, t: real): Db {
    map k | k in {ZKey(key), SeqKey(key)} && k in db && t < db[k].expireAt && KindFor(key, k, db[k]) :: db[k]
  }

  /** A call of `key` would meet a live value of the wrong kind. */
  predicate DbClash(db: Db, key: string, now: real) {
    IsCounter(Lookup(db, ZKey(key), now)) || IsZSet(Lookup(db, SeqKey(key), now))
  }

  lemma NamesDiffer(key: string)
    ensures ZKey(key) != SeqKey(key)
  {
    assert |SeqKey(key)| == |ZKey(key)| + 4;
  }

  /** `v` is what is live and of the right kind under the names `z` and `s`. */
  ghost predicate IsView(v: Db, db: Db, z: string, s: string, now: real) {
    && (forall k :: k in v ==> k == z || k == s)
    && (z in v <==> IsZSet(Lookup(db, z, now))) && (z in v ==> v[z] == db[z])
    && (s in v <==> IsCounter(Lookup(db, s, now))) && (s in v ==> v[s] == db[s])
  }

  lemma ViewIsView(db: Db, key: string, now: real)
    ensures IsView(View(db, key, now), db, ZKey(key), SeqKey(key), now)
  {
    NamesDiffer(key);
  }

  lemma ViewIsUnique(v: Db, db: Db, key: string, now: real)
    requires IsView(v, db, ZKey(key), SeqKey(key), now)
    ensures v == View(db, key, now)
  {
    NamesDiffer(key);
  }

  lemma PruneOnView(v: Db, db: Db, z: string, s: string, now: real)
    requires z != s && IsView(v, db, z, s, now) && !IsCounter(Lookup(db, z, now))
    ensures Entries(v, z, now) == Entries(db, z, now)
    ensures IsView(Pruned(v, z, now), Pruned(db, z, now), z, s, now)
  {
  }

  lemma RecordOnView(v: Db, db: Db, show: real -> string, z: string, s: string, kept: seq<Scored>, now: real)
    requires z != s && IsView(v, db, z, s, now) && !IsZSet(Lookup(db, s, now))
    ensures NextSeq(v, s, now) == NextSeq(db, s, now)
    ensures IsView(Recorded(v, show, z, s, kept, now), Recorded(db, show, z, s, kept, now), z, s, now)
  {
  }

  /** Without a clash the script sees nothing but its view, and what it leaves is what it makes of the view. */
  lemma StepOnView(db: Db, show: real -> string, key: string, now: real, limit: int)
    requires limit > 0 && !DbClash(db, key, now)
    ensures ScriptStep(db, show, key, now, limit).1 == ScriptStep(View(db, key, now), show, key, now, limit).1
    ensures View(ScriptStep(db, show, key, now, limit).0, key, now) == ScriptStep(View(db, key, now), show, key, now, limit).0
  {
    var z, s, v := ZKey(key), SeqKey(key), View(db, key, now);
    NamesDiffer(key);
    ViewIsView(db, key, now);
    PruneOnView(v, db, z, s, now);
    if |Fresh(Entries(db, z, now), now)| < limit {
      RecordOnView(Pruned(v, z, now), Pruned(db, z, now), show, z, s, Fresh(Entries(db, z, now), now), now);
    }
    ViewIsUnique(ScriptStep(v, show, key, now, limit).0, ScriptStep(db, show, key, now, limit).0, key, now);
  }

  lemma OtherKeysUntouched(db: Db, show: real -> string, key: string, now: real, limit: int, k: string)
    requires k != ZKey(key) && k != SeqKey(key)
    ensures var after := ScriptStep(db, show, key, now, limit).0;
      (k in after <==> k in db) && (k in db ==> after[k] == db[k])
  {
  }

  /** What a step of a key that does not clash leaves under its two names. */
  lemma KindsAfterStep(db: Db, show: real -> string, key: string, now: real, limit: int)
    requires limit > 0 && !DbClash(db, key, now)
    ensures var after := ScriptStep(db, show, key, now, limit).0;
      && (ZKey(key) in after ==> after[ZKey(key)].ZSet?)
      && !IsZSet(Lookup(after, SeqKey(key), now))
  {
    NamesDiffer(key);
  }

  lemma NamesMeet(a: string, b: string)
    ensures ZKey(a) == ZKey(b) <==> a == b
    ensures SeqKey(a) == SeqKey(b) <==> a == b
    ensures SeqKey(a) == ZKey(b) <==> b == a + ":seq"
  {
    var p := |"cavendex:ratelimit:"|;
    assert ZKey(a)[p..] == a && ZKey(b)[p..] == b;
    assert SeqKey(a)[p..] == a + ":seq" && SeqKey(b)[p..] == b + ":seq";
    assert SeqKey(a)[..|SeqKey(a)| - 4] == ZKey(a) && SeqKey(b)[..|SeqKey(b)| - 4] == ZKey(b);
    assert ZKey(a + ":seq") == SeqKey(a);
  }

  /** What a key sees under one of its names. */
  function SeenAt(db: Db, key: string, k: string, t: real): Option<Value> {
    if k in db && t < db[k].expireAt && KindFor(key, k, db[k]) then Some(db[k]) else None
  }

  lemma SameSeenSameView(a: Db, b: Db, key: string, t: real)
    requires SeenAt(a, key, ZKey(key), t) == SeenAt(b, key, ZKey(key), t)
    requires SeenAt(a, key, SeqKey(key), t) == SeenAt(b, key, SeqKey(key), t)
    ensures View(a, key, t) == View(b, key, t)
  {
  }

  lemma SetNameUntouched(db: Db, show: real -> string, other: string, key: string, now: real, limit: int)
    requires limit > 0 && other != key && !DbClash(db, other, now)
    ensures SeenAt(ScriptStep(db, show, other, now, limit).0, key, ZKey(key), now) == SeenAt(db, key, ZKey(key), now)
  {
    NamesMeet(other, key);
    if ZKey(key) == SeqKey(other) {
      KindsAfterStep(db, show, other, now, limit);
    } else {
      OtherKeysUntouched(db, show, other, now, limit, ZKey(key));
    }
  }

  lemma CounterNameUntouched(db: Db, show: real -> string, other: string, key: string, now: real, limit: int)
    requires limit > 0 && other != key && !DbClash(db, other, now)
    ensures SeenAt(ScriptStep(db, show, other, now, limit).0, key, SeqKey(key), now) == SeenAt(db, key, SeqKey(key), now)
  {
    NamesMeet(other, key);
    NamesMeet(key, other);
    NamesDiffer(key);
    if SeqKey(key) == ZKey(other) {
      KindsAfterStep(db, show, other, now, limit);
    } else {
      OtherKeysUntouched(db, show, other, now, limit, SeqKey(key));
    }
  }

  /** Such a step leaves the view of every other key alone. */
  lemma OtherViewUntouched(db: Db, show: real -> string, other: string, key: string, now: real, limit: int)
    requires limit > 0 && other != key && !DbClash(db, other, now)
    ensures View(ScriptStep(db, show, other, now, limit).0, key, now) == View(db, key, now)
  {
    SetNameUntouched(db, show, other, key, now, limit);
    CounterNameUntouched(db, show, other, key, now, limit);
    SameSeenSameView(ScriptStep(db, show, other, now, limit).0, db, key, now);
  }

  // ----- what a run keeps, for every key at once

  /** Both of a key's values are live exactly until 61 seconds after its last admission. */
  ghost predicate Alive(v: Db, key: string, last: Option<real>, t: real) {
    var recent := last.Some? && t < last.value + TTL;
    && (ZKey(key) in v <==> recent) && (SeqKey(key) in v <==> recent)
    && (recent ==> v[ZKey(key)].expireAt == last.value + TTL && v[SeqKey(key)].expireAt == last.value + TTL)
  }

  ghost predicate Mirrors(bucket: seq<real>, last: Option<real>, v: Db, show: real -> string, key: string, t: real) {
    Corresponds(bucket, v, show, key, t) && Alive(v, key, last, t)
  }

  /** `v` without what has expired by `now`. */
  function Unexpired(v: Db, now: real): Db {
    map k | k in v && now < v[k].expireAt :: v[k]
  }

  lemma ViewLater(db: Db, key: string, t: real, now: real)
    requires t <= now
    ensures View(db, key, now) == Unexpired(View(db, key, t), now)
  {
  }

  lemma UnexpiredCorresponds(bucket: seq<real>, v: Db, show: real -> string, key: string, now: real)
    requires Corresponds(bucket, v, show, key, now)
    ensures Corresponds(bucket, Unexpired(v, now), show, key, now)
  {
    if ZKey(key) in v && v[ZKey(key)].expireAt <= now {
      RecentNone(Scores(Stored(v, key)), now);
      assert Stored(Unexpired(v, now), key) == [];
    }
  }

  lemma MirrorsLater(bucket: seq<real>, last: Option<real>, db: Db, show: real -> string, key: string, t: real, now: real)
    requires Mirrors(bucket, last, View(db, key, t), show, key, t) && t <= now
    ensures Mirrors(bucket, last, View(db, key, now), show, key, now)
  {
    ViewLater(db, key, t, now);
    CorrespondsLater(bucket, View(db, key, t), show, key, t, now);
    UnexpiredCorresponds(bucket, View(db, key, t), show, key, now);
  }

  lemma AliveStep(v: Db, show: real -> string, key: string, last: Option<real>, now: real, limit: int)
    requires limit > 0 && Alive(v, key, last, now) && WellKept(v, show, key, now)
    requires ScriptStep(v, show, key, now, limit).1 != WrongType
    ensures Alive(ScriptStep(v, show, key, now, limit).0, key,
                  if ScriptStep(v, show, key, now, limit).1 == Admit then Some(now) else last, now)
  {
    NamesDiffer(key);
  }

  function Latest(last: Option<real>, now: real, answer: Option<real>): Option<real> {
    if answer == None then Some(now) else last
  }

  /** The key's own step. */
  lemma OwnStep(bucket: seq<real>, last: Option<real>, db: Db, show: real -> string, key: string, now: real, limit: int)
    requires limit > 0 && |bucket| <= limit && Mirrors(bucket, last, View(db, key, now), show, key, now)
    requires !DbClash(db, key, now) && !BoundaryHit(bucket, now, limit)
    ensures Mirrors(MemoryStep(bucket, now, limit).0, Latest(last, now, MemoryStep(bucket, now, limit).1),
                    View(ScriptStep(db, show, key, now, limit).0, key, now), show, key, now)
  {
    var v := View(db, key, now);
    StepOnView(db, show, key, now, limit);
    StepsAgree(bucket, v, show, key, now, limit);
    StepCorresponds(bucket, v, show, key, now, limit);
    AliveStep(v, show, key, last, now, limit);
  }

  /** When the last admitted call of `key` was. */
  function LastAdmitted(calls: seq<Call>, limit: int, key: string): Option<real> {
    if calls == [] then None
    else
      var n := |calls| - 1;
      var before := LastAdmitted(calls[..n], limit, key);
      if calls[n].key == key then Latest(before, calls[n].now, Answer(calls, limit, n)) else before
  }

  /** Every counter is some key's. */
  ghost predicate Shaped(db: Db) {
    forall k :: k in db && db[k].Counter? ==> exists key :: k == SeqKey(key)
  }

  lemma ShapedStep(db: Db, show: real -> string, key: string, now: real, limit: int)
    requires Shaped(db)
    ensures Shaped(ScriptStep(db, show, key, now, limit).0)
  {
    var after := ScriptStep(db, show, key, now, limit).0;
    forall k | k in after && after[k].Counter?
      ensures exists key :: k == SeqKey(key)
    {
      if k != SeqKey(key) {
        assert k in db && db[k] == after[k];
      }
    }
  }

  ghost predicate KeyMirrors(calls: seq<Call>, db: Db, show: real -> string, limits: string -> int, key: string, t: real) {
    Mirrors(BucketAfter(calls, limits(key), key), LastAdmitted(calls, limits(key), key), View(db, key, t), show, key, t)
  }

  ghost predicate AllMirror(calls: seq<Call>, db: Db, show: real -> string, limits: string -> int, t: real) {
    Shaped(db) && forall key :: KeyMirrors(calls, db, show, limits, key, t)
  }

  // ----- when keys clash

  predicate Clashing(a: string, b: string) {
    a == b + ":seq" || b == a + ":seq"
  }

  /** `key` was admitted less than 61 seconds before `now`. */
  predicate Recently(calls: seq<Call>, limits: string -> int, key: string, now: real) {
    LastAdmitted(calls, limits(key), key).Some? && now < LastAdmitted(calls, limits(key), key).value + TTL
  }

  lemma ClashHasKey(calls: seq<Call>, db: Db, show: real -> string, limits: string -> int, key: string, now: real) returns (other: string)
    requires AllMirror(calls, db, show, limits, now) && DbClash(db, key, now)
    ensures Clashing(other, key) && Recently(calls, limits, other, now)
  {
    if IsCounter(Lookup(db, ZKey(key), now)) {
      other :| ZKey(key) == SeqKey(other);
      NamesMeet(other, key);
      NamesDiffer(other);
      assert SeqKey(other) in View(db, other, now);
    } else {
      other := key + ":seq";
      NamesMeet(key, other);
      assert ZKey(other) in View(db, other, now);
    }
    assert KeyMirrors(calls, db, show, limits, other, now);
  }

  lemma KeyMakesClash(calls: seq<Call>, db: Db, show: real -> string, limits: string -> int, key: string, now: real, other: string)
    requires AllMirror(calls, db, show, limits, now) && Clashing(other, key) && Recently(calls, limits, other, now)
    ensures DbClash(db, key, now)
  {
    assert KeyMirrors(calls, db, show, limits, other, now);
    NamesMeet(other, key);
    NamesMeet(key, other);
    NamesDiffer(other);
    assert SeqKey(other) in View(db, other, now) && ZKey(other) in View(db, other, now);
  }

  /** A clash, seen by the two backends: memory never fails, the script does. */
  lemma ClashIsWrongType(calls: seq<Call>, db: Db, show: real -> string, limits: string -> int, key: string, now: real)
    requires Positive(limits) && AllMirror(calls, db, show, limits, now) && DbClash(db, key, now)
    ensures ScriptStep(db, show, key, now, limits(key)).1 == WrongType
  {
    assert KeyMirrors(calls, db, show, limits, key, now);
    NamesDiffer(key);
    if !IsCounter(Lookup(db, ZKey(key), now)) {
      assert SeqKey(key) !in View(db, key, now) && ZKey(key) !in View(db, key, now);
      assert Entries(db, ZKey(key), now) == [];
    }
  }

  // ----- the two conditions, in the terms a caller sees

  /** Call `i` meets a full window whose oldest entry is exactly 60 seconds old. */
  predicate Boundary(calls: seq<Call>, limits: string -> int, i: nat)
    requires i < |calls|
  {
    BoundaryHit(BucketAfter(calls[..i], limits(calls[i].key), calls[i].key), calls[i].now, limits(calls[i].key))
  }

  predicate AdmittedWithin(calls: seq<Call>, limits: string -> int, j: nat, now: real)
    requires j < |calls|
  {
    MemoryReply(calls, limits, j) == None && now < calls[j].now + TTL
  }

  /** Call `i` comes less than 61 seconds after an admitted call of a key that is its own plus ":seq", or of
      which its own is. */
  ghost predicate LiveClash(calls: seq<Call>, limits: string -> int, i: nat)
    requires i < |calls|
  {
    exists j :: 0 <= j < i && Clashing(calls[j].key, calls[i].key) && AdmittedWithin(calls, limits, j, calls[i].now)
  }

  ghost predicate Untroubled(calls: seq<Call>, limits: string -> int, i: nat)
    requires i < |calls|
  {
    !Boundary(calls, limits, i) && !LiveClash(calls, limits, i)
  }

  lemma {:induction false} LastAdmittedIsLatest(calls: seq<Call>, limit: int, key: string)
    requires Chronological(calls)
    ensures match LastAdmitted(calls, limit, key)
      case None => forall j :: 0 <= j < |calls| && calls[j].key == key ==> Answer(calls, limit, j).Some?
      case Some(t) =>
        && (exists j :: 0 <= j < |calls| && calls[j].key == key && Answer(calls, limit, j) == None && calls[j].now == t)
        && forall j :: 0 <= j < |calls| && calls[j].key == key && Answer(calls, limit, j) == None ==> calls[j].now <= t
  {
    if calls != [] {
      var n := |calls| - 1;
      LastAdmittedIsLatest(calls[..n], limit, key);
      AnswerInPrefix(calls, limit, n);
    }
  }

  lemma AnswerInPrefix(calls: seq<Call>, limit: int, n: nat)
    requires n <= |calls|
    ensures forall j :: 0 <= j < n ==> Answer(calls[..n], limit, j) == Answer(calls, limit, j)
  {
    forall j | 0 <= j < n
      ensures Answer(calls[..n], limit, j) == Answer(calls, limit, j)
    {
      assert calls[..n][..j] == calls[..j];
    }
  }

  lemma RepliesInPrefix(calls: seq<Call>, limits: string -> int, n: nat)
    requires n <= |calls|
    ensures forall j :: 0 <= j < n ==> MemoryReply(calls[..n], limits, j) == MemoryReply(calls, limits, j)
  {
    forall j | 0 <= j < n
      ensures MemoryReply(calls[..n], limits, j) == MemoryReply(calls, limits, j)
    {
      AnswerInPrefix(calls, limits(calls[j].key), n);
    }
  }

  lemma RecentlyIsCall(calls: seq<Call>, limits: string -> int, i: nat, key: string)
    requires Chronological(calls) && i < |calls|
    ensures Recently(calls[..i], limits, key, calls[i].now) <==>
      exists j :: 0 <= j < i && calls[j].key == key && AdmittedWithin(calls, limits, j, calls[i].now)
  {
    LastAdmittedIsLatest(calls[..i], limits(key), key);
    AnswerInPrefix(calls, limits(key), i);
    if Recently(calls[..i], limits, key, calls[i].now) {
      var j :| 0 <= j < i && calls[..i][j].key == key && Answer(calls[..i], limits(key), j) == None
               && calls[..i][j].now == LastAdmitted(calls[..i], limits(key), key).value;
      assert calls[j] == calls[..i][j] && AdmittedWithin(calls, limits, j, calls[i].now);
    }
    if j :| 0 <= j < i && calls[j].key == key && AdmittedWithin(calls, limits, j, calls[i].now) {
      assert calls[j] == calls[..i][j] && Answer(calls[..i], limits(key), j) == None;
    }
  }

  lemma ClashIsLive(calls: seq<Call>, db: Db, show: real -> string, limits: string -> int, i: nat)
    requires Chronological(calls) && i < |calls| && AllMirror(calls[..i], db, show, limits, calls[i].now)
    ensures DbClash(db, calls[i].key, calls[i].now) <==> LiveClash(calls, limits, i)
  {
    if DbClash(db, calls[i].key, calls[i].now) {
      var other := ClashHasKey(calls[..i], db, show, limits, calls[i].key, calls[i].now);
      RecentlyIsCall(calls, limits, i, other);
    }
    if j :| 0 <= j < i && Clashing(calls[j].key, calls[i].key) && AdmittedWithin(calls, limits, j, calls[i].now) {
      RecentlyIsCall(calls, limits, i, calls[j].key);
      KeyMakesClash(calls[..i], db, show, limits, calls[i].key, calls[i].now, calls[j].key);
    }
  }

  // ----- whole traces

  lemma KeyMirrorsStep(calls: seq<Call>, db: Db, show: real -> string, limits: string -> int, key: string)
    requires Positive(limits) && Chronological(calls) && calls != []
    requires KeyMirrors(calls[..|calls| - 1], db, show, limits, key, calls[|calls| - 1].now)
    requires !Boundary(calls, limits, |calls| - 1) && !DbClash(db, calls[|calls| - 1].key, calls[|calls| - 1].now)
    ensures KeyMirrors(calls, ScriptStep(db, show, calls[|calls| - 1].key, calls[|calls| - 1].now, limits(calls[|calls| - 1].key)).0, show, limits, key,
                       calls[|calls| - 1].now)
  {
    var n := |calls| - 1;
    var now := calls[n].now;
    if calls[n].key == key {
      RunKeeps(calls[..n], limits(key), key, now);
      OwnStep(BucketAfter(calls[..n], limits(key), key), LastAdmitted(calls[..n], limits(key), key), db, show, key, now, limits(key));
    } else {
      OtherViewUntouched(db, show, calls[n].key, key, now, limits(calls[n].key));
    }
  }

  lemma EmptyMirrors(show: real -> string, limits: string -> int, t: real)
    ensures AllMirror([], map[], show, limits, t)
  {
    forall key
      ensures KeyMirrors([], map[], show, limits, key, t)
    {
      assert View(map[], key, t) == map[];
      assert Stored(map[], key) == [];
    }
  }

  lemma AllMirrorLater(calls: seq<Call>, db: Db, show: real -> string, limits: string -> int, t: real, now: real)
    requires AllMirror(calls, db, show, limits, t) && t <= now
    ensures AllMirror(calls, db, show, limits, now)
  {
    forall key
      ensures KeyMirrors(calls, db, show, limits, key, now)
    {
      assert KeyMirrors(calls, db, show, limits, key, t);
      MirrorsLater(BucketAfter(calls, limits(key), key), LastAdmitted(calls, limits(key), key), db, show, key, t, now);
    }
  }

  lemma AllMirrorStep(calls: seq<Call>, db: Db, show: real -> string, limits: string -> int)
    requires Positive(limits) && Chronological(calls) && calls != [] && Untroubled(calls, limits, |calls| - 1)
    requires AllMirror(calls[..|calls| - 1], db, show, limits, calls[|calls| - 1].now)
    ensures AllMirror(calls, ScriptStep(db, show, calls[|calls| - 1].key, calls[|calls| - 1].now, limits(calls[|calls| - 1].key)).0, show, limits,
                      calls[|calls| - 1].now)
  {
    var n := |calls| - 1;
    ClashIsLive(calls, db, show, limits, n);
    ShapedStep(db, show, calls[n].key, calls[n].now, limits(calls[n].key));
    forall key
      ensures KeyMirrors(calls, ScriptStep(db, show, calls[n].key, calls[n].now, limits(calls[n].key)).0, show, limits, key, calls[n].now)
    {
      KeyMirrorsStep(calls, db, show, limits, key);
    }
  }

  lemma UntroubledInPrefix(calls: seq<Call>, limits: string -> int, n: nat, i: nat)
    requires i < n <= |calls|
    ensures Untroubled(calls[..n], limits, i) <==> Untroubled(calls, limits, i)
  {
    assert calls[..n][..i] == calls[..i];
    RepliesInPrefix(calls, limits, n);
    assert forall j :: 0 <= j < i ==>
      (AdmittedWithin(calls[..n], limits, j, calls[i].now) <==> AdmittedWithin(calls, limits, j, calls[i].now));
  }

  lemma {:induction false} RunMirrors(calls: seq<Call>, show: real -> string, limits: string -> int, last: real)
    requires Positive(limits) && Chronological(calls) && forall i :: 0 <= i < |calls| ==> Untroubled(calls, limits, i)
    requires calls != [] ==> calls[|calls| - 1].now <= last
    ensures AllMirror(calls, DbAfter(calls, show, limits), show, limits, last)
  {
    if calls == [] {
      EmptyMirrors(show, limits, last);
    } else {
      var n := |calls| - 1;
      forall i | 0 <= i < n
        ensures Untroubled(calls[..n], limits, i)
      {
        UntroubledInPrefix(calls, limits, n, i);
      }
      RunMirrors(calls[..n], show, limits, calls[n].now);
      AllMirrorStep(calls, DbAfter(calls[..n], show, limits), show, limits);
      AllMirrorLater(calls, DbAfter(calls, show, limits), show, limits, calls[n].now, last);
    }
  }

  /** After any agreement so far, the next call gets the same answer and retry value from both backends if and only
      if it neither meets a full window whose oldest entry is exactly 60 seconds old nor comes less than 61 seconds
      after an admitted call of a clashing key. */
  lemma CallAgrees(calls: seq<Call>, show: real -> string, limits: string -> int, i: nat)
    requires Positive(limits) && Chronological(calls) && i < |calls|
    requires forall m :: 0 <= m < i ==> Untroubled(calls, limits, m)
    ensures Matches(RedisReply(calls, show, limits, i), MemoryReply(calls, limits, i)) <==> Untroubled(calls, limits, i)
  {
    var key, now := calls[i].key, calls[i].now;
    var db := DbAfter(calls[..i], show, limits);
    forall m | 0 <= m < i
      ensures Untroubled(calls[..i], limits, m)
    {
      UntroubledInPrefix(calls, limits, i, m);
    }
    RunMirrors(calls[..i], show, limits, now);
    ClashIsLive(calls, db, show, limits, i);
    if DbClash(db, key, now) {
      ClashIsWrongType(calls[..i], db, show, limits, key, now);
    } else {
      assert KeyMirrors(calls[..i], db, show, limits, key, now);
      StepOnView(db, show, key, now, limits(key));
      RunKeeps(calls[..i], limits(key), key, now);
      StepsAgree(BucketAfter(calls[..i], limits(key), key), View(db, key, now), show, key, now, limits(key));
    }
  }

  /** The claimed interchangeability, exactly, for every chronological trace over any keys: the Redis and in-memory
      limiters give identical answers and retry values to every call if and only if no call meets either condition. */
  lemma BackendsInterchangeable(calls: seq<Call>, show: real -> string, limits: string -> int)
    requires Positive(limits) && Chronological(calls)
    ensures (forall i :: 0 <= i < |calls| ==> Matches(RedisReply(calls, show, limits, i), MemoryReply(calls, limits, i)))
       <==> (forall i :: 0 <= i < |calls| ==> Untroubled(calls, limits, i))
  {
    if forall i :: 0 <= i < |calls| ==> Untroubled(calls, limits, i) {
      forall i | 0 <= i < |calls|
        ensures Matches(RedisReply(calls, show, limits, i), MemoryReply(calls, limits, i))
      {
        CallAgrees(calls, show, limits, i);
      }
    }
    if forall i :: 0 <= i < |calls| ==> Matches(RedisReply(calls, show, limits, i), MemoryReply(calls, limits, i)) {
      for n := 0 to |calls|
        invariant forall i :: 0 <= i < n ==> Untroubled(calls, limits, i)
      {
        CallAgrees(calls, show, limits, n);
        assert Matches(RedisReply(calls, show, limits, n), MemoryReply(calls, limits, n));
      }
    }
  }

  lemma {:induction false} BucketFromCalls(calls: seq<Call>, limit: int, key: string, n: nat, t: real) returns (i: nat)
    requires limit > 0 && n <= |calls| && t in BucketAfter(calls[..n], limit, key)
    ensures i < n && calls[i].key == key && calls[i].now == t && Answer(calls, limit, i) == None
    decreases n
  {
    assert calls[..n][..n - 1] == calls[..n - 1];
    var before := BucketAfter(calls[..n - 1], limit, key);
    if t in before {
      i := BucketFromCalls(calls, limit, key, n - 1, t);
    } else {
      PruneSplits(before, calls[n - 1].now);
      assert forall x :: x in Prune(before, calls[n - 1].now) ==> x in before;
      i := n - 1;
    }
  }

  /** In the terms a caller sees: no call falls exactly 60 seconds after one admitted for its key, and none less than
      61 seconds after one admitted for a clashing key. */
  lemma NoExactMinuteSuffices(calls: seq<Call>, show: real -> string, limits: string -> int)
    requires Positive(limits) && Chronological(calls)
    requires forall i, j :: 0 <= i < j < |calls| && calls[i].key == calls[j].key && MemoryReply(calls, limits, i) == None
               ==> calls[j].now != calls[i].now + WINDOW
    requires forall i :: 0 <= i < |calls| ==> !LiveClash(calls, limits, i)
    ensures forall i :: 0 <= i < |calls| ==> Matches(RedisReply(calls, show, limits, i), MemoryReply(calls, limits, i))
  {
    forall j | 0 <= j < |calls|
      ensures Untroubled(calls, limits, j)
    {
      var key, now := calls[j].key, calls[j].now;
      var bucket := BucketAfter(calls[..j], limits(key), key);
      PruneSplits(bucket, now);
      if Boundary(calls, limits, j) {
        var t := Prune(bucket, now)[0];
        assert t in bucket;
        var i := BucketFromCalls(calls, limits(key), key, j, t);
      }
    }
    BackendsInterchangeable(calls, show, limits);
  }

  // ----- where the claim fails, by example

  lemma OneCall(key: string, limits: string -> int)
    requires Positive(limits)
    ensures Untroubled([Call(key, 0.0)], limits, 0) && MemoryReply([Call(key, 0.0)], limits, 0) == None
    ensures BucketAfter([Call(key, 0.0)], limits(key), key) == [0.0]
  {
    var calls := [Call(key, 0.0)];
    assert calls[..0] == [];
    assert BucketAfter([], limits(key), key) == [];
  }

  /** Exactly 60 seconds after the only admission of a limit of one, memory rejects and Redis admits. */
  lemma ExactMinuteDiffers(show: real -> string, limits: string -> int, key: string)
    requires Positive(limits) && limits(key) == 1
    ensures var calls := [Call(key, 0.0), Call(key, 60.0)];
      MemoryReply(calls, limits, 1) == Some(1.0) && RedisReply(calls, show, limits, 1) == Admit
  {
    var calls, first := [Call(key, 0.0), Call(key, 60.0)], [Call(key, 0.0)];
    assert calls[..1] == first;
    OneCall(key, limits);
    RunMirrors(first, show, limits, 60.0);
    var db := DbAfter(first, show, limits);
    assert KeyMirrors(first, db, show, limits, key, 60.0);
    assert BoundaryHit([0.0], 60.0, 1);
    assert !Clashing(key, key) by { assert |key + ":seq"| == |key| + 4; }
    ClashIsLive(calls, db, show, limits, 1);
    StepOnView(db, show, key, 60.0, 1);
    StepsAgree([0.0], View(db, key, 60.0), show, key, 60.0, 1);
  }

  /** `tenant-global:{tenant_id}`, with the tenant as it stands in the request path. */
  function TenantGlobalKey(tenantId: string): string {
    "tenant-global:" + tenantId
  }

  lemma LongerKeyAnswers(key: string, now: real, limits: string -> int)
    requires Positive(limits)
    ensures MemoryReply([Call(key, 0.0), Call(key + ":seq", now)], limits, 1) == None
  {
    var calls := [Call(key, 0.0), Call(key + ":seq", now)];
    assert calls[..1] == [Call(key, 0.0)] && calls[..1][..0] == [];
    assert |key + ":seq"| == |key| + 4;
    assert BucketAfter(calls[..1], limits(key + ":seq"), key + ":seq") == [];
  }

  /** Under any limits, a request of tenant "x:seq" less than 61 seconds after one of tenant "x" makes Redis fail where
      memory admits; from 61 seconds on the two agree. */
  lemma SeqClashFails(show: real -> string, tenantId: string, now: real, limits: string -> int)
    requires Positive(limits) && now >= 0.0
    ensures var calls := [Call(TenantGlobalKey(tenantId), 0.0), Call(TenantGlobalKey(tenantId + ":seq"), now)];
      && MemoryReply(calls, limits, 1) == None
      && RedisReply(calls, show, limits, 1) == (if now < 61.0 then WrongType else Admit)
  {
    var key := TenantGlobalKey(tenantId);
    assert TenantGlobalKey(tenantId + ":seq") == key + ":seq";
    var calls, first := [Call(key, 0.0), Call(key + ":seq", now)], [Call(key, 0.0)];
    assert calls[..1] == first;
    OneCall(key, limits);
    LongerKeyAnswers(key, now, limits);
    RunMirrors(first, show, limits, now);
    var db := DbAfter(first, show, limits);
    ClashIsLive(calls, db, show, limits, 1);
    RepliesInPrefix(calls, limits, 1);
    if now < 61.0 {
      assert AdmittedWithin(calls, limits, 0, now) && Clashing(calls[0].key, calls[1].key);
      ClashIsWrongType(first, db, show, limits, key + ":seq", now);
    } else {
      assert KeyMirrors(first, db, show, limits, key + ":seq", now);
      assert BucketAfter(first, limits(key + ":seq"), key + ":seq") == [];
      StepOnView(db, show, key + ":seq", now, limits(key + ":seq"));
      StepsAgree([], View(db, key + ":seq", now), show, key + ":seq", now, limits(key + ":seq"));
    }
  }
}
