/** The Redis-backed limiter (the Lua script of utils/rate_limit.py) and its refinement of the
    in-memory one.

    `show` is Lua's `tostring` on the clock value, an arbitrary function. A key whose deadline has
    come is absent; that is the earliest moment at which Redis may expire it. */
module RateLimitRedis {
  import opened Wrappers
  import opened Strings
  import opened RateLimit

  datatype Scored = Scored(score: real, member: string)
  datatype Value =
    | ZSet(entries: seq<Scored>, expireAt: real)
    | Counter(n: nat, expireAt: real)
  type Db = map<string, Value>

  datatype Reply = Admit | RetryAfter(seconds: real) | WrongType

  /** `math.ceil(window) + 1`. */
  const TTL := 61.0

  function ZKey(key: string): string {
    "cavendex:ratelimit:" + key
  }

  function SeqKey(key: string): string {
    ZKey(key) + ":seq"
  }

  function Member(show: real -> string, now: real, n: nat): string {
    show(now) + "-" + Decimal(n)
  }

  function Lookup(db: Db, k: string, now: real): Option<Value> {
    if k in db && now < db[k].expireAt then Some(db[k]) else None
  }

  /** The part of a sorted set that `ZREMRANGEBYSCORE key -inf (now - window)` leaves. */
  function Fresh(entries: seq<Scored>, now: real): seq<Scored> {
    if entries == [] then []
    else
      var rest := Fresh(entries[..|entries| - 1], now);
      var last := entries[|entries| - 1];
      if last.score > now - WINDOW then rest + [last] else rest
  }

  /** Redis orders a sorted set by score, then by member. */
  predicate Before(a: Scored, b: Scored) {
    a.score < b.score || (a.score == b.score && LexLess(a.member, b.member))
  }

  function Insert(entries: seq<Scored>, e: Scored): seq<Scored> {
    if entries != [] && Before(e, entries[|entries| - 1])
    then Insert(entries[..|entries| - 1], e) + [entries[|entries| - 1]]
    else entries + [e]
  }

  function Without(entries: seq<Scored>, member: string): seq<Scored> {
    if entries == [] then []
    else
      var rest := Without(entries[..|entries| - 1], member);
      var last := entries[|entries| - 1];
      if last.member == member then rest else rest + [last]
  }

  /** `ZADD` moves a member that is already there. */
  function ZAdd(entries: seq<Scored>, e: Scored): seq<Scored> {
    Insert(Without(entries, e.member), e)
  }

  function Entries(db: Db, k: string, now: real): seq<Scored> {
    match Lookup(db, k, now)
    case Some(ZSet(entries, _)) => entries
    case _ => []
  }

  function Pruned(db: Db, k: string, now: real): Db {
    var kept := Fresh(Entries(db, k, now), now);
    if kept == [] then db - {k}
    else if k in db then db[k := ZSet(kept, db[k].expireAt)]
    else db
  }

  function NextSeq(db: Db, k: string, now: real): nat {
    match Lookup(db, k, now)
    case Some(Counter(n, _)) => n + 1
    case _ => 1
  }

  predicate IsCounter(v: Option<Value>) {
    v.Some? && v.value.Counter?
  }

  predicate IsZSet(v: Option<Value>) {
    v.Some? && v.value.ZSet?
  }

  function ScriptStep(db: Db, show: real -> string, key: string, now: real, limit: int): (Db, Reply) {
    var z, s := ZKey(key), SeqKey(key);
    if limit <= 0 then (db, Admit)
    else if IsCounter(Lookup(db, z, now)) then (db, WrongType)
    else
      var kept := Fresh(Entries(db, z, now), now);
      var db1 := Pruned(db, z, now);
      if |kept| >= limit then
        var retryAfter := WINDOW - (now - kept[0].score);
        (db1, RetryAfter(if retryAfter < 1.0 then 1.0 else retryAfter))
      else if IsZSet(Lookup(db1, s, now)) then (db1, WrongType)
      else
        (Recorded(db1, show, z, s, kept, now), Admit)
  }

  /** `INCR`, `ZADD` and both `EXPIRE`s. */
  function Recorded(db: Db, show: real -> string, z: string, s: string, kept: seq<Scored>, now: real): Db {
    var n := NextSeq(db, s, now);
    var added := ZAdd(kept, Scored(now, Member(show, now, n)));
    db[z := ZSet(added, now + TTL)][s := Counter(n, now + TTL)]
  }

  class RedisServer {
    var db: Db

    constructor ()
      ensures db == map[]
    {
      db := map[];
    }

    method ZRemRangeByScore(k: string, now: real)
      modifies this
      ensures db == Pruned(old(db), k, now)
    {
      var kept := Fresh(Entries(db, k, now), now);
      if kept == [] {
        db := db - {k};
      } else {
        db := db[k := ZSet(kept, db[k].expireAt)];
      }
    }

    method Incr(k: string, now: real) returns (n: nat)
      requires !IsZSet(Lookup(db, k, now))
      modifies this
      ensures n == NextSeq(old(db), k, now)
      ensures exists at :: db == old(db)[k := Counter(n, at)]
    {
      n := NextSeq(db, k, now);
      db := db[k := Counter(n, if Lookup(db, k, now).Some? then db[k].expireAt else now + TTL)];
    }

    method Expire(k: string, at: real)
      requires k in db
      modifies this
      ensures db == old(db)[k := old(db)[k].(expireAt := at)]
    {
      db := db[k := db[k].(expireAt := at)];
    }

    method CheckRateLimit(show: real -> string, key: string, now: real, limit: int) returns (r: Reply)
      modifies this
      ensures (db, r) == ScriptStep(old(db), show, key, now, limit)
    {
      if limit <= 0 {
        return Admit;
      }
      var z, s := ZKey(key), SeqKey(key);
      if IsCounter(Lookup(db, z, now)) {
        return WrongType;
      }
      ghost var before := db;
      ZRemRangeByScore(z, now);
      var entries := Entries(db, z, now);
      PrunedEntries(before, z, now);
      if |entries| >= limit {
        var retryAfter := WINDOW - (now - entries[0].score);
        return RetryAfter(if retryAfter < 1.0 then 1.0 else retryAfter);
      }
      if IsZSet(Lookup(db, s, now)) {
        return WrongType;
      }
      assert |s| == |z| + 4;
      RecordAdmission(show, z, s, entries, now);
      return Admit;
    }

    /** `INCR`, `ZADD` and the two `EXPIRE`s. */
    method RecordAdmission(show: real -> string, z: string, s: string, entries: seq<Scored>, now: real)
      requires z != s && !IsZSet(Lookup(db, s, now))
      modifies this
      ensures db == Recorded(old(db), show, z, s, entries, now)
    {
      ghost var pruned := db;
      var n := Incr(s, now);
      db := db[z := ZSet(ZAdd(entries, Scored(now, Member(show, now, n))), now + TTL)];
      Expire(z, now + TTL);
      Expire(s, now + TTL);
      assert db == pruned[z := db[z]][s := Counter(n, now + TTL)];
    }
  }

  lemma PrunedEntries(db: Db, k: string, now: real)
    requires !IsCounter(Lookup(db, k, now))
    ensures Entries(Pruned(db, k, now), k, now) == Fresh(Entries(db, k, now), now)
  {
  }

  // ----- correspondence of the two backends' states

  function Scores(entries: seq<Scored>): (xs: seq<real>)
    ensures |xs| == |entries| && forall i :: 0 <= i < |xs| ==> xs[i] == entries[i].score
  {
    seq(|entries|, i requires 0 <= i < |entries| => entries[i].score)
  }

  /** The times inside the half-open window (now - 60, now]. */
  function Recent(xs: seq<real>, now: real): seq<real> {
    if xs == [] then []
    else
      var rest := Recent(xs[..|xs| - 1], now);
      if xs[|xs| - 1] > now - WINDOW then rest + [xs[|xs| - 1]] else rest
  }

  lemma {:induction false} FreshScores(entries: seq<Scored>, now: real)
    ensures Scores(Fresh(entries, now)) == Recent(Scores(entries), now)
  {
    if entries == [] {
      assert Scores(entries) == [];
    } else {
      var n := |entries| - 1;
      FreshScores(entries[..n], now);
      assert Scores(entries)[..n] == Scores(entries[..n]);
      assert Scores(Fresh(entries[..n], now) + [entries[n]]) == Scores(Fresh(entries[..n], now)) + [entries[n].score];
    }
  }

  lemma {:induction false} RecentLater(xs: seq<real>, t: real, now: real)
    requires t <= now
    ensures Recent(Recent(xs, t), now) == Recent(xs, now)
  {
    if xs != [] {
      RecentLater(xs[..|xs| - 1], t, now);
    }
  }

  lemma {:induction false} RecentNone(xs: seq<real>, now: real)
    requires forall i :: 0 <= i < |xs| ==> xs[i] <= now - WINDOW
    ensures Recent(xs, now) == []
  {
    if xs != [] {
      RecentNone(xs[..|xs| - 1], now);
    }
  }

  lemma {:induction false} RecentAll(xs: seq<real>, now: real)
    requires forall i :: 0 <= i < |xs| ==> xs[i] > now - WINDOW
    ensures Recent(xs, now) == xs
  {
    if xs != [] {
      RecentAll(xs[..|xs| - 1], now);
      assert xs == xs[..|xs| - 1] + [xs[|xs| - 1]];
    }
  }

  lemma {:induction false} RecentConcat(a: seq<real>, b: seq<real>, now: real)
    ensures Recent(a + b, now) == Recent(a, now) + Recent(b, now)
  {
    if b == [] {
      assert a + b == a;
    } else {
      assert (a + b)[..|a + b| - 1] == a + b[..|b| - 1];
      RecentConcat(a, b[..|b| - 1], now);
    }
  }

  lemma {:induction false} RecentLength(xs: seq<real>, now: real)
    ensures |Recent(xs, now)| <= |xs|
    ensures forall i :: 0 <= i < |Recent(xs, now)| ==> Recent(xs, now)[i] in xs && Recent(xs, now)[i] > now - WINDOW
  {
    if xs != [] {
      RecentLength(xs[..|xs| - 1], now);
    }
  }

  lemma {:induction false} RecentSorted(xs: seq<real>, now: real)
    requires Sorted(xs)
    ensures Sorted(Recent(xs, now))
  {
    if xs != [] {
      RecentSorted(xs[..|xs| - 1], now);
      RecentLength(xs[..|xs| - 1], now);
    }
  }

  ghost predicate HasNumber(e: Scored, show: real -> string, n: nat) {
    exists m: nat :: m <= n && e.member == Member(show, e.score, m)
  }

  /** Members carry sequence numbers up to `n`, so the next one is new. */
  ghost predicate Numbered(entries: seq<Scored>, show: real -> string, n: nat) {
    forall e :: e in entries ==> HasNumber(e, show, n)
  }

  lemma MemberIsNew(entries: seq<Scored>, show: real -> string, n: nat, now: real)
    requires Numbered(entries, show, n)
    ensures forall i :: 0 <= i < |entries| ==> entries[i].member != Member(show, now, n + 1)
  {
    forall i | 0 <= i < |entries|
      ensures entries[i].member != Member(show, now, n + 1)
    {
      assert HasNumber(entries[i], show, n);
      var m: nat :| m <= n && entries[i].member == Member(show, entries[i].score, m);
      if Member(show, entries[i].score, m) == Member(show, now, n + 1) {
        LastSeparator(show(entries[i].score), Decimal(m), show(now), Decimal(n + 1), '-');
        DecimalInjective(m, n + 1);
      }
    }
  }

  lemma {:induction false} WithoutAbsent(entries: seq<Scored>, member: string)
    requires forall i :: 0 <= i < |entries| ==> entries[i].member != member
    ensures Without(entries, member) == entries
  {
    if entries != [] {
      WithoutAbsent(entries[..|entries| - 1], member);
      assert entries == entries[..|entries| - 1] + [entries[|entries| - 1]];
    }
  }

  /** A request at the current time lands after every earlier one, whatever its member text. */
  lemma {:induction false} InsertLast(entries: seq<Scored>, e: Scored)
    requires forall i :: 0 <= i < |entries| ==> entries[i].score <= e.score
    ensures Scores(Insert(entries, e)) == Scores(entries) + [e.score]
    ensures forall i :: 0 <= i < |Insert(entries, e)| ==> Insert(entries, e)[i] == e || Insert(entries, e)[i] in entries
  {
    if entries != [] && Before(e, entries[|entries| - 1]) {
      InsertLast(entries[..|entries| - 1], e);
      assert Scores(entries) == Scores(entries[..|entries| - 1]) + [e.score];
      assert Scores(Insert(entries, e)) == Scores(Insert(entries[..|entries| - 1], e)) + [e.score];
    } else {
      assert Scores(entries + [e]) == Scores(entries) + [e.score];
    }
  }

  /** What is stored for a key, whether or not it has expired. */
  function Stored(db: Db, key: string): seq<Scored> {
    if ZKey(key) in db && db[ZKey(key)].ZSet? then db[ZKey(key)].entries else []
  }

  /** A well-kept sorted set: scores in order and in the past, all outlived by the deadline, members
      numbered up to the counter. */
  ghost predicate KeptSet(entries: seq<Scored>, show: real -> string, n: nat, expireAt: real, t: real) {
    && Sorted(Scores(entries))
    && (forall i :: 0 <= i < |entries| ==> entries[i].score <= t && entries[i].score + TTL <= expireAt)
    && Numbered(entries, show, n)
  }

  /** A key holds a well-kept set, and its counter has the same deadline. */
  ghost predicate WellKept(db: Db, show: real -> string, key: string, t: real) {
    var z, s := ZKey(key), SeqKey(key);
    && (s in db ==> db[s].Counter?)
    && (z in db ==>
      && db[z].ZSet? && s in db && db[s].expireAt == db[z].expireAt
      && KeptSet(db[z].entries, show, db[s].n, db[z].expireAt, t))
  }

  ghost predicate Corresponds(bucket: seq<real>, db: Db, show: real -> string, key: string, t: real) {
    && WellKept(db, show, key, t)
    && Sorted(bucket) && (forall i :: 0 <= i < |bucket| ==> bucket[i] <= t)
    && Recent(bucket, t) == Recent(Scores(Stored(db, key)), t)
  }

  lemma CorrespondsLater(bucket: seq<real>, db: Db, show: real -> string, key: string, t: real, now: real)
    requires Corresponds(bucket, db, show, key, t) && t <= now
    ensures Corresponds(bucket, db, show, key, now)
  {
    RecentLater(bucket, t, now);
    RecentLater(Scores(Stored(db, key)), t, now);
  }

  /** Expiry never drops a live entry: what the script sees is what is stored, once pruned. */
  lemma ExpiryDropsNothingLive(db: Db, show: real -> string, key: string, now: real)
    requires WellKept(db, show, key, now)
    ensures !IsCounter(Lookup(db, ZKey(key), now))
    ensures Scores(Fresh(Entries(db, ZKey(key), now), now)) == Recent(Scores(Stored(db, key)), now)
  {
    FreshScores(Entries(db, ZKey(key), now), now);
    if ZKey(key) in db && db[ZKey(key)].expireAt <= now {
      RecentNone(Scores(Stored(db, key)), now);
    }
  }

  // ----- one step of both backends

  /** The guard on which they differ: the window is full and its oldest entry is exactly 60 s old. */
  predicate BoundaryHit(bucket: seq<real>, now: real, limit: int) {
    var live := Prune(bucket, now);
    |live| == limit && live != [] && live[0] == now - WINDOW
  }

  predicate Matches(reply: Reply, answer: Option<real>) {
    match answer
    case None => reply == Admit
    case Some(r) => reply == RetryAfter(r)
  }

  lemma {:induction false} RecentOfPrune(bucket: seq<real>, now: real)
    requires Sorted(bucket)
    ensures Recent(Prune(bucket, now), now) == Recent(bucket, now)
  {
    PruneSplits(bucket, now);
    var live := Prune(bucket, now);
    var k := |bucket| - |live|;
    assert bucket == bucket[..k] + live;
    RecentConcat(bucket[..k], live, now);
    RecentNone(bucket[..k], now);
  }

  /** The live bucket and the pruned sorted set have equal length unless an entry is exactly 60 s old. */
  lemma LiveAgainstRecent(bucket: seq<real>, now: real)
    requires Sorted(bucket)
    ensures var live, recent := Prune(bucket, now), Recent(bucket, now);
      && |recent| <= |live|
      && (live != [] && live[0] == now - WINDOW ==> |recent| < |live|)
      && (live == [] || live[0] != now - WINDOW ==> recent == live)
  {
    RecentOfPrune(bucket, now);
    PruneInWindow(bucket, now);
    SortedAgainstRecent(Prune(bucket, now), now);
  }

  lemma PruneInWindow(bucket: seq<real>, now: real)
    requires Sorted(bucket)
    ensures Sorted(Prune(bucket, now)) && (Prune(bucket, now) != [] ==> Prune(bucket, now)[0] >= now - WINDOW)
  {
    PruneSplits(bucket, now);
    var live := Prune(bucket, now);
    assert forall i :: 0 <= i < |live| ==> live[i] == bucket[|bucket| - |live| + i];
  }

  lemma SortedAgainstRecent(live: seq<real>, now: real)
    requires Sorted(live) && (live != [] ==> live[0] >= now - WINDOW)
    ensures |Recent(live, now)| <= |live|
    ensures live != [] && live[0] == now - WINDOW ==> |Recent(live, now)| < |live|
    ensures live == [] || live[0] != now - WINDOW ==> Recent(live, now) == live
  {
    if live == [] || live[0] != now - WINDOW {
      RecentAll(live, now);
    } else {
      assert live == [live[0]] + live[1..];
      RecentConcat([live[0]], live[1..], now);
      RecentNone([live[0]], now);
      RecentLength(live[1..], now);
    }
  }

  lemma StepsAgree(bucket: seq<real>, db: Db, show: real -> string, key: string, now: real, limit: int)
    requires limit > 0 && |bucket| <= limit && Corresponds(bucket, db, show, key, now)
    ensures Matches(ScriptStep(db, show, key, now, limit).1, MemoryStep(bucket, now, limit).1)
        <==> !BoundaryHit(bucket, now, limit)
    ensures BoundaryHit(bucket, now, limit) ==>
      ScriptStep(db, show, key, now, limit).1 == Admit && MemoryStep(bucket, now, limit).1 == Some(1.0)
  {
    ReplyFromScores(db, show, key, now, limit);
    LiveAgainstRecent(bucket, now);
    AnswersCompared(bucket, Recent(bucket, now), now, limit);
  }

  /** The reply the script computes from the scores it keeps. */
  function ReplyOn(scores: seq<real>, now: real, limit: int): Reply
    requires limit > 0
  {
    if |scores| < limit then Admit
    else if WINDOW - (now - scores[0]) < 1.0 then RetryAfter(1.0)
    else RetryAfter(WINDOW - (now - scores[0]))
  }

  lemma ReplyFromScores(db: Db, show: real -> string, key: string, now: real, limit: int)
    requires limit > 0 && WellKept(db, show, key, now)
    ensures ScriptStep(db, show, key, now, limit).1 == ReplyOn(Recent(Scores(Stored(db, key)), now), now, limit)
  {
    ExpiryDropsNothingLive(db, show, key, now);
    assert |SeqKey(key)| == |ZKey(key)| + 4;
    var db1 := Pruned(db, ZKey(key), now);
    assert SeqKey(key) in db1 ==> db1[SeqKey(key)] == db[SeqKey(key)];
    var kept := Fresh(Entries(db, ZKey(key), now), now);
    assert |kept| > 0 ==> kept[0].score == Scores(kept)[0];
  }

  lemma AnswersCompared(bucket: seq<real>, recent: seq<real>, now: real, limit: int)
    requires limit > 0 && |bucket| <= limit
    requires |recent| <= |Prune(bucket, now)|
    requires var live := Prune(bucket, now);
      if live != [] && live[0] == now - WINDOW then |recent| < |live| else recent == live
    ensures Matches(ReplyOn(recent, now, limit), MemoryStep(bucket, now, limit).1) <==> !BoundaryHit(bucket, now, limit)
    ensures BoundaryHit(bucket, now, limit) ==>
      ReplyOn(recent, now, limit) == Admit && MemoryStep(bucket, now, limit).1 == Some(1.0)
  {
    PruneSplits(bucket, now);
  }

  lemma {:induction false} FreshIsSubset(entries: seq<Scored>, now: real)
    ensures forall i :: 0 <= i < |Fresh(entries, now)| ==>
      Fresh(entries, now)[i] in entries && Fresh(entries, now)[i].score > now - WINDOW
  {
    if entries != [] {
      FreshIsSubset(entries[..|entries| - 1], now);
    }
  }

  lemma FreshStaysKept(entries: seq<Scored>, show: real -> string, n: nat, expireAt: real, now: real)
    requires KeptSet(entries, show, n, expireAt, now)
    ensures KeptSet(Fresh(entries, now), show, n, expireAt, now)
  {
    FreshIsSubset(entries, now);
    FreshScores(entries, now);
    RecentSorted(Scores(entries), now);
  }

  lemma AddedNumbered(kept: seq<Scored>, added: seq<Scored>, e: Scored, show: real -> string, n: nat)
    requires Numbered(kept, show, n) && e.member == Member(show, e.score, n + 1)
    requires forall i :: 0 <= i < |added| ==> added[i] == e || added[i] in kept
    ensures Numbered(added, show, n + 1)
  {
    forall a | a in added
      ensures HasNumber(a, show, n + 1)
    {
      if a in kept {
        assert HasNumber(a, show, n);
      }
    }
  }

  /** `ZADD` of a numbered request never collapses two requests: the set grows by exactly that score. */
  lemma AddedStaysKept(kept: seq<Scored>, show: real -> string, n: nat, expireAt: real, now: real)
    requires KeptSet(kept, show, n, expireAt, now)
    ensures var added := ZAdd(kept, Scored(now, Member(show, now, n + 1)));
      && KeptSet(added, show, n + 1, now + TTL, now)
      && Scores(added) == Scores(kept) + [now]
  {
    var e := Scored(now, Member(show, now, n + 1));
    MemberIsNew(kept, show, n, now);
    WithoutAbsent(kept, e.member);
    InsertLast(kept, e);
    var added := ZAdd(kept, e);
    AddedNumbered(kept, added, e, show, n);
    AddedInOrder(kept, added, now, expireAt);
  }

  lemma AddedInOrder(kept: seq<Scored>, added: seq<Scored>, now: real, expireAt: real)
    requires Sorted(Scores(kept)) && forall i :: 0 <= i < |kept| ==> kept[i].score <= now
    requires Scores(added) == Scores(kept) + [now]
    ensures Sorted(Scores(added)) && forall i :: 0 <= i < |added| ==> added[i].score <= now
  {
    assert forall i :: 0 <= i < |kept| ==> Scores(kept)[i] == kept[i].score;
    assert forall i :: 0 <= i < |added| ==> added[i].score == Scores(added)[i];
  }

  /** After the prune step the key and its counter are still well kept. */
  lemma PrunedStaysKept(db: Db, show: real -> string, key: string, now: real)
    requires WellKept(db, show, key, now)
    ensures var db1 := Pruned(db, ZKey(key), now);
      && WellKept(db1, show, key, now)
      && Stored(db1, key) == Fresh(Entries(db, ZKey(key), now), now)
      && (Stored(db1, key) != [] ==> IsCounter(Lookup(db1, SeqKey(key), now)))
  {
    assert |SeqKey(key)| == |ZKey(key)| + 4;
    if ZKey(key) in db {
      FreshStaysKept(db[ZKey(key)].entries, show, db[SeqKey(key)].n, db[ZKey(key)].expireAt, now);
    }
  }

  lemma AdmissionStaysKept(db: Db, show: real -> string, key: string, now: real, limit: int)
    requires limit > 0 && WellKept(db, show, key, now)
    requires ScriptStep(db, show, key, now, limit).1 == Admit
    ensures var after := ScriptStep(db, show, key, now, limit).0;
      && WellKept(after, show, key, now)
      && Scores(Stored(after, key)) == Scores(Fresh(Entries(db, ZKey(key), now), now)) + [now]
  {
    assert |SeqKey(key)| == |ZKey(key)| + 4;
    PrunedStaysKept(db, show, key, now);
    ExpiryDropsNothingLive(db, show, key, now);
    var db1 := Pruned(db, ZKey(key), now);
    var kept := Stored(db1, key);
    var n := NextSeq(db1, SeqKey(key), now);
    if kept == [] {
      AddedStaysKept([], show, n - 1, 0.0, now);
    } else {
      AddedStaysKept(kept, show, n - 1, db1[ZKey(key)].expireAt, now);
    }
  }

  ghost predicate SortedUpTo(xs: seq<real>, now: real) {
    Sorted(xs) && forall i :: 0 <= i < |xs| ==> xs[i] <= now
  }

  lemma SnocStaysSorted(xs: seq<real>, now: real)
    requires SortedUpTo(xs, now)
    ensures SortedUpTo(xs + [now], now)
  {
  }

  lemma BucketStaysSorted(bucket: seq<real>, now: real, limit: int)
    requires limit > 0 && SortedUpTo(bucket, now)
    ensures SortedUpTo(MemoryStep(bucket, now, limit).0, now)
  {
    PruneStaysSorted(bucket, now);
    SnocStaysSorted(Prune(bucket, now), now);
  }

  /** What the in-memory bucket does in the same step, seen through the half-open window. */
  lemma BucketStep(bucket: seq<real>, now: real, limit: int)
    requires limit > 0 && SortedUpTo(bucket, now)
    ensures var (after, r) := MemoryStep(bucket, now, limit);
      Recent(after, now) == if r == None then Recent(bucket, now) + [now] else Recent(bucket, now)
  {
    RecentOfPrune(bucket, now);
    RecentSnoc(Prune(bucket, now), now);
  }

  lemma RecentSnoc(xs: seq<real>, now: real)
    ensures Recent(xs + [now], now) == Recent(xs, now) + [now]
  {
    assert (xs + [now])[..|xs|] == xs;
  }

  lemma PruneStaysSorted(bucket: seq<real>, now: real)
    requires SortedUpTo(bucket, now)
    ensures SortedUpTo(Prune(bucket, now), now)
  {
    PruneSplits(bucket, now);
    var live := Prune(bucket, now);
    assert forall i :: 0 <= i < |live| ==> live[i] == bucket[|bucket| - |live| + i];
  }

  lemma RecentIdempotent(xs: seq<real>, now: real)
    ensures Recent(Recent(xs, now), now) == Recent(xs, now)
    ensures Recent(Recent(xs, now) + [now], now) == Recent(xs, now) + [now]
  {
    RecentLater(xs, now, now);
    RecentSnoc(Recent(xs, now), now);
  }

  /** As long as the step is not on the boundary, the states correspond again after it. */
  lemma StepCorresponds(bucket: seq<real>, db: Db, show: real -> string, key: string, now: real, limit: int)
    requires limit > 0 && |bucket| <= limit && Corresponds(bucket, db, show, key, now)
    requires !BoundaryHit(bucket, now, limit)
    ensures Corresponds(MemoryStep(bucket, now, limit).0, ScriptStep(db, show, key, now, limit).0, show, key, now)
  {
    StepsAgree(bucket, db, show, key, now, limit);
    BucketStaysSorted(bucket, now, limit);
    BucketStep(bucket, now, limit);
    RecentIdempotent(bucket, now);
    ExpiryDropsNothingLive(db, show, key, now);
    if MemoryStep(bucket, now, limit).1 == None {
      AdmissionStaysKept(db, show, key, now, limit);
    } else {
      PrunedStaysKept(db, show, key, now);
    }
  }

  // ----- the commands, as Redis documents them

  lemma {:induction false} WithoutHolds(entries: seq<Scored>, member: string, x: Scored)
    ensures x in Without(entries, member) <==> x in entries && x.member != member
  {
    if entries != [] {
      var n := |entries| - 1;
      WithoutHolds(entries[..n], member, x);
      assert entries == entries[..n] + [entries[n]];
    }
  }

  lemma {:induction false} InsertHolds(entries: seq<Scored>, e: Scored, x: Scored)
    ensures x in Insert(entries, e) <==> x in entries || x == e
  {
    if entries != [] && Before(e, entries[|entries| - 1]) {
      var n := |entries| - 1;
      InsertHolds(entries[..n], e, x);
      assert entries == entries[..n] + [entries[n]];
    }
  }

  /** ZADD gives its member the new score and leaves all other members alone. */
  lemma ZAddHolds(entries: seq<Scored>, e: Scored, x: Scored)
    ensures x in ZAdd(entries, e) <==> x == e || (x in entries && x.member != e.member)
  {
    WithoutHolds(entries, e.member, x);
    InsertHolds(Without(entries, e.member), e, x);
  }

  /** ZREMRANGEBYSCORE removes a key with its last member; INCR counts from one and fails on no missing key. */
  lemma EmptyAndMissingKeys(db: Db, k: string, now: real)
    ensures Fresh(Entries(db, k, now), now) == [] ==> k !in Pruned(db, k, now)
    ensures Lookup(db, k, now) == None ==> NextSeq(db, k, now) == 1
  {
  }
}
