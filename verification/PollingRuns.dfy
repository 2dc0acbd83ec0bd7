/** What cursor polling delivers over whole runs: each record once, in order, and with what progress
    (ingestion/crowdstrike_polling.py and ingestion/sentinel_polling.py). All of it depends on how texts sort, and the
    theorems say exactly how. */
module PollingRuns {
  import opened Wrappers
  import opened Strings
  import opened Polling

  /** The newest time seen, which is what the cursor is meant to be. */
  function Newest(cursor: Option<int>, records: seq<Record>): Option<int> {
    if records == [] then cursor
    else
      var before := Newest(cursor, records[..|records| - 1]);
      if Newer(before, records[|records| - 1]) then Some(records[|records| - 1].ts) else before
  }

  lemma {:induction false} NewestIsGreatest(cursor: Option<int>, records: seq<Record>)
    ensures forall r :: r in records ==> !Newer(Newest(cursor, records), r)
    ensures NotBelow(cursor, Newest(cursor, records))
    ensures Newest(cursor, records) == cursor || exists r :: r in records && Newest(cursor, records) == Some(r.ts)
  {
    if records != [] {
      var n := |records| - 1;
      NewestIsGreatest(cursor, records[..n]);
      assert forall r :: r in records <==> r in records[..n] || r == records[n];
    }
  }

  /** The cursor moves to the newest time of the page. */
  predicate Sharp(text: int -> string, s: State, records: seq<Record>) {
    NewCursor(text, s.cursor, records) == Newest(s.cursor, records)
  }

  /** The times one poll compares. */
  function Times(cursor: Option<int>, records: seq<Record>): set<int> {
    (match cursor case Some(t) => {t} case None => {}) + set r | r in records :: r.ts
  }

  /** The text of the newest time sorts after all others. */
  ghost predicate NewestSortsLast(text: int -> string, cursor: Option<int>, records: seq<Record>) {
    forall t, last :: t in Times(cursor, records) && Newest(cursor, records) == Some(last) && t != last ==> LexLess(text(t), text(last))
  }

  lemma NewestInTimes(cursor: Option<int>, records: seq<Record>)
    requires Newest(cursor, records).Some?
    ensures Newest(cursor, records).value in Times(cursor, records)
    ensures Newest(cursor, records) == cursor || exists r :: r in records && Newest(cursor, records) == Some(r.ts)
  {
    NewestIsGreatest(cursor, records);
  }

  /** Where different times have different texts: exactly when the cursor moves to the newest time, in the texts that one
      poll compares. */
  lemma SharpExactly(text: int -> string, s: State, records: seq<Record>)
    requires forall a, b :: a in Times(s.cursor, records) && b in Times(s.cursor, records) && text(a) == text(b) ==> a == b
    ensures Sharp(text, s, records) <==> NewestSortsLast(text, s.cursor, records)
  {
    var cursor := s.cursor;
    NewCursorSortsLast(text, cursor, records);
    NewCursorIsSeen(text, cursor, records);
    NewestIsGreatest(cursor, records);
    if Newest(cursor, records).Some? {
      NewestInTimes(cursor, records);
      if Sharp(text, s, records) {
        forall t | t in Times(cursor, records) && t != Newest(cursor, records).value
          ensures LexLess(text(t), text(Newest(cursor, records).value))
        {
          LexTotal(text(t), text(Newest(cursor, records).value));
          NotSortedAbove(text, cursor, records, t);
        }
      } else if NewestSortsLast(text, cursor, records) {
        NotSortedAbove(text, cursor, records, Newest(cursor, records).value);
      }
    }
  }

  /** No text compared is above that of the new cursor. */
  lemma NotSortedAbove(text: int -> string, cursor: Option<int>, records: seq<Record>, t: int)
    requires t in Times(cursor, records)
    ensures NewCursor(text, cursor, records).Some? && !LexLess(text(NewCursor(text, cursor, records).value), text(t))
    ensures NewCursor(text, cursor, records).value in Times(cursor, records)
  {
    NewCursorSortsLast(text, cursor, records);
    NewCursorIsSeen(text, cursor, records);
    if r :| r in records && r.ts == t {
      assert !SortsAbove(text, NewCursor(text, cursor, records), r);
    } else {
      assert cursor == Some(t);
      var u := text(NewCursor(text, cursor, records).value);
      if LexLess(u, text(t)) && NewCursor(text, cursor, records) != cursor {
        LexTransitive(u, text(t), u);
      }
      LexIrreflexive(u);
    }
  }

  /** Texts that sort as their times do, such as texts of one width, always make it so. */
  lemma TimeOrderIsSharp(text: int -> string, s: State, records: seq<Record>)
    requires forall a, b :: a in Times(s.cursor, records) && b in Times(s.cursor, records) && a < b ==> LexLess(text(a), text(b))
    ensures Sharp(text, s, records)
  {
    forall a, b | a in Times(s.cursor, records) && b in Times(s.cursor, records) && text(a) == text(b)
      ensures a == b
    {
      LexIrreflexive(text(a));
    }
    NewestIsGreatest(s.cursor, records);
    SharpExactly(text, s, records);
  }

  ghost predicate SharpAt(text: int -> string, events: seq<Event>, i: nat)
    requires i < |events|
  {
    events[i].Poll? ==> Sharp(text, After(text, events[..i]), events[i].records)
  }

  ghost predicate AllSharp(text: int -> string, events: seq<Event>) {
    forall i :: 0 <= i < |events| ==> SharpAt(text, events, i)
  }

  lemma AllSharpSplits(text: int -> string, events: seq<Event>)
    requires events != []
    ensures AllSharp(text, events) <==> AllSharp(text, events[..|events| - 1]) && SharpAt(text, events, |events| - 1)
  {
    var n := |events| - 1;
    forall i | 0 <= i < n
      ensures SharpAt(text, events[..n], i) == SharpAt(text, events, i)
    {
      assert events[..n][..i] == events[..i];
    }
  }

  // ----- without crashes: exactly once, exactly when

  /** Handed over is exactly what the cursor has passed, each record once. */
  ghost predicate ExactlyOnce(s: State) {
    && Distinct(s.handed)
    && forall r :: r in s.handed <==> r in s.server && !Newer(s.cursor, r)
  }

  /** A record was handed over twice, or will be: it was handed over and still waits. */
  ghost predicate Repeats(s: State) {
    !Distinct(s.handed) || exists r :: r in s.handed && r in Waiting(s)
  }

  ghost predicate Orderly(s: State) {
    Ordered(s) && Covered(s)
  }

  lemma ExactlyOnceIsNoRepeat(s: State)
    requires Orderly(s)
    ensures ExactlyOnce(s) <==> !Repeats(s)
  {
  }

  predicate Undisturbed(e: Event) {
    e.Poll? ==> e.fate == Completed
  }

  ghost predicate Feeds(s: State, size: nat, e: Event) {
    Enabled(s, size, e) && Undisturbed(e) && (e.Arrive? ==> Above(s, e.r))
  }

  lemma OrderlyStep(text: int -> string, s: State, size: nat, e: Event)
    requires Orderly(s) && Feeds(s, size, e)
    ensures Orderly(Next(text, s, e))
  {
    OrderedStep(text, s, size, e);
    CoveredIffSafe(text, s, size, e);
  }

  lemma PageWaits(s: State, size: nat, records: seq<Record>)
    requires Answer(s, size, records) && !Repeats(s)
    ensures Distinct(s.handed + records)
  {
    forall i, j | 0 <= i < |s.handed| && 0 <= j < |records|
      ensures s.handed[i] != records[j]
    {
      assert s.handed[i] in s.handed && records[j] in records;
    }
  }

  lemma PageHasNewest(s: State, size: nat, records: seq<Record>)
    requires Answer(s, size, records) && records != []
    ensures exists r :: r in records && Newest(s.cursor, records) == Some(r.ts)
  {
    NewestIsGreatest(s.cursor, records);
    assert records[0] in records && records[0] in Waiting(s);
  }

  lemma BluntLeavesPage(text: int -> string, s: State, size: nat, records: seq<Record>)
    requires Answer(s, size, records) && !Sharp(text, s, records)
    ensures exists r :: r in records && r in Waiting(Polled(text, s, records, Completed))
  {
    PageHasNewest(s, size, records);
    NewestIsGreatest(s.cursor, records);
    NewCursorIsSeen(text, s.cursor, records);
    var r :| r in records && Newest(s.cursor, records) == Some(r.ts);
    assert r in Waiting(s) && Newer(NewCursor(text, s.cursor, records), r);
  }

  /** After a poll that was not sharp, the newest record of its page was handed over and still waits. */
  lemma BluntRepeats(text: int -> string, s: State, size: nat, records: seq<Record>)
    requires Answer(s, size, records) && !Sharp(text, s, records)
    ensures Repeats(Polled(text, s, records, Completed))
  {
    BluntLeavesPage(text, s, size, records);
    var r :| r in records && r in Waiting(Polled(text, s, records, Completed));
    assert r in Polled(text, s, records, Completed).handed;
  }

  lemma SharpKeepsOnce(text: int -> string, s: State, size: nat, records: seq<Record>)
    requires Orderly(s) && !Repeats(s) && Answer(s, size, records) && Sharp(text, s, records)
    ensures !Repeats(Polled(text, s, records, Completed))
  {
    NewestIsGreatest(s.cursor, records);
    PageWaits(s, size, records);
    var t := Polled(text, s, records, Completed);
    forall r | r in t.handed
      ensures r !in Waiting(t)
    {
    }
  }

  /** Once a record is repeated or about to be, it stays so: the cursor can only pass it on a page that holds it again. */
  lemma RepeatsStay(text: int -> string, s: State, size: nat, e: Event)
    requires Ordered(s) && Repeats(s) && Feeds(s, size, e)
    ensures Repeats(Next(text, s, e))
  {
    if e.Arrive? {
      if r :| r in s.handed && r in Waiting(s) {
        assert r in Waiting(Next(text, s, e));
      }
    } else if !Distinct(s.handed) {
      var i, j :| 0 <= i < j < |s.handed| && s.handed[i] == s.handed[j];
      assert Next(text, s, e).handed[i] == Next(text, s, e).handed[j];
    } else {
      var r :| r in s.handed && r in Waiting(s);
      if r in e.records {
        HandedTwice(s.handed, e.records, r);
      } else {
        PassedIsOnPage(text, s, size, e.records, r);
        assert r in Waiting(Next(text, s, e));
      }
    }
  }

  lemma PassedIsOnPage(text: int -> string, s: State, size: nat, records: seq<Record>, r: Record)
    requires Ordered(s) && Answer(s, size, records) && r in Waiting(s) && r !in records
    ensures Newer(NewCursor(text, s.cursor, records), r)
  {
    NewCursorIsSeen(text, s.cursor, records);
    LeftOutIsNewer(text, s, size, records);
  }

  lemma HandedTwice(a: seq<Record>, b: seq<Record>, r: Record)
    requires r in a && r in b
    ensures !Distinct(a + b)
  {
    var i, j :| 0 <= i < |a| && a[i] == r && 0 <= j < |b| && b[j] == r;
    assert (a + b)[i] == (a + b)[|a| + j];
  }

  lemma RepeatsStep(text: int -> string, s: State, size: nat, e: Event)
    requires Orderly(s) && Feeds(s, size, e)
    ensures Repeats(Next(text, s, e)) <==> Repeats(s) || (e.Poll? && !Sharp(text, s, e.records))
  {
    if Repeats(s) {
      RepeatsStay(text, s, size, e);
    } else if e.Poll? {
      if Sharp(text, s, e.records) {
        SharpKeepsOnce(text, s, size, e.records);
      } else {
        BluntRepeats(text, s, size, e.records);
      }
    } else {
      assert e.r !in s.handed;
    }
  }

  lemma {:induction false} RepeatsExactly(text: int -> string, size: nat, events: seq<Event>)
    requires Legal(text, size, events) && Increasing(text, events) && CrashFree(events)
    ensures Orderly(After(text, events))
    ensures Repeats(After(text, events)) <==> !AllSharp(text, events)
  {
    if events != [] {
      var n := |events| - 1;
      PrefixLegal(text, size, events);
      IncreasingSplits(text, events);
      RepeatsExactly(text, size, events[..n]);
      OrderlyStep(text, After(text, events[..n]), size, events[n]);
      RepeatsStep(text, After(text, events[..n]), size, events[n]);
      AllSharpSplits(text, events);
    }
  }

  /** Without crashes and with strictly increasing times, every record that the cursor has passed was handed over once
      and no other was, if and only if every poll moved the cursor to the newest time of its page. */
  lemma CrashFreeIsExactlyOnce(text: int -> string, size: nat, events: seq<Event>)
    requires Legal(text, size, events) && Increasing(text, events) && CrashFree(events)
    ensures ExactlyOnce(After(text, events)) <==> AllSharp(text, events)
  {
    RepeatsExactly(text, size, events);
    ExactlyOnceIsNoRepeat(After(text, events));
  }

  // ----- in order, exactly when

  predicate InOrder(records: seq<Record>) {
    forall i, j :: 0 <= i < j < |records| ==> records[i].ts < records[j].ts
  }

  ghost predicate PagesInOrder(events: seq<Event>) {
    forall i :: 0 <= i < |events| && events[i].Poll? ==> InOrder(events[i].records)
  }

  lemma HandedIsEarlier(handed: seq<Record>, records: seq<Record>, r: Record, q: Record)
    requires InOrder(handed + records) && r in handed && q in records
    ensures r.ts < q.ts
  {
    var i :| 0 <= i < |handed| && handed[i] == r;
    var j :| 0 <= j < |records| && records[j] == q;
    assert (handed + records)[i] == r && (handed + records)[|handed| + j] == q;
  }

  lemma InOrderParts(handed: seq<Record>, records: seq<Record>)
    requires InOrder(handed + records)
    ensures Distinct(handed)
  {
    assert forall i :: 0 <= i < |handed| ==> (handed + records)[i] == handed[i];
  }

  /** A page after one that left a handed record waiting begins no later than that record. */
  lemma InOrderMeansNoRepeat(s: State, size: nat, records: seq<Record>)
    requires Answer(s, size, records) && records != [] && InOrder(s.handed + records)
    ensures !Repeats(s)
  {
    InOrderParts(s.handed, records);
    forall r | r in s.handed
      ensures r !in Waiting(s)
    {
      HandedIsEarlier(s.handed, records, r, records[0]);
      if r in records {
        HandedIsEarlier(s.handed, records, r, r);
      }
    }
  }

  lemma InOrderStep(s: State, size: nat, records: seq<Record>)
    requires ExactlyOnce(s) && Answer(s, size, records) && InOrder(s.handed) && InOrder(records)
    ensures InOrder(s.handed + records)
  {
    forall i, j | 0 <= i < |s.handed| && 0 <= j < |records|
      ensures s.handed[i].ts < records[j].ts
    {
      assert s.handed[i] in s.handed && records[j] in records;
      assert records[j] in Waiting(s);
    }
  }

  lemma {:induction false} SharpRunsAreInOrder(text: int -> string, size: nat, events: seq<Event>)
    requires Legal(text, size, events) && Increasing(text, events) && CrashFree(events) && PagesInOrder(events)
    requires AllSharp(text, events)
    ensures InOrder(After(text, events).handed)
  {
    if events != [] {
      var n := |events| - 1;
      PrefixLegal(text, size, events);
      IncreasingSplits(text, events);
      AllSharpSplits(text, events);
      SharpRunsAreInOrder(text, size, events[..n]);
      CrashFreeIsExactlyOnce(text, size, events[..n]);
      if events[n].Poll? {
        InOrderStep(After(text, events[..n]), size, events[n].records);
      }
    }
  }

  /** If in addition each answer lists its page oldest first, as Sentinel's does: when a poll has handed over another
      page, the records are in the order of their times across all polls if and only if every poll before it moved the
      cursor to the newest time of its page. */
  lemma CrashFreeIsInOrder(text: int -> string, size: nat, events: seq<Event>)
    requires Legal(text, size, events) && Increasing(text, events) && CrashFree(events) && PagesInOrder(events)
    requires events != [] && events[|events| - 1].Poll? && events[|events| - 1].records != []
    ensures InOrder(After(text, events).handed) <==> AllSharp(text, events[..|events| - 1])
  {
    var n := |events| - 1;
    PrefixLegal(text, size, events);
    IncreasingSplits(text, events);
    RepeatsExactly(text, size, events[..n]);
    if AllSharp(text, events[..n]) {
      SharpRunsAreInOrder(text, size, events[..n]);
      CrashFreeIsExactlyOnce(text, size, events[..n]);
      InOrderStep(After(text, events[..n]), size, events[n].records);
    } else {
      if InOrder(After(text, events).handed) {
        InOrderMeansNoRepeat(After(text, events[..n]), size, events[n].records);
      }
    }
  }

  // ----- progress, exactly when

  /** A completed poll makes the backlog smaller if and only if some text on its page is above that of the cursor. */
  lemma ProgressExactly(text: int -> string, s: State, size: nat, records: seq<Record>)
    requires Answer(s, size, records)
    ensures |Waiting(Polled(text, s, records, Completed))| < |Waiting(s)| <==> exists r :: r in records && SortsAbove(text, s.cursor, r)
    ensures Waiting(Polled(text, s, records, Completed)) <= Waiting(s)
  {
    var t := Polled(text, s, records, Completed);
    CursorMovesExactly(text, s.cursor, records);
    NewCursorIsSeen(text, s.cursor, records);
    if t.cursor != s.cursor {
      var q :| q in records && t.cursor == Some(q.ts);
      assert q in Waiting(s) && q !in Waiting(t);
      Smaller(Waiting(t), Waiting(s));
    }
  }

  lemma Smaller(a: set<Record>, b: set<Record>)
    requires a < b
    ensures |a| < |b|
  {
    assert b == a + (b - a) && b - a != {};
  }

  /** If none is, the cursor stays and the server may answer the same page to every poll. */
  lemma StandstillRepeats(text: int -> string, s: State, size: nat, records: seq<Record>)
    requires Answer(s, size, records) && forall r :: r in records ==> !SortsAbove(text, s.cursor, r)
    ensures var t := Polled(text, s, records, Completed);
      t.cursor == s.cursor && Answer(t, size, records)
  {
    CursorMovesExactly(text, s.cursor, records);
    assert Waiting(Polled(text, s, records, Completed)) == Waiting(s);
  }

  lemma {:induction false} DistinctCardinality(records: seq<Record>)
    requires Distinct(records)
    ensures |PageOf(records)| == |records|
  {
    if records != [] {
      var n := |records| - 1;
      DistinctCardinality(records[..n]);
      assert PageOf(records) == PageOf(records[..n]) + {records[n]};
    }
  }

  function PageOf(records: seq<Record>): set<Record> {
    set r | r in records
  }

  lemma OffPageWaits(text: int -> string, s: State, size: nat, records: seq<Record>)
    requires Answer(s, size, records) && Ordered(s)
    ensures Waiting(s) - PageOf(records) <= Waiting(Polled(text, s, records, Completed))
  {
    forall r | r in Waiting(s) && r !in records
      ensures Newer(NewCursor(text, s.cursor, records), r)
    {
      PassedIsOnPage(text, s, size, records, r);
    }
  }

  lemma SharpTakesPage(text: int -> string, s: State, size: nat, records: seq<Record>)
    requires Answer(s, size, records) && Ordered(s) && Sharp(text, s, records)
    ensures Waiting(Polled(text, s, records, Completed)) == Waiting(s) - PageOf(records)
  {
    NewestIsGreatest(s.cursor, records);
    OffPageWaits(text, s, size, records);
  }

  /** A completed poll takes exactly its page, or all there is, off the backlog if and only if it moves the cursor to the
      newest time of the page. */
  lemma BacklogShrinks(text: int -> string, s: State, size: nat, records: seq<Record>)
    requires Answer(s, size, records) && Ordered(s)
    ensures Waiting(Polled(text, s, records, Completed)) == Waiting(s) - PageOf(records) <==> Sharp(text, s, records)
    ensures Sharp(text, s, records) ==>
      |Waiting(Polled(text, s, records, Completed))| == |Waiting(s)| - Least(size, |Waiting(s)|)
  {
    if Sharp(text, s, records) {
      DistinctCardinality(records);
      SharpTakesPage(text, s, size, records);
      assert PageOf(records) <= Waiting(s);
    } else {
      BluntLeavesPage(text, s, size, records);
    }
  }

  // ----- stalling

  /** The oldest waiting records fill a page, and no text among them is above the cursor's. */
  ghost predicate StuckOn(text: int -> string, s: State, size: nat, page: set<Record>) {
    && page <= Waiting(s) && |page| == size
    && (forall r, q :: r in Waiting(s) && r !in page && q in page ==> q.ts < r.ts)
    && forall q :: q in page ==> !SortsAbove(text, s.cursor, q)
  }

  lemma FullPageSticks(text: int -> string, s: State, size: nat, records: seq<Record>)
    requires Ordered(s) && Answer(s, size, records) && |records| == size
    requires forall r :: r in records ==> !SortsAbove(text, s.cursor, r)
    ensures StuckOn(text, s, size, PageOf(records))
  {
    DistinctCardinality(records);
    LeftOutIsNewer(text, s, size, records);
  }

  lemma Included(a: set<Record>, b: set<Record>)
    requires a <= b
    ensures |a| <= |b| && (|a| == |b| ==> a == b)
  {
    if a != b {
      Smaller(a, b);
    }
  }

  lemma OldestOnly(s: State, size: nat, page: set<Record>, records: seq<Record>, q: Record)
    requires Answer(s, size, records) && page <= Waiting(s) && q in page && q !in records
    requires forall r, q :: r in Waiting(s) && r !in page && q in page ==> q.ts < r.ts
    ensures PageOf(records) <= page - {q}
  {
    forall r | r in records
      ensures r in page
    {
      assert q in Waiting(s) && r.ts <= q.ts;
    }
  }

  /** Every further answer is the same page. */
  lemma StuckAnswer(text: int -> string, s: State, size: nat, page: set<Record>, records: seq<Record>)
    requires StuckOn(text, s, size, page) && Answer(s, size, records)
    ensures PageOf(records) == page
  {
    DistinctCardinality(records);
    Included(page, Waiting(s));
    forall q | q in page
      ensures q in records
    {
      if q !in records {
        OldestOnly(s, size, page, records, q);
        Included(PageOf(records), page - {q});
      }
    }
    Included(page, PageOf(records));
  }

  /** What further steps keep: the cursor, and that nothing off the page is handed over. */
  ghost predicate Stalls(text: int -> string, s: State, t: State, size: nat, page: set<Record>) {
    && StuckOn(text, t, size, page) && t.cursor == s.cursor
    && forall r :: r in t.handed ==> r in s.handed || r in page
  }

  lemma StuckPoll(text: int -> string, s: State, t: State, size: nat, page: set<Record>, records: seq<Record>, fate: Fate)
    requires Stalls(text, s, t, size, page) && Answer(t, size, records)
    ensures Stalls(text, s, Polled(text, t, records, fate), size, page)
  {
    StuckAnswer(text, t, size, page, records);
    assert forall r :: r in records ==> r in page;
    CursorMovesExactly(text, t.cursor, records);
    assert Waiting(Polled(text, t, records, fate)) == Waiting(t);
  }

  lemma StuckArrival(text: int -> string, s: State, t: State, size: nat, page: set<Record>, r: Record)
    requires Stalls(text, s, t, size, page) && Above(t, r)
    ensures Stalls(text, s, Next(text, t, Arrive(r)), size, page)
  {
    var u := Next(text, t, Arrive(r));
    assert forall q :: q in page ==> q in t.server && q.ts < r.ts;
    assert forall q :: q in Waiting(u) ==> q in Waiting(t) || q == r;
  }

  lemma StuckStep(text: int -> string, s: State, t: State, size: nat, page: set<Record>, e: Event)
    requires Stalls(text, s, t, size, page) && Enabled(t, size, e) && (e.Arrive? ==> Above(t, e.r))
    ensures Stalls(text, s, Next(text, t, e), size, page)
  {
    match e
    case Arrive(r) => StuckArrival(text, s, t, size, page, r);
    case Poll(records, fate) => StuckPoll(text, s, t, size, page, records, fate);
  }

  lemma AfterNext(text: int -> string, size: nat, events: seq<Event>, n: nat)
    requires Legal(text, size, events) && Increasing(text, events) && n < |events|
    ensures After(text, events[..n + 1]) == Next(text, After(text, events[..n]), events[n])
    ensures Enabled(After(text, events[..n]), size, events[n])
    ensures events[n].Arrive? ==> Above(After(text, events[..n]), events[n].r)
  {
    assert events[..n + 1][..n] == events[..n];
    assert EnabledAt(text, size, events, n) && AboveAt(text, events, n);
  }

  lemma StallsNext(text: int -> string, size: nat, events: seq<Event>, n: nat, page: set<Record>, s: State)
    requires Legal(text, size, events) && Increasing(text, events) && n < |events|
    requires Stalls(text, s, After(text, events[..n]), size, page)
    ensures Stalls(text, s, After(text, events[..n + 1]), size, page)
  {
    AfterNext(text, size, events, n);
    StuckStep(text, s, After(text, events[..n]), size, page, events[n]);
  }

  lemma {:induction false} StuckFrom(text: int -> string, size: nat, events: seq<Event>, i: nat, n: nat, page: set<Record>, s: State)
    requires Legal(text, size, events) && Increasing(text, events) && i <= n <= |events|
    requires Stalls(text, s, After(text, events[..i]), size, page)
    ensures Stalls(text, s, After(text, events[..n]), size, page)
    decreases n
  {
    if i < n {
      StuckFrom(text, size, events, i, n - 1, page, s);
      StallsNext(text, size, events, n - 1, page, s);
    }
  }

  /** A connector that is stuck on a full page stays stuck: whatever arrives and however polls end, the cursor never moves
      again and nothing off that page is ever handed over. */
  lemma StuckForGood(text: int -> string, size: nat, events: seq<Event>, i: nat, page: set<Record>)
    requires Legal(text, size, events) && Increasing(text, events) && i <= |events|
    requires StuckOn(text, After(text, events[..i]), size, page)
    ensures Stalls(text, After(text, events[..i]), After(text, events), size, page)
  {
    StuckFrom(text, size, events, i, |events|, page, After(text, events[..i]));
    assert events[..|events|] == events;
  }

  // ----- draining a quiet feed

  /** Completed polls, one after the other. */
  function Polls(text: int -> string, s: State, answers: seq<seq<Record>>): State {
    if answers == [] then s
    else Polled(text, Polls(text, s, answers[..|answers| - 1]), answers[|answers| - 1], Completed)
  }

  ghost predicate AnswerAt(text: int -> string, s: State, size: nat, answers: seq<seq<Record>>, i: nat)
    requires i < |answers|
  {
    Answer(Polls(text, s, answers[..i]), size, answers[i])
  }

  ghost predicate Answers(text: int -> string, s: State, size: nat, answers: seq<seq<Record>>) {
    forall i :: 0 <= i < |answers| ==> AnswerAt(text, s, size, answers, i)
  }

  lemma AnswersPrefix(text: int -> string, s: State, size: nat, answers: seq<seq<Record>>, n: nat)
    requires Answers(text, s, size, answers) && n <= |answers|
    ensures n < |answers| ==> Answer(Polls(text, s, answers[..n]), size, answers[n])
    ensures n < |answers| ==> Polls(text, s, answers[..n + 1]) == Polled(text, Polls(text, s, answers[..n]), answers[n], Completed)
  {
    if n < |answers| {
      assert AnswerAt(text, s, size, answers, n);
      assert answers[..n + 1][..n] == answers[..n];
    }
  }

  ghost predicate AllHanded(s: State) {
    forall r :: r in s.server ==> r in s.handed
  }

  /** No text on the page is above the cursor's, and a record that is not on it has not been handed over. */
  ghost predicate Blocked(text: int -> string, s: State, records: seq<Record>) {
    && (forall r :: r in records ==> !SortsAbove(text, s.cursor, r))
    && exists r :: r in Waiting(s) && r !in records && r !in s.handed
  }

  ghost predicate BlockedAt(text: int -> string, s: State, answers: seq<seq<Record>>, i: nat)
    requires i < |answers|
  {
    Blocked(text, Polls(text, s, answers[..i]), answers[i])
  }

  lemma OrderlyPoll(text: int -> string, s: State, size: nat, records: seq<Record>)
    requires Orderly(s) && Answer(s, size, records)
    ensures Orderly(Polled(text, s, records, Completed)) && Polled(text, s, records, Completed).server == s.server
  {
    assert Feeds(s, size, Poll(records, Completed));
    OrderlyStep(text, s, size, Poll(records, Completed));
  }

  lemma UnblockedStep(text: int -> string, s: State, size: nat, records: seq<Record>, left: int)
    requires Orderly(s) && Answer(s, size, records) && !Blocked(text, s, records)
    requires AllHanded(s) || |Waiting(s)| <= left
    ensures AllHanded(Polled(text, s, records, Completed)) || |Waiting(Polled(text, s, records, Completed))| <= left - 1
  {
    ProgressExactly(text, s, size, records);
    var t := Polled(text, s, records, Completed);
    if !AllHanded(s) && !(exists r :: r in records && SortsAbove(text, s.cursor, r)) {
      forall r | r in t.server
        ensures r in t.handed
      {
      }
    }
  }

  lemma {:induction false} UnblockedDrains(text: int -> string, s: State, size: nat, answers: seq<seq<Record>>, n: nat)
    requires Orderly(s) && Answers(text, s, size, answers) && n <= |answers|
    requires forall i :: 0 <= i < n ==> !BlockedAt(text, s, answers, i)
    ensures var t := Polls(text, s, answers[..n]);
      Orderly(t) && t.server == s.server && (AllHanded(t) || |Waiting(t)| <= |Waiting(s)| - n)
  {
    if n > 0 {
      UnblockedDrains(text, s, size, answers, n - 1);
      AnswersPrefix(text, s, size, answers, n - 1);
      assert !BlockedAt(text, s, answers, n - 1);
      OrderlyPoll(text, Polls(text, s, answers[..n - 1]), size, answers[n - 1]);
      UnblockedStep(text, Polls(text, s, answers[..n - 1]), size, answers[n - 1], |Waiting(s)| - (n - 1));
    }
  }

  ghost predicate OrderlyOn(s: State, server: set<Record>) {
    Orderly(s) && s.server == server
  }

  lemma OrderlyNext(text: int -> string, s: State, size: nat, answers: seq<seq<Record>>, n: nat, server: set<Record>)
    requires Answers(text, s, size, answers) && n < |answers| && OrderlyOn(Polls(text, s, answers[..n]), server)
    ensures OrderlyOn(Polls(text, s, answers[..n + 1]), server)
  {
    AnswersPrefix(text, s, size, answers, n);
    OrderlyPoll(text, Polls(text, s, answers[..n]), size, answers[n]);
  }

  lemma {:induction false} PollsStayOrderly(text: int -> string, s: State, size: nat, answers: seq<seq<Record>>, n: nat)
    requires Orderly(s) && Answers(text, s, size, answers) && n <= |answers|
    ensures OrderlyOn(Polls(text, s, answers[..n]), s.server)
  {
    if n > 0 {
      PollsStayOrderly(text, s, size, answers, n - 1);
      OrderlyNext(text, s, size, answers, n - 1, s.server);
    }
  }

  lemma StuckPollsNext(text: int -> string, s: State, size: nat, answers: seq<seq<Record>>, n: nat, page: set<Record>, from: State)
    requires Answers(text, s, size, answers) && n < |answers| && Stalls(text, from, Polls(text, s, answers[..n]), size, page)
    ensures Stalls(text, from, Polls(text, s, answers[..n + 1]), size, page)
  {
    AnswersPrefix(text, s, size, answers, n);
    StuckPoll(text, from, Polls(text, s, answers[..n]), size, page, answers[n], Completed);
  }

  lemma {:induction false} StuckPolls(text: int -> string, s: State, size: nat, answers: seq<seq<Record>>, i: nat, n: nat,
                                      page: set<Record>, from: State)
    requires Answers(text, s, size, answers) && i <= n <= |answers|
    requires Stalls(text, from, Polls(text, s, answers[..i]), size, page)
    ensures Stalls(text, from, Polls(text, s, answers[..n]), size, page)
    decreases n
  {
    if i < n {
      StuckPolls(text, s, size, answers, i, n - 1, page, from);
      StuckPollsNext(text, s, size, answers, n - 1, page, from);
    }
  }

  /** A blocked poll is stuck on its page, with a record off it that nobody has seen. */
  lemma BlockedSticks(text: int -> string, s: State, size: nat, records: seq<Record>) returns (r: Record)
    requires Ordered(s) && Answer(s, size, records) && Blocked(text, s, records)
    ensures StuckOn(text, s, size, PageOf(records))
    ensures r in s.server && r !in PageOf(records) && r !in s.handed
  {
    r :| r in Waiting(s) && r !in records && r !in s.handed;
    FullAnswer(s, size, records, r);
    FullPageSticks(text, s, size, records);
  }

  lemma StallLeavesOut(text: int -> string, s: State, t: State, size: nat, page: set<Record>, r: Record)
    requires Stalls(text, s, t, size, page) && r in t.server && r !in page && r !in s.handed
    ensures !AllHanded(t)
  {
  }

  lemma BlockedNeverDrains(text: int -> string, s: State, size: nat, answers: seq<seq<Record>>, i: nat)
    requires Orderly(s) && Answers(text, s, size, answers) && i < |answers| && BlockedAt(text, s, answers, i)
    ensures !AllHanded(Polls(text, s, answers[..|answers|]))
  {
    PollsStayOrderly(text, s, size, answers, i);
    PollsStayOrderly(text, s, size, answers, |answers|);
    AnswersPrefix(text, s, size, answers, i);
    var r := BlockedSticks(text, Polls(text, s, answers[..i]), size, answers[i]);
    StuckPolls(text, s, size, answers, i, |answers|, PageOf(answers[i]), Polls(text, s, answers[..i]));
    StallLeavesOut(text, Polls(text, s, answers[..i]), Polls(text, s, answers[..|answers|]), size, PageOf(answers[i]), r);
  }

  lemma FullAnswer(s: State, size: nat, records: seq<Record>, r: Record)
    requires Answer(s, size, records) && r in Waiting(s) && r !in records
    ensures |records| == size
  {
    DistinctCardinality(records);
    assert r !in PageOf(records);
    Smaller(PageOf(records), Waiting(s));
  }

  /** Once the feed is quiet, as many completed polls as records wait hand over every record there is if and only if none
      of them is blocked. */
  lemma QuietFeedIsDrainedExactly(text: int -> string, size: nat, events: seq<Event>, answers: seq<seq<Record>>)
    requires Legal(text, size, events) && Increasing(text, events)
    requires Answers(text, After(text, events), size, answers) && |Waiting(After(text, events))| <= |answers|
    ensures AllHanded(Polls(text, After(text, events), answers))
       <==> forall i :: 0 <= i < |answers| ==> !BlockedAt(text, After(text, events), answers, i)
  {
    var s := After(text, events);
    IncreasingFeedLosesNothing(text, size, events);
    if forall i :: 0 <= i < |answers| ==> !BlockedAt(text, s, answers, i) {
      UnblockedDrains(text, s, size, answers, |answers|);
      assert answers[..|answers|] == answers;
      if !AllHanded(Polls(text, s, answers)) {
        NothingWaits(Polls(text, s, answers));
      }
    }
    if i :| 0 <= i < |answers| && BlockedAt(text, s, answers, i) {
      BlockedNeverDrains(text, s, size, answers, i);
      assert answers[..|answers|] == answers;
    }
  }

  lemma NothingWaits(s: State)
    requires Orderly(s) && |Waiting(s)| == 0
    ensures AllHanded(s)
  {
    forall r | r in s.server
      ensures r in s.handed
    {
      assert r !in Waiting(s);
    }
  }

  function Remaining(backlog: nat, size: nat, polls: nat): nat {
    if polls == 0 then backlog
    else
      var before := Remaining(backlog, size, polls - 1);
      before - Least(size, before)
  }

  lemma {:induction false} RemainingClosed(backlog: nat, size: nat, polls: nat)
    ensures Remaining(backlog, size, polls) == if backlog <= polls * size then 0 else backlog - polls * size
  {
    if polls > 0 {
      RemainingClosed(backlog, size, polls - 1);
      assert polls * size == (polls - 1) * size + size;
    }
  }

  ghost predicate SharpAnswer(text: int -> string, s: State, answers: seq<seq<Record>>, i: nat)
    requires i < |answers|
  {
    Sharp(text, Polls(text, s, answers[..i]), answers[i])
  }

  lemma {:induction false} SharpPollsDrain(text: int -> string, s: State, size: nat, answers: seq<seq<Record>>, n: nat)
    requires Orderly(s) && Answers(text, s, size, answers) && n <= |answers|
    requires forall i :: 0 <= i < n ==> SharpAnswer(text, s, answers, i)
    ensures |Waiting(Polls(text, s, answers[..n]))| == Remaining(|Waiting(s)|, size, n)
  {
    if n > 0 {
      SharpPollsDrain(text, s, size, answers, n - 1);
      AnswersPrefix(text, s, size, answers, n - 1);
      PollsStayOrderly(text, s, size, answers, n - 1);
      assert SharpAnswer(text, s, answers, n - 1);
      BacklogShrinks(text, Polls(text, s, answers[..n - 1]), size, answers[n - 1]);
    }
  }

  /** If each of them moves the cursor to the newest time of its page, as many polls as the backlog has pages are enough. */
  lemma SharpFeedIsDrainedByPages(text: int -> string, size: nat, events: seq<Event>, answers: seq<seq<Record>>)
    requires Legal(text, size, events) && Increasing(text, events)
    requires Answers(text, After(text, events), size, answers)
    requires forall i :: 0 <= i < |answers| ==> SharpAnswer(text, After(text, events), answers, i)
    requires |Waiting(After(text, events))| <= |answers| * size
    ensures AllHanded(Polls(text, After(text, events), answers))
  {
    var s := After(text, events);
    IncreasingFeedLosesNothing(text, size, events);
    PollsStayOrderly(text, s, size, answers, |answers|);
    SharpPollsDrain(text, s, size, answers, |answers|);
    RemainingClosed(|Waiting(s)|, size, |answers|);
    assert answers[..|answers|] == answers;
    NothingWaits(Polls(text, s, answers));
  }

  // ----- a stalled connector, by example

  /** A fraction of a second that is only sometimes written breaks the order of the texts. */
  lemma FractionSortsBelow()
    ensures LexLess("2024-05-01T10:00:00.5Z", "2024-05-01T10:00:00Z")
    ensures !LexLess("2024-05-01T10:00:00Z", "2024-05-01T10:00:00.5Z")
  {
    var a, b := "2024-05-01T10:00:00.5Z", "2024-05-01T10:00:00Z";
    assert a[..19] == b[..19] && a[19] < b[19];
    assert forall k :: 0 <= k < 19 ==> a[k] == a[..19][k] && b[k] == b[..19][k];
    LexAt(a, b, 19);
    if LexLess(b, a) {
      LexTransitive(a, b, a);
      LexIrreflexive(a);
    }
  }

  function Stalling(a: Record, b: Record): seq<Event> {
    [Arrive(a), Poll([a], Completed), Arrive(b)]
  }

  lemma OneRecord(text: int -> string, a: Record)
    ensures Answer(State({a}, None, []), 1, [a])
    ensures Polled(text, State({a}, None, []), [a], Completed) == State({a}, Some(a.ts), [a])
  {
    assert Waiting(State({a}, None, [])) == {a};
    assert [a][..0] == [] && NewCursor(text, None, []) == None;
  }

  lemma StallingRun(text: int -> string, a: Record, b: Record)
    ensures var events := Stalling(a, b);
      && After(text, events[..0]) == START && After(text, events[..1]) == State({a}, None, [])
      && After(text, events[..2]) == State({a}, Some(a.ts), [a]) && After(text, events) == State({a, b}, Some(a.ts), [a])
  {
    var events := Stalling(a, b);
    OneRecord(text, a);
    assert events[..1] == [Arrive(a)] && [Arrive(a)][..0] == [] && events[..0] == [];
    assert events[..2] == [Arrive(a), Poll([a], Completed)] && events[..2][..1] == events[..1];
    assert events[..3] == events;
  }

  lemma StallingSticks(text: int -> string, a: Record, b: Record)
    requires a.ts < b.ts && !LexLess(text(a.ts), text(b.ts))
    ensures StuckOn(text, After(text, Stalling(a, b)), 1, {b})
  {
    StallingRun(text, a, b);
    assert Waiting(State({a, b}, Some(a.ts), [a])) == {b};
  }

  /** With pages of one record, two records whose texts do not sort as their times stall the connector: from then on,
      whatever comes, the cursor stays and no other record is ever handed over. */
  lemma TwoRecordsStall(text: int -> string, a: Record, b: Record, more: seq<Event>)
    requires a.ts < b.ts && !LexLess(text(a.ts), text(b.ts))
    requires Legal(text, 1, Stalling(a, b) + more) && Increasing(text, Stalling(a, b) + more)
    ensures After(text, Stalling(a, b) + more).cursor == Some(a.ts)
    ensures forall r :: r in After(text, Stalling(a, b) + more).handed ==> r == a || r == b
  {
    StallingRun(text, a, b);
    StallingSticks(text, a, b);
    assert (Stalling(a, b) + more)[..3] == Stalling(a, b);
    StuckForGood(text, 1, Stalling(a, b) + more, 3, {b});
  }

  /** So do a record at the full second and one half a second later, where fractions are only sometimes written. */
  lemma FractionStalls(text: int -> string, a: Record, b: Record, more: seq<Event>)
    requires a.ts < b.ts && text(a.ts) == "2024-05-01T10:00:00Z" && text(b.ts) == "2024-05-01T10:00:00.5Z"
    requires Legal(text, 1, Stalling(a, b) + more) && Increasing(text, Stalling(a, b) + more)
    ensures After(text, Stalling(a, b) + more).cursor == Some(a.ts)
    ensures forall r :: r in After(text, Stalling(a, b) + more).handed ==> r == a || r == b
  {
    FractionSortsBelow();
    TwoRecordsStall(text, a, b, more);
  }

  /** The run itself is an ordinary one. */
  lemma StallingIsLegal(text: int -> string, a: Record, b: Record)
    requires a.ts < b.ts
    ensures Legal(text, 1, Stalling(a, b)) && Increasing(text, Stalling(a, b)) && CrashFree(Stalling(a, b))
  {
    StallingRun(text, a, b);
    OneRecord(text, a);
  }
}
