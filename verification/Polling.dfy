/** Cursor polling (ingestion/crowdstrike_polling.py and ingestion/sentinel_polling.py) as a step protocol in which
    the process may die at any point of a poll.

    A record is what the vendor's API stores. Its time is a number; `text` is how the API writes it. The server compares
    times, the connectors compare texts, and nothing is assumed about how texts sort. */
module Polling {
  import opened Wrappers
  import opened Strings

  datatype Record = Record(id: string, ts: int)

  predicate Newer(cursor: Option<int>, r: Record) {
    cursor == None || r.ts > cursor.value
  }

  /** `new_cursor is None or ts > new_cursor`, on texts. */
  predicate SortsAbove(text: int -> string, cursor: Option<int>, r: Record) {
    cursor == None || LexLess(text(cursor.value), text(r.ts))
  }

  /** The cursor after what came back, as the connectors fold it. */
  function NewCursor(text: int -> string, cursor: Option<int>, records: seq<Record>): Option<int> {
    if records == [] then cursor
    else
      var before := NewCursor(text, cursor, records[..|records| - 1]);
      if SortsAbove(text, before, records[|records| - 1]) then Some(records[|records| - 1].ts) else before
  }

  /** How a poll ends: normally, after handing over some records, or while the cursor file is being rewritten
      (the file is truncated first, and an unreadable file loads as no cursor at all). A failed token exchange
      or HTTP call is a crash with nothing handed over. */
  datatype Fate = Completed | CrashedHanding(after: nat) | CrashedSaving

  class Poller {
    const text: int -> string
    var cursor: Option<int>
    var handed: seq<Record>

    constructor (text: int -> string)
      ensures this.text == text && cursor == None && handed == []
    {
      this.text := text;
      cursor, handed := None, [];
    }

    /** The fold of `fetch_new_detections` and `fetch_new_alerts`. */
    method Advance(records: seq<Record>) returns (newCursor: Option<int>)
      ensures newCursor == NewCursor(text, cursor, records)
    {
      newCursor := cursor;
      for i := 0 to |records|
        invariant newCursor == NewCursor(text, cursor, records[..i])
      {
        assert records[..i + 1][..i] == records[..i];
        if newCursor == None || LexLess(text(newCursor.value), text(records[i].ts)) {
          newCursor := Some(records[i].ts);
        }
      }
      assert records[..|records|] == records;
    }

    /** `poll_once` on the records the server answered with. */
    method PollOnce(records: seq<Record>, fate: Fate)
      modifies this
      ensures State({}, cursor, handed) == Polled(text, State({}, old(cursor), old(handed)), records, fate)
    {
      var newCursor := Advance(records);
      for i := 0 to |records|
        invariant cursor == old(cursor) && handed == old(handed) + records[..i]
        invariant fate.CrashedHanding? ==> i <= fate.after
      {
        if fate == CrashedHanding(i) {
          return;
        }
        handed := handed + [records[i]];
      }
      assert records[..|records|] == records;
      if fate.CrashedHanding? {
        return;
      }
      if newCursor != cursor {
        cursor := if fate == CrashedSaving then None else newCursor;
      }
    }
  }

  // ----- runs

  /** The server's records, the saved cursor and everything given to the normalizer so far. */
  datatype State = State(server: set<Record>, cursor: Option<int>, handed: seq<Record>)

  datatype Event = Arrive(r: Record) | Poll(records: seq<Record>, fate: Fate)

  function Polled(text: int -> string, s: State, records: seq<Record>, fate: Fate): State {
    match fate
    case Completed => s.(cursor := NewCursor(text, s.cursor, records), handed := s.handed + records)
    case CrashedHanding(k) => s.(handed := s.handed + if k < |records| then records[..k] else records)
    case CrashedSaving =>
      s.(cursor := if NewCursor(text, s.cursor, records) == s.cursor then s.cursor else None, handed := s.handed + records)
  }

  function Next(text: int -> string, s: State, e: Event): State {
    match e
    case Arrive(r) => s.(server := s.server + {r})
    case Poll(records, fate) => Polled(text, s, records, fate)
  }

  function Waiting(s: State): set<Record> {
    set r | r in s.server && Newer(s.cursor, r)
  }

  predicate Distinct(records: seq<Record>) {
    forall i, j :: 0 <= i < j < |records| ==> records[i] != records[j]
  }

  function Least(a: nat, b: nat): nat {
    if a < b then a else b
  }

  /** What the server may answer: a page of the oldest waiting records. Records of equal time may come in any
      order and either side of the page's end; CrowdStrike's second call may return the page in any order. */
  ghost predicate Answer(s: State, size: nat, records: seq<Record>) {
    && Distinct(records)
    && (forall r :: r in records ==> r in Waiting(s))
    && |records| == Least(size, |Waiting(s)|)
    && forall r, q :: r in Waiting(s) && r !in records && q in records ==> q.ts <= r.ts
  }

  ghost predicate Enabled(s: State, size: nat, e: Event) {
    e.Poll? ==> Answer(s, size, e.records)
  }

  const START := State({}, None, [])

  function After(text: int -> string, events: seq<Event>): State {
    if events == [] then START else Next(text, After(text, events[..|events| - 1]), events[|events| - 1])
  }

  ghost predicate EnabledAt(text: int -> string, size: nat, events: seq<Event>, i: nat)
    requires i < |events|
  {
    Enabled(After(text, events[..i]), size, events[i])
  }

  ghost predicate Legal(text: int -> string, size: nat, events: seq<Event>) {
    forall i :: 0 <= i < |events| ==> EnabledAt(text, size, events, i)
  }

  // ----- the new cursor

  lemma {:induction false} NewCursorIsSeen(text: int -> string, cursor: Option<int>, records: seq<Record>)
    ensures NewCursor(text, cursor, records) == cursor || exists r :: r in records && NewCursor(text, cursor, records) == Some(r.ts)
  {
    if records != [] {
      NewCursorIsSeen(text, cursor, records[..|records| - 1]);
    }
  }

  lemma AboveMeansAbove(text: int -> string, cursor: Option<int>, q: Record, r: Record)
    requires SortsAbove(text, cursor, q) && !SortsAbove(text, cursor, r)
    ensures !SortsAbove(text, Some(q.ts), r)
  {
    if LexLess(text(q.ts), text(r.ts)) {
      LexTransitive(text(cursor.value), text(q.ts), text(r.ts));
    }
  }

  /** Whatever order the records come back in, no text on the page is above that of the new cursor. */
  lemma {:induction false} NewCursorSortsLast(text: int -> string, cursor: Option<int>, records: seq<Record>)
    ensures forall r :: r in records ==> !SortsAbove(text, NewCursor(text, cursor, records), r)
    ensures NewCursor(text, cursor, records) == cursor
      || (NewCursor(text, cursor, records).Some? && (cursor.Some? ==> LexLess(text(cursor.value), text(NewCursor(text, cursor, records).value))))
  {
    if records != [] {
      var n := |records| - 1;
      var before, last := NewCursor(text, cursor, records[..n]), records[n];
      NewCursorSortsLast(text, cursor, records[..n]);
      LexIrreflexive(text(last.ts));
      if SortsAbove(text, before, last) {
        forall r | r in records
          ensures !SortsAbove(text, Some(last.ts), r)
        {
          if r in records[..n] {
            AboveMeansAbove(text, before, last, r);
          }
        }
        if before.Some? && cursor.Some? && before != cursor {
          LexTransitive(text(cursor.value), text(before.value), text(last.ts));
        }
      }
    }
  }

  /** The cursor moves exactly when some text on the page is above its own. */
  lemma {:induction false} CursorMovesExactly(text: int -> string, cursor: Option<int>, records: seq<Record>)
    ensures NewCursor(text, cursor, records) != cursor <==> exists r :: r in records && SortsAbove(text, cursor, r)
  {
    var moved := NewCursor(text, cursor, records);
    NewCursorSortsLast(text, cursor, records);
    NewCursorIsSeen(text, cursor, records);
    if moved != cursor {
      var r :| r in records && moved == Some(r.ts);
      assert SortsAbove(text, cursor, r);
    }
  }

  /** A save that is torn leaves no cursor, if there was anything to save; the page was handed over all the same. */
  lemma TornSaveForgets(text: int -> string, s: State, records: seq<Record>)
    ensures var t := Polled(text, s, records, CrashedSaving);
      && t.handed == s.handed + records && t.server == s.server
      && t.cursor == if exists r :: r in records && SortsAbove(text, s.cursor, r) then None else s.cursor
  {
    CursorMovesExactly(text, s.cursor, records);
  }

  /** A process that dies while handing a page over has handed over its beginning, and the cursor stays. */
  lemma CrashKeepsCursor(text: int -> string, s: State, records: seq<Record>, k: nat)
    requires k <= |records|
    ensures Polled(text, s, records, CrashedHanding(k)) == State(s.server, s.cursor, s.handed + records[..k])
  {
    assert records[..|records|] == records;
  }

  // ----- nothing is lost, exactly when

  /** Every record the cursor has passed was handed over. */
  ghost predicate Covered(s: State) {
    forall r :: r in s.server && !Newer(s.cursor, r) ==> r in s.handed
  }

  /** A record that did not fit on the page has the very time to which the cursor moves. */
  ghost predicate Straddles(text: int -> string, s: State, records: seq<Record>) {
    exists r :: r in Waiting(s) && r !in records && r !in s.handed && NewCursor(text, s.cursor, records) == Some(r.ts)
  }

  /** A record arrives that the cursor has already passed. */
  predicate Late(s: State, r: Record) {
    !Newer(s.cursor, r) && r !in s.handed
  }

  ghost predicate Safe(text: int -> string, s: State, e: Event) {
    match e
    case Arrive(r) => !Late(s, r)
    case Poll(records, fate) => fate == Completed ==> !Straddles(text, s, records)
  }

  lemma CompletedCovers(text: int -> string, s: State, size: nat, records: seq<Record>)
    requires Answer(s, size, records) && Covered(s)
    ensures Covered(Polled(text, s, records, Completed)) <==> !Straddles(text, s, records)
  {
    NewCursorIsSeen(text, s.cursor, records);
    var t := Polled(text, s, records, Completed);
    if r :| r in Waiting(s) && r !in records && r !in s.handed && t.cursor == Some(r.ts) {
      assert r in t.server && !Newer(t.cursor, r) && r !in t.handed;
    } else {
      forall r | r in t.server && !Newer(t.cursor, r)
        ensures r in t.handed
      {
        if r in Waiting(s) && r !in records {
          var q :| q in records && t.cursor == Some(q.ts);
          assert q.ts <= r.ts;
        }
      }
    }
  }

  /** A step of a covered state keeps it covered exactly when it is safe: the only ways to lose a record are a
      completed poll whose page ends between two records of the time the cursor moves to, and a record arriving at or
      below the cursor. Dying before or during the save never loses one. */
  lemma CoveredIffSafe(text: int -> string, s: State, size: nat, e: Event)
    requires Enabled(s, size, e) && Covered(s)
    ensures Covered(Next(text, s, e)) <==> Safe(text, s, e)
  {
    match e
    case Arrive(r) =>
      assert r in Next(text, s, e).server;
    case Poll(records, fate) =>
      if fate == Completed {
        CompletedCovers(text, s, size, records);
      }
  }

  ghost predicate SafeAt(text: int -> string, events: seq<Event>, i: nat)
    requires i < |events|
  {
    Safe(text, After(text, events[..i]), events[i])
  }

  ghost predicate AllSafe(text: int -> string, events: seq<Event>) {
    forall i :: 0 <= i < |events| ==> SafeAt(text, events, i)
  }

  predicate Untorn(events: seq<Event>) {
    forall i :: 0 <= i < |events| ==> events[i].Poll? ==> events[i].fate != CrashedSaving
  }

  ghost predicate Lost(s: State, r: Record) {
    r in s.server && !Newer(s.cursor, r) && r !in s.handed
  }

  predicate NotBelow(a: Option<int>, b: Option<int>) {
    a.Some? ==> b.Some? && a.value <= b.value
  }

  /** What the server sends is newer than the cursor, so the saved cursor never goes back, however texts sort. */
  lemma CursorStep(text: int -> string, s: State, size: nat, e: Event)
    requires Enabled(s, size, e) && (e.Poll? ==> e.fate != CrashedSaving)
    ensures NotBelow(s.cursor, Next(text, s, e).cursor)
  {
    if e.Poll? {
      NewCursorIsSeen(text, s.cursor, e.records);
      assert forall r :: r in e.records ==> r in Waiting(s);
    }
  }

  /** A lost record stays lost: no later poll asks for it again, unless a torn save forgets the cursor. */
  lemma LostStays(text: int -> string, s: State, size: nat, e: Event, r: Record)
    requires Enabled(s, size, e) && Lost(s, r) && (e.Poll? ==> e.fate != CrashedSaving)
    ensures Lost(Next(text, s, e), r)
  {
    CursorStep(text, s, size, e);
    if e.Poll? {
      assert r !in Waiting(s) && r !in e.records;
    }
  }

  lemma PrefixLegal(text: int -> string, size: nat, events: seq<Event>)
    requires events != [] && Legal(text, size, events)
    ensures Legal(text, size, events[..|events| - 1])
    ensures Enabled(After(text, events[..|events| - 1]), size, events[|events| - 1])
  {
    var n := |events| - 1;
    assert EnabledAt(text, size, events, n);
    forall i | 0 <= i < n
      ensures EnabledAt(text, size, events[..n], i)
    {
      assert events[..n][..i] == events[..i];
      assert EnabledAt(text, size, events, i);
    }
  }

  lemma AllSafeSplits(text: int -> string, events: seq<Event>)
    requires events != []
    ensures AllSafe(text, events) <==> AllSafe(text, events[..|events| - 1]) && SafeAt(text, events, |events| - 1)
  {
    var n := |events| - 1;
    forall i | 0 <= i < n
      ensures SafeAt(text, events[..n], i) == SafeAt(text, events, i)
    {
      assert events[..n][..i] == events[..i];
    }
  }

  /** Safe steps lose nothing, whatever crashes and torn saves there are in between. */
  lemma {:induction false} SafeRunsAreCovered(text: int -> string, size: nat, events: seq<Event>)
    requires Legal(text, size, events) && AllSafe(text, events)
    ensures Covered(After(text, events))
  {
    if events != [] {
      var n := |events| - 1;
      PrefixLegal(text, size, events);
      AllSafeSplits(text, events);
      SafeRunsAreCovered(text, size, events[..n]);
      CoveredIffSafe(text, After(text, events[..n]), size, events[n]);
    }
  }

  lemma CoveredStepExactly(text: int -> string, s: State, size: nat, e: Event)
    requires Enabled(s, size, e) && (e.Poll? ==> e.fate != CrashedSaving)
    ensures Covered(Next(text, s, e)) <==> Covered(s) && Safe(text, s, e)
  {
    if Covered(s) {
      CoveredIffSafe(text, s, size, e);
    } else {
      var r :| r in s.server && !Newer(s.cursor, r) && r !in s.handed;
      LostStays(text, s, size, e, r);
      assert Lost(Next(text, s, e), r);
    }
  }

  /** Over a whole run, up to the next torn save, nothing has been lost if and only if every step was safe. */
  lemma {:induction false} CoveredIffAllSafe(text: int -> string, size: nat, events: seq<Event>)
    requires Legal(text, size, events) && Untorn(events)
    ensures Covered(After(text, events)) <==> AllSafe(text, events)
  {
    if events != [] {
      var n := |events| - 1;
      PrefixLegal(text, size, events);
      AllSafeSplits(text, events);
      CoveredIffAllSafe(text, size, events[..n]);
      CoveredStepExactly(text, After(text, events[..n]), size, events[n]);
    }
  }

  /** The saved cursor never goes back, unless its file is torn. */
  lemma {:induction false} CursorNeverDecreases(text: int -> string, size: nat, events: seq<Event>, i: nat)
    requires i <= |events| && Legal(text, size, events) && Untorn(events)
    ensures NotBelow(After(text, events[..i]).cursor, After(text, events).cursor)
  {
    if i == |events| {
      assert events[..i] == events;
    } else {
      var n := |events| - 1;
      assert events[..n][..i] == events[..i];
      PrefixLegal(text, size, events);
      CursorNeverDecreases(text, size, events[..n], i);
      CursorStep(text, After(text, events[..n]), size, events[n]);
    }
  }

  // ----- feeds whose times are strictly increasing

  ghost predicate AboveAt(text: int -> string, events: seq<Event>, i: nat)
    requires i < |events|
  {
    events[i].Arrive? ==> Above(After(text, events[..i]), events[i].r)
  }

  ghost predicate Increasing(text: int -> string, events: seq<Event>) {
    forall i :: 0 <= i < |events| ==> AboveAt(text, events, i)
  }

  ghost predicate Above(s: State, r: Record) {
    forall q :: q in s.server ==> q.ts < r.ts
  }

  /** No two records share a time, the cursor is the time of a record, and only server records were handed over. */
  ghost predicate Ordered(s: State) {
    && (forall q, r :: q in s.server && r in s.server && q.ts == r.ts ==> q == r)
    && (s.cursor.Some? ==> exists q :: q in s.server && q.ts == s.cursor.value)
    && (forall q :: q in s.handed ==> q in s.server)
  }

  /** What was left off the page is strictly newer than everything on it. */
  lemma LeftOutIsNewer(text: int -> string, s: State, size: nat, records: seq<Record>)
    requires Ordered(s) && Answer(s, size, records)
    ensures forall r, q :: r in Waiting(s) && r !in records && q in records ==> q.ts < r.ts
    ensures !Straddles(text, s, records)
  {
    forall r, q | r in Waiting(s) && r !in records && q in records
      ensures q.ts < r.ts
    {
      assert q in Waiting(s) && q.ts <= r.ts;
    }
    NewCursorIsSeen(text, s.cursor, records);
  }

  lemma PolledStaysOrdered(text: int -> string, s: State, size: nat, records: seq<Record>, fate: Fate)
    requires Ordered(s) && Answer(s, size, records)
    ensures Ordered(Polled(text, s, records, fate))
  {
    NewCursorIsSeen(text, s.cursor, records);
    assert forall r :: r in records ==> r in s.server;
  }

  lemma OrderedStep(text: int -> string, s: State, size: nat, e: Event)
    requires Ordered(s) && Enabled(s, size, e) && (e.Arrive? ==> Above(s, e.r))
    ensures Ordered(Next(text, s, e)) && Safe(text, s, e)
  {
    match e
    case Arrive(r) =>
      if s.cursor.Some? {
        var q :| q in s.server && q.ts == s.cursor.value;
        assert q in Next(text, s, e).server;
      }
    case Poll(records, fate) =>
      LeftOutIsNewer(text, s, size, records);
      PolledStaysOrdered(text, s, size, records, fate);
  }

  lemma IncreasingSplits(text: int -> string, events: seq<Event>)
    requires events != [] && Increasing(text, events)
    ensures Increasing(text, events[..|events| - 1])
    ensures events[|events| - 1].Arrive? ==> Above(After(text, events[..|events| - 1]), events[|events| - 1].r)
  {
    var n := |events| - 1;
    assert AboveAt(text, events, n);
    forall i | 0 <= i < n
      ensures AboveAt(text, events[..n], i)
    {
      assert events[..n][..i] == events[..i];
      assert AboveAt(text, events, i);
    }
  }

  /** With strictly increasing times every run is safe, so every record at or below the cursor was handed over:
      at-least-once delivery through any crashes. */
  lemma {:induction false} IncreasingFeedLosesNothing(text: int -> string, size: nat, events: seq<Event>)
    requires Legal(text, size, events) && Increasing(text, events)
    ensures Ordered(After(text, events)) && AllSafe(text, events) && Covered(After(text, events))
  {
    if events != [] {
      var n := |events| - 1;
      PrefixLegal(text, size, events);
      IncreasingSplits(text, events);
      IncreasingFeedLosesNothing(text, size, events[..n]);
      OrderedStep(text, After(text, events[..n]), size, events[n]);
      AllSafeSplits(text, events);
    }
    SafeRunsAreCovered(text, size, events);
  }

  // ----- what equal times do, by example

  predicate CrashFree(events: seq<Event>) {
    forall i :: 0 <= i < |events| && events[i].Poll? ==> events[i].fate == Completed
  }

  lemma TwoArrivals(text: int -> string, a: Record, b: Record)
    ensures After(text, []) == START && After(text, [Arrive(a)]) == State({a}, None, [])
    ensures After(text, [Arrive(a), Arrive(b)]) == State({a, b}, None, [])
  {
    assert [Arrive(a)][..0] == [];
    assert [Arrive(a), Arrive(b)][..1] == [Arrive(a)];
  }

  lemma OneOfTwo(text: int -> string, a: Record, b: Record)
    requires a != b && a.ts == b.ts
    ensures Answer(State({a, b}, None, []), 1, [a])
    ensures Polled(text, State({a, b}, None, []), [a], Completed) == State({a, b}, Some(a.ts), [a])
  {
    assert Waiting(State({a, b}, None, [])) == {a, b};
    assert [a][..0] == [] && NewCursor(text, None, []) == None;
  }

  /** Equal times across the end of a page: the record that did not fit is skipped for good. */
  lemma EqualTimesAreLost(text: int -> string)
    ensures exists events, r :: Legal(text, 1, events) && CrashFree(events) && Lost(After(text, events), r)
  {
    var a, b := Record("a", 7), Record("b", 7);
    var events := [Arrive(a), Arrive(b), Poll([a], Completed)];
    TwoArrivals(text, a, b);
    OneOfTwo(text, a, b);
    assert events[..0] == [] && events[..1] == [Arrive(a)] && events[..2] == [Arrive(a), Arrive(b)];
    assert After(text, events) == State({a, b}, Some(7), [a]);
    assert Legal(text, 1, events);
    assert Lost(After(text, events), b);
  }
}
