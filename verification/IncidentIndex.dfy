/** The incident index and its KPIs (utils/incident_index.py).

    Times are seconds; text timestamps sort and subtract as their times do (see IsoTime). A SQL NULL is None. */
module IncidentIndex {
  import opened Wrappers
  import opened Stats

  /** `SEVERITY_RANK.get(severity, 0)` */
  function Rank(severity: string): nat {
    if severity == "critical" then 3
    else if severity == "high" then 2
    else if severity == "medium" then 1
    else 0
  }

  predicate Terminal(status: string) {
    status == "closed" || status == "contained"
  }

  predicate Pending(status: string) {
    status == "pending_approval"
  }

  /** The four severities; any other text ranks lowest. */
  lemma RankValues(severity: string)
    ensures Rank("low") == 0 && Rank("medium") == 1 && Rank("high") == 2 && Rank("critical") == 3
    ensures severity !in {"low", "medium", "high", "critical"} ==> Rank(severity) == 0
  {
  }

  /** The statuses that stamp a row. */
  lemma StampingStatuses(status: string)
    ensures Terminal(status) <==> status in {"closed", "contained"}
    ensures Pending(status) <==> status in {"pending_approval"}
  {
  }

  datatype Row = Row(severity: string, status: string, createdAt: Option<real>, updatedAt: real,
                     pendingApprovalAt: Option<real>, resolvedAt: Option<real>, maxSeverityRank: Option<nat>,
                     assignedTo: Option<string>)

  type Table = map<string, Row>

  datatype Op =
    | Upsert(threadId: string, severity: string, status: string, now: real)
    | Assign(threadId: string, who: Option<string>)

  function Coalesce<T>(a: Option<T>, b: Option<T>): Option<T> {
    if a.Some? then a else b
  }

  /** SQLite's scalar MAX is NULL as soon as one argument is NULL. */
  function SqlMax(a: Option<nat>, b: Option<nat>): Option<nat> {
    if a == None || b == None then None
    else if a.value < b.value then b
    else a
  }

  function Inserted(op: Op): Row
    requires op.Upsert?
  {
    Row(op.severity, op.status, Some(op.now), op.now,
        if Pending(op.status) then Some(op.now) else None,
        if Terminal(op.status) then Some(op.now) else None,
        Some(Rank(op.severity)), None)
  }

  /** `ON CONFLICT(thread_id) DO UPDATE SET ...`: created_at and assigned_to are not in the list. */
  function Updated(row: Row, op: Op): Row
    requires op.Upsert?
  {
    var excluded := Inserted(op);
    row.(severity := excluded.severity, status := excluded.status, updatedAt := excluded.updatedAt,
         pendingApprovalAt := Coalesce(row.pendingApprovalAt, excluded.pendingApprovalAt),
         resolvedAt := Coalesce(row.resolvedAt, excluded.resolvedAt),
         maxSeverityRank := SqlMax(row.maxSeverityRank, excluded.maxSeverityRank))
  }

  function Applied(table: Table, op: Op): Table {
    match op
    case Upsert(t, _, _, _) => table[t := if t in table then Updated(table[t], op) else Inserted(op)]
    case Assign(t, who) => if t in table then table[t := table[t].(assignedTo := who)] else table
  }

  class Index {
    var rows: Table

    /** `seed` is what an older schema left behind. */
    constructor (seed: Table)
      ensures rows == seed
    {
      rows := seed;
    }

    method UpsertIncidentSummary(threadId: string, severity: string, status: string, now: real)
      modifies this
      ensures rows == Applied(old(rows), Upsert(threadId, severity, status, now))
    {
      var op := Upsert(threadId, severity, status, now);
      if threadId in rows {
        rows := rows[threadId := Updated(rows[threadId], op)];
      } else {
        rows := rows[threadId := Inserted(op)];
      }
    }

    method SetAssignedTo(threadId: string, who: Option<string>) returns (found: bool)
      modifies this
      ensures rows == Applied(old(rows), Assign(threadId, if who == Some("") then None else who))
      ensures found <==> threadId in rows
    {
      found := threadId in rows;
      if found {
        rows := rows[threadId := rows[threadId].(assignedTo := if who == Some("") then None else who)];
      }
    }
  }

  // ----- the row as a fold of the history

  function After(seed: Table, ops: seq<Op>): Table {
    if ops == [] then seed else Applied(After(seed, ops[..|ops| - 1]), ops[|ops| - 1])
  }

  predicate Touches(op: Op, t: string, test: string -> bool) {
    op.Upsert? && op.threadId == t && test(op.status)
  }

  predicate Any(status: string) {
    true
  }

  /** The time of the first upsert of `t` whose status passes the test. */
  function FirstTime(ops: seq<Op>, t: string, test: string -> bool): Option<real> {
    if ops == [] then None
    else
      var n := |ops| - 1;
      var before := FirstTime(ops[..n], t, test);
      if before.Some? then before
      else if Touches(ops[n], t, test) then Some(ops[n].now)
      else None
  }

  /** The highest severity rank `t` ever had. */
  function HighestRank(ops: seq<Op>, t: string): Option<nat> {
    if ops == [] then None
    else
      var n := |ops| - 1;
      var before := HighestRank(ops[..n], t);
      if !Touches(ops[n], t, Any) then before
      else if before == None || before.value < Rank(ops[n].severity) then Some(Rank(ops[n].severity))
      else before
  }

  /** The last assignment made while `t` was in the index. */
  function LastAssignee(ops: seq<Op>, t: string): Option<string> {
    if ops == [] then None
    else
      var n := |ops| - 1;
      if ops[n].Assign? && ops[n].threadId == t && FirstTime(ops[..n], t, Any).Some? then ops[n].who
      else LastAssignee(ops[..n], t)
  }

  /** The row a history calls for. */
  ghost predicate RowMatches(table: Table, ops: seq<Op>, t: string) {
    && (t in table <==> FirstTime(ops, t, Any).Some?)
    && (t in table ==>
      && table[t].createdAt == FirstTime(ops, t, Any)
      && table[t].pendingApprovalAt == FirstTime(ops, t, Pending)
      && table[t].resolvedAt == FirstTime(ops, t, Terminal)
      && table[t].maxSeverityRank == HighestRank(ops, t) != None
      && table[t].assignedTo == LastAssignee(ops, t))
    && (t !in table ==>
      && FirstTime(ops, t, Pending) == None && FirstTime(ops, t, Terminal) == None
      && HighestRank(ops, t) == None && LastAssignee(ops, t) == None)
  }

  lemma FirstTimeStep(ops: seq<Op>, t: string, test: string -> bool)
    requires ops != []
    ensures FirstTime(ops, t, test) == var n := |ops| - 1;
      Coalesce(FirstTime(ops[..n], t, test), if Touches(ops[n], t, test) then Some(ops[n].now) else None)
  {
  }

  lemma HighestRankStep(ops: seq<Op>, t: string)
    requires ops != []
    ensures HighestRank(ops, t) == var n := |ops| - 1;
      if !Touches(ops[n], t, Any) then HighestRank(ops[..n], t)
      else if HighestRank(ops[..n], t) == None then Some(Rank(ops[n].severity))
      else SqlMax(HighestRank(ops[..n], t), Some(Rank(ops[n].severity)))
  {
  }

  lemma LastAssigneeStep(ops: seq<Op>, t: string)
    requires ops != []
    ensures LastAssignee(ops, t) == var n := |ops| - 1;
      if ops[n].Assign? && ops[n].threadId == t && FirstTime(ops[..n], t, Any).Some? then ops[n].who
      else LastAssignee(ops[..n], t)
  {
  }

  lemma RowMatchesStep(table: Table, ops: seq<Op>, t: string)
    requires ops != [] && RowMatches(table, ops[..|ops| - 1], t)
    ensures RowMatches(Applied(table, ops[|ops| - 1]), ops, t)
  {
    FirstTimeStep(ops, t, Any);
    FirstTimeStep(ops, t, Pending);
    FirstTimeStep(ops, t, Terminal);
    HighestRankStep(ops, t);
    LastAssigneeStep(ops, t);
  }

  /** For a thread first inserted under the current schema, whatever other threads do in between, the
      set-once columns are the first times of the history and the rank is the highest ever; upserts never
      disturb the assignment. */
  lemma {:induction false} RowIsHistory(seed: Table, ops: seq<Op>, t: string)
    requires t !in seed
    ensures RowMatches(After(seed, ops), ops, t)
  {
    if ops != [] {
      RowIsHistory(seed, ops[..|ops| - 1], t);
      RowMatchesStep(After(seed, ops[..|ops| - 1]), ops, t);
    }
  }

  /** The last upsert of `t`. */
  function LastUpsert(ops: seq<Op>, t: string): Option<Op> {
    if ops == [] then None
    else if Touches(ops[|ops| - 1], t, Any) then Some(ops[|ops| - 1])
    else LastUpsert(ops[..|ops| - 1], t)
  }

  /** The other columns follow the last upsert. */
  ghost predicate RowIsCurrent(table: Table, last: Option<Op>, t: string) {
    && (t in table <==> last.Some?)
    && (t in table ==> last.value.Upsert? && table[t].severity == last.value.severity
                       && table[t].status == last.value.status && table[t].updatedAt == last.value.now)
  }

  lemma CurrentStep(table: Table, last: Option<Op>, op: Op, t: string)
    requires RowIsCurrent(table, last, t)
    ensures RowIsCurrent(Applied(table, op), if Touches(op, t, Any) then Some(op) else last, t)
  {
  }

  /** Severity, status and update time are those of the last upsert, whatever was assigned in between. */
  lemma {:induction false} RowFollowsLastUpsert(seed: Table, ops: seq<Op>, t: string)
    requires t !in seed
    ensures RowIsCurrent(After(seed, ops), LastUpsert(ops, t), t)
  {
    if ops != [] {
      RowFollowsLastUpsert(seed, ops[..|ops| - 1], t);
      CurrentStep(After(seed, ops[..|ops| - 1]), LastUpsert(ops[..|ops| - 1], t), ops[|ops| - 1], t);
    }
  }

  /** `t` was once upserted with a severity of at least this rank. */
  ghost predicate EverRanked(ops: seq<Op>, t: string, rank: nat) {
    exists i :: 0 <= i < |ops| && Touches(ops[i], t, Any) && Rank(ops[i].severity) >= rank
  }

  lemma EverRankedSplits(ops: seq<Op>, t: string, rank: nat)
    requires ops != []
    ensures EverRanked(ops, t, rank) <==>
      (EverRanked(ops[..|ops| - 1], t, rank) || (Touches(ops[|ops| - 1], t, Any) && Rank(ops[|ops| - 1].severity) >= rank))
  {
    var n := |ops| - 1;
    if EverRanked(ops[..n], t, rank) {
      var i :| 0 <= i < n && Touches(ops[..n][i], t, Any) && Rank(ops[..n][i].severity) >= rank;
      assert ops[i] == ops[..n][i];
    }
    if EverRanked(ops, t, rank) {
      var i :| 0 <= i < |ops| && Touches(ops[i], t, Any) && Rank(ops[i].severity) >= rank;
      assert i < n ==> ops[..n][i] == ops[i];
    }
  }

  /** An incident counts as escalated exactly if some upsert ever gave it that severity, whatever it is now. */
  lemma {:induction false} RankIsEver(ops: seq<Op>, t: string, rank: nat)
    ensures (HighestRank(ops, t).Some? && HighestRank(ops, t).value >= rank) <==> EverRanked(ops, t, rank)
  {
    if ops != [] {
      RankIsEver(ops[..|ops| - 1], t, rank);
      EverRankedSplits(ops, t, rank);
      HighestRankStep(ops, t);
    }
  }

  /** The rank that `MAX` leaves: NULL if the row that was there had none, else the greatest of its rank and the
      ranks of the history. */
  function RankCalledFor(seed: Table, ops: seq<Op>, t: string): Option<nat> {
    if t !in seed then HighestRank(ops, t)
    else if HighestRank(ops, t) == None then seed[t].maxSeverityRank
    else SqlMax(seed[t].maxSeverityRank, HighestRank(ops, t))
  }

  /** What one operation does to a rank that is there. */
  function RankAfter(table: Table, op: Op, t: string): Option<nat>
    requires t in table || Touches(op, t, Any)
  {
    if !Touches(op, t, Any) then table[t].maxSeverityRank
    else if t !in table then Some(Rank(op.severity))
    else SqlMax(table[t].maxSeverityRank, Some(Rank(op.severity)))
  }

  lemma RankStep(table: Table, op: Op, t: string)
    ensures t in Applied(table, op) <==> t in table || Touches(op, t, Any)
    ensures t in Applied(table, op) ==> Applied(table, op)[t].maxSeverityRank == RankAfter(table, op, t)
  {
  }

  lemma SqlMaxAssociative(a: Option<nat>, b: nat, c: nat)
    ensures SqlMax(SqlMax(a, Some(b)), Some(c)) == SqlMax(a, SqlMax(Some(b), Some(c)))
  {
  }

  lemma RankStepOfHistory(seed: Table, ops: seq<Op>, t: string, before: Option<nat>)
    requires ops != [] && before == RankCalledFor(seed, ops[..|ops| - 1], t)
    requires Touches(ops[|ops| - 1], t, Any)
    ensures RankCalledFor(seed, ops, t) ==
      if t !in seed && before == None then Some(Rank(ops[|ops| - 1].severity))
      else SqlMax(before, Some(Rank(ops[|ops| - 1].severity)))
  {
    HighestRankStep(ops, t);
    var h := HighestRank(ops[..|ops| - 1], t);
    if t in seed && h.Some? {
      SqlMaxAssociative(seed[t].maxSeverityRank, h.value, Rank(ops[|ops| - 1].severity));
    }
  }

  /** Every row, from whatever an older schema left behind, has exactly that rank. */
  lemma {:induction false} RowRank(seed: Table, ops: seq<Op>, t: string)
    ensures t in After(seed, ops) <==> t in seed || HighestRank(ops, t).Some?
    ensures t in After(seed, ops) ==> After(seed, ops)[t].maxSeverityRank == RankCalledFor(seed, ops, t)
  {
    if ops != [] {
      var n := |ops| - 1;
      RowRank(seed, ops[..n], t);
      RankStep(After(seed, ops[..n]), ops[n], t);
      HighestRankStep(ops, t);
      if Touches(ops[n], t, Any) {
        RankStepOfHistory(seed, ops, t, RankCalledFor(seed, ops[..n], t));
      }
    }
  }

  /** The rank of an upserted incident is known if and only if its row was inserted under the current schema or had a
      rank when the schema changed; it is then the greatest ever seen, of the row and of the history. A row without one
      never gets one, so such an incident is never counted as escalated. */
  lemma RankIsKnownExactly(seed: Table, ops: seq<Op>, t: string)
    requires HighestRank(ops, t).Some?
    ensures t in After(seed, ops)
    ensures After(seed, ops)[t].maxSeverityRank.Some? <==> t !in seed || seed[t].maxSeverityRank.Some?
    ensures After(seed, ops)[t].maxSeverityRank.Some? ==> IsHighest(seed, ops, t, After(seed, ops)[t].maxSeverityRank.value)
  {
    RowRank(seed, ops, t);
    forall rank: nat
      ensures HighestRank(ops, t).value >= rank <==> EverRanked(ops, t, rank)
    {
      RankIsEver(ops, t, rank);
    }
  }

  /** `top` reaches a level exactly if some upsert gave the incident that level or the older row had it. */
  ghost predicate IsHighest(seed: Table, ops: seq<Op>, t: string, top: nat) {
    forall rank: nat {:trigger EverRanked(ops, t, rank)} ::
      top >= rank <==> (EverRanked(ops, t, rank) || (t in seed && seed[t].maxSeverityRank.Some? && seed[t].maxSeverityRank.value >= rank))
  }

  /** created_at has no update clause, so a row keeps the one it has, also none. */
  lemma {:induction false} CreationTimeStays(seed: Table, ops: seq<Op>, t: string)
    requires t in seed
    ensures t in After(seed, ops) && After(seed, ops)[t].createdAt == seed[t].createdAt
  {
    if ops != [] {
      CreationTimeStays(seed, ops[..|ops| - 1], t);
    }
  }

  ghost predicate Clocked(ops: seq<Op>) {
    forall i, j :: 0 <= i <= j < |ops| && ops[i].Upsert? && ops[j].Upsert? ==> ops[i].now <= ops[j].now
  }

  lemma {:induction false} FirstTimeIsEarliest(ops: seq<Op>, t: string, test: string -> bool)
    requires Clocked(ops)
    ensures match FirstTime(ops, t, test)
      case None => forall i :: 0 <= i < |ops| ==> !Touches(ops[i], t, test)
      case Some(first) =>
        && (exists i :: 0 <= i < |ops| && Touches(ops[i], t, test) && ops[i].now == first)
        && forall i :: 0 <= i < |ops| && Touches(ops[i], t, test) ==> first <= ops[i].now
  {
    if ops != [] {
      var n := |ops| - 1;
      FirstTimeIsEarliest(ops[..n], t, test);
      if FirstTime(ops[..n], t, test).Some? {
        var i :| 0 <= i < n && Touches(ops[..n][i], t, test) && ops[..n][i].now == FirstTime(ops, t, test).value;
        assert Touches(ops[i], t, test);
      }
    }
  }

  // ----- KPIs from rows and from the history

  /** `created_at >= ?` is not true of NULL. */
  predicate InScope(createdAt: Option<real>, since: Option<real>) {
    since == None || (createdAt.Some? && createdAt.value >= since.value)
  }

  function Difference(later: Option<real>, earlier: Option<real>): seq<real> {
    if later.Some? && earlier.Some? then [later.value - earlier.value] else []
  }

  datatype Kpis = Kpis(total: nat, escalated: nat, mttr: Option<Summary>, dwell: Option<Summary>)

  /** What one incident contributes. */
  datatype Facts = Facts(createdAt: Option<real>, pendingAt: Option<real>, resolvedAt: Option<real>, rank: Option<nat>)

  function RowFacts(row: Row): Facts {
    Facts(row.createdAt, row.pendingApprovalAt, row.resolvedAt, row.maxSeverityRank)
  }

  function HistoryFacts(ops: seq<Op>, t: string): Facts {
    Facts(FirstTime(ops, t, Any), FirstTime(ops, t, Pending), FirstTime(ops, t, Terminal), HighestRank(ops, t))
  }

  function Scoped(facts: seq<Facts>, since: Option<real>): seq<Facts> {
    if facts == [] then []
    else
      var rest := Scoped(facts[..|facts| - 1], since);
      if InScope(facts[|facts| - 1].createdAt, since) then rest + [facts[|facts| - 1]] else rest
  }

  function Escalated(facts: seq<Facts>): nat {
    if facts == [] then 0
    else
      var last := facts[|facts| - 1];
      Escalated(facts[..|facts| - 1]) + if last.rank.Some? && last.rank.value >= Rank("high") then 1 else 0
  }

  function Mttrs(facts: seq<Facts>): seq<real> {
    if facts == [] then []
    else Mttrs(facts[..|facts| - 1]) + Difference(facts[|facts| - 1].resolvedAt, facts[|facts| - 1].createdAt)
  }

  function Dwells(facts: seq<Facts>): seq<real> {
    if facts == [] then []
    else Dwells(facts[..|facts| - 1]) + Difference(facts[|facts| - 1].resolvedAt, facts[|facts| - 1].pendingAt)
  }

  /** `get_kpi_stats` over the rows in the order the database returns them. */
  function KpiStats(facts: seq<Facts>, since: Option<real>): Kpis {
    var scoped := Scoped(facts, since);
    Kpis(|scoped|, Escalated(scoped), MeanMedian(Mttrs(scoped)), MeanMedian(Dwells(scoped)))
  }

  function TableFacts(table: Table, order: seq<string>): (r: seq<Facts>)
    requires forall t :: t in order ==> t in table
    ensures |r| == |order| && forall i :: 0 <= i < |r| ==> r[i] == RowFacts(table[order[i]])
  {
    seq(|order|, i requires 0 <= i < |order| => RowFacts(table[order[i]]))
  }

  function AllHistoryFacts(ops: seq<Op>, order: seq<string>): (r: seq<Facts>)
    ensures |r| == |order| && forall i :: 0 <= i < |r| ==> r[i] == HistoryFacts(ops, order[i])
  {
    seq(|order|, i requires 0 <= i < |order| => HistoryFacts(ops, order[i]))
  }

  /** The KPIs computed from the rows are the KPIs of the full history: MTTR, dwell time and escalation
      counts lose nothing by keeping one row per incident. */
  lemma KpisAreHistory(seed: Table, ops: seq<Op>, order: seq<string>, since: Option<real>)
    requires forall t :: t in order ==> t in After(seed, ops) && t !in seed
    ensures KpiStats(TableFacts(After(seed, ops), order), since) == KpiStats(AllHistoryFacts(ops, order), since)
  {
    var a, b := TableFacts(After(seed, ops), order), AllHistoryFacts(ops, order);
    forall i | 0 <= i < |order|
      ensures a[i] == b[i]
    {
      assert order[i] in order;
      RowIsHistory(seed, ops, order[i]);
    }
    assert a == b;
  }

  // ----- the order of rows is immaterial

  lemma {:induction false} ScopedMultiset(facts: seq<Facts>, since: Option<real>, f: Facts)
    ensures multiset(Scoped(facts, since))[f] == if InScope(f.createdAt, since) then multiset(facts)[f] else 0
  {
    if facts != [] {
      var n := |facts| - 1;
      ScopedMultiset(facts[..n], since, f);
      assert facts == facts[..n] + [facts[n]];
    }
  }

  /** Removing one occurrence from each of two permutations leaves two permutations. */
  lemma {:induction false} MultisetPick(a: seq<Facts>, b: seq<Facts>) returns (i: nat)
    requires multiset(a) == multiset(b) && a != []
    ensures i < |b| && b[i] == a[|a| - 1]
    ensures multiset(a[..|a| - 1]) == multiset(b[..i] + b[i + 1..])
    ensures b == b[..i] + [b[i]] + b[i + 1..]
  {
    var n := |a| - 1;
    assert a[n] in multiset(a);
    assert a[n] in b;
    i :| 0 <= i < |b| && b[i] == a[n];
    assert a == a[..n] + [a[n]];
    assert b == b[..i] + [b[i]] + b[i + 1..];
    assert multiset(b) == multiset(b[..i]) + multiset{b[i]} + multiset(b[i + 1..]);
    assert multiset(a[..n]) == multiset(a) - multiset{a[n]};
  }

  lemma DropLastConcat(a: seq<Facts>, b: seq<Facts>)
    requires b != []
    ensures (a + b)[..|a + b| - 1] == a + b[..|b| - 1] && (a + b)[|a + b| - 1] == b[|b| - 1]
  {
  }

  lemma {:induction false} MttrsConcat(a: seq<Facts>, b: seq<Facts>)
    ensures Mttrs(a + b) == Mttrs(a) + Mttrs(b)
  {
    if b == [] {
      assert a + b == a;
    } else {
      DropLastConcat(a, b);
      MttrsConcat(a, b[..|b| - 1]);
    }
  }

  lemma {:induction false} DwellsConcat(a: seq<Facts>, b: seq<Facts>)
    ensures Dwells(a + b) == Dwells(a) + Dwells(b)
  {
    if b == [] {
      assert a + b == a;
    } else {
      DropLastConcat(a, b);
      DwellsConcat(a, b[..|b| - 1]);
    }
  }

  lemma {:induction false} EscalatedConcat(a: seq<Facts>, b: seq<Facts>)
    ensures Escalated(a + b) == Escalated(a) + Escalated(b)
  {
    if b == [] {
      assert a + b == a;
    } else {
      DropLastConcat(a, b);
      EscalatedConcat(a, b[..|b| - 1]);
    }
  }

  lemma BagMove(b: seq<real>, c: seq<real>, x: seq<real>)
    ensures multiset((b + x) + c) == multiset((b + c) + x)
  {
  }

  lemma MttrsMove(b: seq<Facts>, c: seq<Facts>, x: seq<Facts>)
    ensures multiset(Mttrs((b + x) + c)) == multiset(Mttrs((b + c) + x))
  {
    MttrsConcat(b + x, c);
    MttrsConcat(b, x);
    MttrsConcat(b + c, x);
    MttrsConcat(b, c);
    BagMove(Mttrs(b), Mttrs(c), Mttrs(x));
  }

  lemma DwellsMove(b: seq<Facts>, c: seq<Facts>, x: seq<Facts>)
    ensures multiset(Dwells((b + x) + c)) == multiset(Dwells((b + c) + x))
  {
    DwellsConcat(b + x, c);
    DwellsConcat(b, x);
    DwellsConcat(b + c, x);
    DwellsConcat(b, c);
    BagMove(Dwells(b), Dwells(c), Dwells(x));
  }

  lemma EscalatedMove(b: seq<Facts>, c: seq<Facts>, x: seq<Facts>)
    ensures Escalated((b + x) + c) == Escalated((b + c) + x)
  {
    EscalatedConcat(b + x, c);
    EscalatedConcat(b, x);
    EscalatedConcat(b + c, x);
    EscalatedConcat(b, c);
  }

  lemma {:induction false} ValuesPermute(a: seq<Facts>, b: seq<Facts>)
    requires multiset(a) == multiset(b)
    ensures multiset(Mttrs(a)) == multiset(Mttrs(b)) && multiset(Dwells(a)) == multiset(Dwells(b))
    ensures Escalated(a) == Escalated(b)
    decreases |a|
  {
    if a == [] {
      assert |multiset(b)| == 0;
      assert b == [];
    } else {
      var i := MultisetPick(a, b);
      var rest, x := b[..i] + b[i + 1..], [b[i]];
      assert a == a[..|a| - 1] + x;
      ValuesPermute(a[..|a| - 1], rest);
      MttrsSnoc(a[..|a| - 1], rest, x);
      DwellsSnoc(a[..|a| - 1], rest, x);
      EscalatedConcat(a[..|a| - 1], x);
      EscalatedConcat(rest, x);
      MttrsMove(b[..i], b[i + 1..], x);
      DwellsMove(b[..i], b[i + 1..], x);
      EscalatedMove(b[..i], b[i + 1..], x);
    }
  }

  lemma MttrsSnoc(a: seq<Facts>, b: seq<Facts>, x: seq<Facts>)
    requires multiset(Mttrs(a)) == multiset(Mttrs(b))
    ensures multiset(Mttrs(a + x)) == multiset(Mttrs(b + x))
  {
    MttrsConcat(a, x);
    MttrsConcat(b, x);
  }

  lemma DwellsSnoc(a: seq<Facts>, b: seq<Facts>, x: seq<Facts>)
    requires multiset(Dwells(a)) == multiset(Dwells(b))
    ensures multiset(Dwells(a + x)) == multiset(Dwells(b + x))
  {
    DwellsConcat(a, x);
    DwellsConcat(b, x);
  }

  /** Whatever order the database returns the rows in, the KPIs are the same. */
  lemma KpisIgnoreRowOrder(facts: seq<Facts>, shuffled: seq<Facts>, since: Option<real>)
    requires multiset(facts) == multiset(shuffled)
    ensures KpiStats(facts, since) == KpiStats(shuffled, since)
  {
    var a, b := Scoped(facts, since), Scoped(shuffled, since);
    forall f
      ensures multiset(a)[f] == multiset(b)[f]
    {
      ScopedMultiset(facts, since, f);
      ScopedMultiset(shuffled, since, f);
    }
    assert multiset(a) == multiset(b);
    assert |a| == |multiset(a)| == |multiset(b)| == |b|;
    ValuesPermute(a, b);
    MeanMedianIgnoresOrder(Mttrs(a), Mttrs(b));
    MeanMedianIgnoresOrder(Dwells(a), Dwells(b));
  }

  // ----- what the KPIs report

  /** How many facts satisfy `p`. */
  function Number(facts: seq<Facts>, p: Facts -> bool): nat {
    |set i | 0 <= i < |facts| && p(facts[i])|
  }

  lemma NumberSnoc(facts: seq<Facts>, p: Facts -> bool)
    requires facts != []
    ensures Number(facts, p) == Number(facts[..|facts| - 1], p) + if p(facts[|facts| - 1]) then 1 else 0
  {
    var n := |facts| - 1;
    var before, after := set i | 0 <= i < n && p(facts[..n][i]), set i | 0 <= i < |facts| && p(facts[i]);
    assert after == if p(facts[n]) then before + {n} else before;
  }

  /** Incidents created at or after `since`; all of them if there is no such bound. */
  predicate Counted(f: Facts, since: Option<real>) {
    match since
    case None => true
    case Some(t) => f.createdAt.Some? && t <= f.createdAt.value
  }

  /** A counted incident has both times, `x` seconds apart. */
  predicate Spans(f: Facts, since: Option<real>, from: Option<real>, x: real) {
    Counted(f, since) && f.resolvedAt.Some? && from.Some? && f.resolvedAt.value == from.value + x
  }

  function InSight(since: Option<real>): Facts -> bool {
    (f: Facts) => Counted(f, since)
  }

  function High(since: Option<real>): Facts -> bool {
    (f: Facts) => Counted(f, since) && f.rank.Some? && f.rank.value >= 2
  }

  function Resolving(since: Option<real>, x: real): Facts -> bool {
    (f: Facts) => Spans(f, since, f.createdAt, x)
  }

  function Deciding(since: Option<real>, x: real): Facts -> bool {
    (f: Facts) => Spans(f, since, f.pendingAt, x)
  }

  lemma {:induction false} TotalCounts(facts: seq<Facts>, since: Option<real>)
    ensures |Scoped(facts, since)| == Number(facts, InSight(since))
  {
    if facts != [] {
      TotalCounts(facts[..|facts| - 1], since);
      NumberSnoc(facts, InSight(since));
    }
  }

  lemma {:induction false} EscalatedCounts(facts: seq<Facts>, since: Option<real>)
    ensures Escalated(Scoped(facts, since)) == Number(facts, High(since))
  {
    if facts != [] {
      var n := |facts| - 1;
      EscalatedCounts(facts[..n], since);
      NumberSnoc(facts, High(since));
      EscalatedConcat(Scoped(facts[..n], since), [facts[n]]);
      assert [facts[n]][..0] == [];
    }
  }

  lemma OneSpan(f: Facts, x: real)
    ensures Mttrs([f]) == Difference(f.resolvedAt, f.createdAt) && Dwells([f]) == Difference(f.resolvedAt, f.pendingAt)
    ensures multiset(Mttrs([f]))[x] == if Spans(f, None, f.createdAt, x) then 1 else 0
    ensures multiset(Dwells([f]))[x] == if Spans(f, None, f.pendingAt, x) then 1 else 0
  {
    assert [f][..0] == [];
    assert Mttrs([f][..0]) == [] && Dwells([f][..0]) == [];
  }

  lemma {:induction false} MttrsCount(facts: seq<Facts>, since: Option<real>, x: real)
    ensures multiset(Mttrs(Scoped(facts, since)))[x] == Number(facts, Resolving(since, x))
  {
    if facts != [] {
      var n := |facts| - 1;
      MttrsCount(facts[..n], since, x);
      NumberSnoc(facts, Resolving(since, x));
      MttrsConcat(Scoped(facts[..n], since), [facts[n]]);
      OneSpan(facts[n], x);
    }
  }

  lemma {:induction false} DwellsCount(facts: seq<Facts>, since: Option<real>, x: real)
    ensures multiset(Dwells(Scoped(facts, since)))[x] == Number(facts, Deciding(since, x))
  {
    if facts != [] {
      var n := |facts| - 1;
      DwellsCount(facts[..n], since, x);
      NumberSnoc(facts, Deciding(since, x));
      DwellsConcat(Scoped(facts[..n], since), [facts[n]]);
      OneSpan(facts[n], x);
    }
  }

  /** `times` holds every resolution time, from creation on, of the counted incidents, as often as it occurs. */
  ghost predicate AreResolutionTimes(times: seq<real>, facts: seq<Facts>, since: Option<real>) {
    forall x :: multiset(times)[x] == Number(facts, Resolving(since, x))
  }

  ghost predicate AreDwellTimes(times: seq<real>, facts: seq<Facts>, since: Option<real>) {
    forall x :: multiset(times)[x] == Number(facts, Deciding(since, x))
  }

  lemma MttrReports(facts: seq<Facts>, since: Option<real>, times: seq<real>)
    requires AreResolutionTimes(times, facts, since)
    ensures KpiStats(facts, since).mttr == MeanMedian(times)
  {
    var mttrs := Mttrs(Scoped(facts, since));
    forall x
      ensures multiset(mttrs)[x] == multiset(times)[x]
    {
      MttrsCount(facts, since, x);
    }
    assert multiset(mttrs) == multiset(times);
    MeanMedianIgnoresOrder(mttrs, times);
  }

  lemma DwellReports(facts: seq<Facts>, since: Option<real>, times: seq<real>)
    requires AreDwellTimes(times, facts, since)
    ensures KpiStats(facts, since).dwell == MeanMedian(times)
  {
    var dwells := Dwells(Scoped(facts, since));
    forall x
      ensures multiset(dwells)[x] == multiset(times)[x]
    {
      DwellsCount(facts, since, x);
    }
    assert multiset(dwells) == multiset(times);
    MeanMedianIgnoresOrder(dwells, times);
  }

  /** The whole report: how many incidents are counted, how many of them ever reached "high", and mean and median of any
      listing of their resolution and dwell times. */
  lemma KpisExactly(facts: seq<Facts>, since: Option<real>, resolution: seq<real>, dwell: seq<real>)
    requires AreResolutionTimes(resolution, facts, since) && AreDwellTimes(dwell, facts, since)
    ensures KpiStats(facts, since).total == Number(facts, InSight(since))
    ensures KpiStats(facts, since).escalated == Number(facts, High(since))
    ensures KpiStats(facts, since).mttr == MeanMedian(resolution) && KpiStats(facts, since).dwell == MeanMedian(dwell)
  {
    TotalCounts(facts, since);
    EscalatedCounts(facts, since);
    MttrReports(facts, since, resolution);
    DwellReports(facts, since, dwell);
  }

  /** There always are such listings. */
  lemma TimesExist(facts: seq<Facts>, since: Option<real>)
    ensures exists times :: AreResolutionTimes(times, facts, since)
    ensures exists times :: AreDwellTimes(times, facts, since)
  {
    forall x
      ensures multiset(Mttrs(Scoped(facts, since)))[x] == Number(facts, Resolving(since, x))
      ensures multiset(Dwells(Scoped(facts, since)))[x] == Number(facts, Deciding(since, x))
    {
      MttrsCount(facts, since, x);
      DwellsCount(facts, since, x);
    }
    assert AreResolutionTimes(Mttrs(Scoped(facts, since)), facts, since);
    assert AreDwellTimes(Dwells(Scoped(facts, since)), facts, since);
  }

  // ----- signs

  /** Resolved, if at all, no earlier than created. */
  predicate Forward(f: Facts) {
    f.resolvedAt.Some? && f.createdAt.Some? ==> f.createdAt.value <= f.resolvedAt.value
  }

  lemma HistoryIsForward(ops: seq<Op>, t: string)
    requires Clocked(ops)
    ensures Forward(HistoryFacts(ops, t))
  {
    FirstTimeIsEarliest(ops, t, Terminal);
    FirstTimeIsEarliest(ops, t, Any);
    if FirstTime(ops, t, Terminal).Some? {
      var i :| 0 <= i < |ops| && Touches(ops[i], t, Terminal) && ops[i].now == FirstTime(ops, t, Terminal).value;
      assert Touches(ops[i], t, Any);
    }
  }

  lemma {:induction false} ScopedForward(facts: seq<Facts>, since: Option<real>)
    requires forall f :: f in facts ==> Forward(f)
    ensures forall f :: f in Scoped(facts, since) ==> Forward(f)
  {
    if facts != [] {
      ScopedForward(facts[..|facts| - 1], since);
    }
  }

  lemma {:induction false} MttrsForward(facts: seq<Facts>)
    requires forall f :: f in facts ==> Forward(f)
    ensures forall x :: x in Mttrs(facts) ==> x >= 0.0
  {
    if facts != [] {
      var n := |facts| - 1;
      MttrsForward(facts[..n]);
      assert Forward(facts[n]);
      var last := Difference(facts[n].resolvedAt, facts[n].createdAt);
      assert Mttrs(facts) == Mttrs(facts[..n]) + last;
      assert forall x :: x in last ==> x >= 0.0;
    }
  }

  lemma ReportedForward(facts: seq<Facts>, since: Option<real>)
    requires forall f :: f in facts ==> Forward(f)
    ensures KpiStats(facts, since).mttr.Some? ==> KpiStats(facts, since).mttr.value.mean >= 0.0 && KpiStats(facts, since).mttr.value.median >= 0.0
  {
    ScopedForward(facts, since);
    MttrsForward(Scoped(facts, since));
    var mttrs := Mttrs(Scoped(facts, since));
    if mttrs != [] {
      var top := Highest(mttrs);
      MeanMedianBetween(mttrs, 0.0, top);
    }
  }

  lemma {:induction false} Highest(xs: seq<real>) returns (top: real)
    requires xs != []
    ensures forall x :: x in xs ==> x <= top
  {
    var n := |xs| - 1;
    top := xs[n];
    if n > 0 {
      var before := Highest(xs[..n]);
      if before > top {
        top := before;
      }
    }
    assert forall x :: x in xs ==> x in xs[..n] || x == xs[n];
  }

  /** The MTTR reported of a history with a monotone clock is not negative. */
  lemma MttrIsNonNegative(ops: seq<Op>, order: seq<string>, since: Option<real>)
    requires Clocked(ops)
    ensures var mttr := KpiStats(AllHistoryFacts(ops, order), since).mttr;
      mttr.Some? ==> mttr.value.mean >= 0.0 && mttr.value.median >= 0.0
  {
    var facts := AllHistoryFacts(ops, order);
    forall f | f in facts
      ensures Forward(f)
    {
      var i :| 0 <= i < |facts| && facts[i] == f;
      HistoryIsForward(ops, order[i]);
    }
    ReportedForward(facts, since);
  }

  /** The guard: a pending upsert finds a row that was resolved earlier and never pending. */
  predicate TurnsNegative(table: Table, op: Op, t: string) {
    && Touches(op, t, Pending) && t in table
    && table[t].resolvedAt.Some? && table[t].pendingApprovalAt == None && table[t].resolvedAt.value < op.now
  }

  predicate DwellsNegative(row: Row) {
    row.resolvedAt.Some? && row.pendingApprovalAt.Some? && row.resolvedAt.value < row.pendingApprovalAt.value
  }

  /** No time on the row is later than `now`. */
  predicate StampedBy(row: Row, now: real) {
    && (row.resolvedAt.Some? ==> row.resolvedAt.value <= now)
    && (row.pendingApprovalAt.Some? ==> row.pendingApprovalAt.value <= now)
  }

  lemma DwellStep(table: Table, op: Op, t: string, now: real)
    requires t in table ==> StampedBy(table[t], now)
    requires op.Upsert? ==> now <= op.now
    ensures var after := Applied(table, op);
      && (t in after ==> StampedBy(after[t], if op.Upsert? then op.now else now))
      && ((t in after && DwellsNegative(after[t])) <==> ((t in table && DwellsNegative(table[t])) || TurnsNegative(table, op, t)))
  {
  }

  /** The time of the last upsert of any incident. */
  function LastTime(ops: seq<Op>, start: real): real {
    if ops == [] then start
    else if ops[|ops| - 1].Upsert? then ops[|ops| - 1].now
    else LastTime(ops[..|ops| - 1], start)
  }

  ghost predicate TurnsAt(seed: Table, ops: seq<Op>, t: string, i: nat)
    requires i < |ops|
  {
    TurnsNegative(After(seed, ops[..i]), ops[i], t)
  }

  lemma {:induction false} LastTimeIsLast(ops: seq<Op>, start: real)
    requires Clocked(ops) && forall i :: 0 <= i < |ops| && ops[i].Upsert? ==> start <= ops[i].now
    ensures forall i :: 0 <= i < |ops| && ops[i].Upsert? ==> ops[i].now <= LastTime(ops, start)
    ensures LastTime(ops, start) == start || exists i :: 0 <= i < |ops| && ops[i].Upsert? && ops[i].now == LastTime(ops, start)
  {
    if ops != [] && !ops[|ops| - 1].Upsert? {
      LastTimeIsLast(ops[..|ops| - 1], start);
    }
  }

  ghost predicate EverTurns(seed: Table, ops: seq<Op>, t: string) {
    exists i :: 0 <= i < |ops| && TurnsAt(seed, ops, t, i)
  }

  lemma TurnsSplit(seed: Table, ops: seq<Op>, t: string)
    requires ops != []
    ensures EverTurns(seed, ops, t) <==> EverTurns(seed, ops[..|ops| - 1], t) || TurnsAt(seed, ops, t, |ops| - 1)
  {
    var n := |ops| - 1;
    var before := ops[..n];
    if i :| 0 <= i < |ops| && TurnsAt(seed, ops, t, i) {
      assert i < n ==> before[..i] == ops[..i] && TurnsAt(seed, before, t, i);
    }
    if i :| 0 <= i < n && TurnsAt(seed, before, t, i) {
      assert before[..i] == ops[..i] && TurnsAt(seed, ops, t, i);
    }
  }

  /** An incident's dwell time is negative if and only if some pending upsert found its row already resolved and never
      pending. It holds for incidents inserted under the current schema and for rows of older times alike, unless such a
      row was negative to begin with. */
  lemma {:induction false} DwellSign(seed: Table, ops: seq<Op>, t: string, start: real)
    requires Clocked(ops) && forall i :: 0 <= i < |ops| && ops[i].Upsert? ==> start <= ops[i].now
    requires t in seed ==> StampedBy(seed[t], start) && !DwellsNegative(seed[t])
    ensures t in After(seed, ops) ==> StampedBy(After(seed, ops)[t], LastTime(ops, start))
    ensures t in After(seed, ops) && DwellsNegative(After(seed, ops)[t])
       <==> EverTurns(seed, ops, t)
  {
    if ops != [] {
      var n := |ops| - 1;
      DwellSign(seed, ops[..n], t, start);
      LastTimeIsLast(ops[..n], start);
      DwellStep(After(seed, ops[..n]), ops[n], t, LastTime(ops[..n], start));
      TurnsSplit(seed, ops, t);
    }
  }

  lemma OneValue(x: real)
    ensures MeanMedian([x]) == Some(Summary(x, x, 1))
  {
    assert [x][..0] == [];
    assert Sort([x]) == [x];
    assert Sum([x]) == x;
  }

  lemma OneScoped(f: Facts)
    ensures Scoped([f], None) == [f] && Dwells([f]) == Difference(f.resolvedAt, f.pendingAt)
  {
    assert [f][..0] == [];
    assert Scoped([f][..0], None) == [] && Dwells([f][..0]) == [];
  }

  lemma OneIncident(f: Facts)
    requires f.resolvedAt.Some? && f.pendingAt.Some?
    ensures KpiStats([f], None).dwell == Some(Summary(Dwell(f), Dwell(f), 1))
  {
    OneScoped(f);
    OneValue(Dwell(f));
  }

  function Dwell(f: Facts): real
    requires f.resolvedAt.Some? && f.pendingAt.Some?
  {
    f.resolvedAt.value - f.pendingAt.value
  }

  lemma AfterTwo(seed: Table, first: Op, second: Op)
    ensures After(seed, [first, second]) == Applied(Applied(seed, first), second)
  {
    assert [first, second][..1] == [first] && [first][..0] == [];
    assert After(seed, []) == seed;
    assert After(seed, [first]) == Applied(seed, first);
  }

  /** An incident closed at 1 and pending approval at 5 reports a dwell time of -4. */
  lemma NegativeDwell()
    ensures var ops := [Upsert("t", "high", "closed", 1.0), Upsert("t", "high", "pending_approval", 5.0)];
      KpiStats(TableFacts(After(map[], ops), ["t"]), None).dwell == Some(Summary(-4.0, -4.0, 1))
  {
    var first, second := Upsert("t", "high", "closed", 1.0), Upsert("t", "high", "pending_approval", 5.0);
    AfterTwo(map[], first, second);
    var row := Updated(Inserted(first), second);
    assert Applied(map[], first)["t"] == Inserted(first);
    assert TableFacts(After(map[], [first, second]), ["t"]) == [RowFacts(row)];
    assert row.resolvedAt == Some(1.0) && row.pendingApprovalAt == Some(5.0);
    OneIncident(RowFacts(row));
  }
}
