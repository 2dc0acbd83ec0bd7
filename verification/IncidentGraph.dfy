/** The strand graph (`get_incident_graph` of utils/incident_index.py) and its agreement with the exact tier. */
module IncidentGraph {
  import opened Wrappers
  import opened Alerts
  import CorrelationTiers

  datatype Kind = Incident | Ioc | Asset

  datatype Node = Node(kind: Kind, text: string)

  datatype Edge = Edge(source: string, target: string)

  datatype Graph = Graph(nodes: map<string, Node>, edges: seq<Edge>)

  function Prefix(kind: Kind): string {
    match kind
    case Incident => "incident:"
    case Ioc => "ioc:"
    case Asset => "asset:"
  }

  function Id(kind: Kind, text: string): string {
    Prefix(kind) + text
  }

  lemma IdStart(kind: Kind, text: string)
    ensures |Id(kind, text)| >= 4 && Id(kind, text)[0] == Prefix(kind)[0] && Id(kind, text)[1] == Prefix(kind)[1]
    ensures Id(kind, text)[|Prefix(kind)|..] == text
  {
  }

  /** No incident, IOC and asset can ever get the same node id, whatever text they hold. */
  lemma IdsNeverCollide(k1: Kind, l1: string, k2: Kind, l2: string)
    ensures Id(k1, l1) == Id(k2, l2) <==> k1 == k2 && l1 == l2
  {
    IdStart(k1, l1);
    IdStart(k2, l2);
  }

  /** The ids as a client of the graph sees them. */
  lemma IdsAre(text: string)
    ensures Id(Incident, text) == "incident:" + text && Id(Ioc, text) == "ioc:" + text && Id(Asset, text) == "asset:" + text
  {
  }

  /** Incident `thread` is itself (kind Incident), or names an IOC or an asset. */
  datatype Mention = Mention(thread: string, kind: Kind, text: string)

  function Strand(thread: string, kind: Kind, text: string): Edge {
    Edge(Id(Incident, thread), Id(kind, text))
  }

  /** An incident's node is written anew; an IOC's or an asset's node is only set if it is not there
      (`setdefault`), and joined to the incident each time it is named. */
  function Added(g: Graph, m: Mention): Graph {
    var id := Id(m.kind, m.text);
    if m.kind == Incident then g.(nodes := g.nodes[id := Node(Incident, m.text)])
    else Graph(if id in g.nodes then g.nodes else g.nodes[id := Node(m.kind, m.text)],
               g.edges + [Strand(m.thread, m.kind, m.text)])
  }

  function Built(ms: seq<Mention>): Graph {
    if ms == [] then Graph(map[], []) else Added(Built(ms[..|ms| - 1]), ms[|ms| - 1])
  }

  function Named(thread: string, kind: Kind, texts: seq<string>): (r: seq<Mention>)
    ensures |r| == |texts| && forall i :: 0 <= i < |r| ==> r[i] == Mention(thread, kind, texts[i])
  {
    seq(|texts|, i requires 0 <= i < |texts| => Mention(thread, kind, texts[i]))
  }

  function RowMentions(row: Candidate): seq<Mention> {
    Named(row.threadId, Incident, [row.threadId])
    + Named(row.threadId, Ioc, row.iocs)
    + Named(row.threadId, Asset, row.affectedAssets)
  }

  function Mentions(rows: seq<Candidate>): seq<Mention> {
    if rows == [] then [] else Mentions(rows[..|rows| - 1]) + RowMentions(rows[|rows| - 1])
  }

  lemma BuiltSnoc(ms: seq<Mention>, m: Mention)
    ensures Built(ms + [m]) == Added(Built(ms), m)
  {
    assert (ms + [m])[..|ms|] == ms;
  }

  lemma NamedSplits(before: seq<Mention>, thread: string, kind: Kind, texts: seq<string>, i: nat)
    requires i < |texts|
    ensures before + Named(thread, kind, texts[..i + 1])
         == before + Named(thread, kind, texts[..i]) + [Mention(thread, kind, texts[i])]
  {
  }

  lemma NamedSnoc(before: seq<Mention>, thread: string, kind: Kind, texts: seq<string>, i: nat)
    requires i < |texts|
    ensures Built(before + Named(thread, kind, texts[..i + 1]))
         == Added(Built(before + Named(thread, kind, texts[..i])), Mention(thread, kind, texts[i]))
  {
    NamedSplits(before, thread, kind, texts, i);
    BuiltSnoc(before + Named(thread, kind, texts[..i]), Mention(thread, kind, texts[i]));
  }

  /** One of the two inner loops: every value of a column becomes a node and an edge. */
  method AddColumn(nodes0: map<string, Node>, edges0: seq<Edge>, thread: string, kind: Kind, texts: seq<string>,
                   ghost before: seq<Mention>)
    returns (nodes: map<string, Node>, edges: seq<Edge>)
    requires kind != Incident && Graph(nodes0, edges0) == Built(before)
    ensures Graph(nodes, edges) == Built(before + Named(thread, kind, texts))
  {
    nodes, edges := nodes0, edges0;
    assert before + Named(thread, kind, texts[..0]) == before;
    for i := 0 to |texts|
      invariant Graph(nodes, edges) == Built(before + Named(thread, kind, texts[..i]))
    {
      NamedSnoc(before, thread, kind, texts, i);
      var id := Id(kind, texts[i]);
      if id !in nodes {
        nodes := nodes[id := Node(kind, texts[i])];
      }
      edges := edges + [Edge(Id(Incident, thread), id)];
    }
    assert texts[..|texts|] == texts;
  }

  lemma MentionsSnoc(rows: seq<Candidate>, i: nat)
    requires i < |rows|
    ensures Mentions(rows[..i + 1]) == Mentions(rows[..i]) + RowMentions(rows[i])
  {
    assert rows[..i + 1][..i] == rows[..i];
  }

  lemma RowSplits(before: seq<Mention>, row: Candidate)
    ensures before + RowMentions(row)
         == before + [Mention(row.threadId, Incident, row.threadId)]
            + Named(row.threadId, Ioc, row.iocs) + Named(row.threadId, Asset, row.affectedAssets)
  {
    assert Named(row.threadId, Incident, [row.threadId]) == [Mention(row.threadId, Incident, row.threadId)];
  }

  method AddRow(nodes0: map<string, Node>, edges0: seq<Edge>, row: Candidate, ghost before: seq<Mention>)
    returns (nodes: map<string, Node>, edges: seq<Edge>)
    requires Graph(nodes0, edges0) == Built(before)
    ensures Graph(nodes, edges) == Built(before + RowMentions(row))
  {
    ghost var self := before + [Mention(row.threadId, Incident, row.threadId)];
    BuiltSnoc(before, Mention(row.threadId, Incident, row.threadId));
    nodes := nodes0[Id(Incident, row.threadId) := Node(Incident, row.threadId)];
    nodes, edges := AddColumn(nodes, edges0, row.threadId, Ioc, row.iocs, self);
    nodes, edges := AddColumn(nodes, edges, row.threadId, Asset, row.affectedAssets,
                              self + Named(row.threadId, Ioc, row.iocs));
    RowSplits(before, row);
  }

  /** `get_incident_graph` on the rows its query returned. */
  method BuildGraph(rows: seq<Candidate>) returns (g: Graph)
    ensures g == Built(Mentions(rows))
  {
    var nodes: map<string, Node>, edges: seq<Edge> := map[], [];
    for i := 0 to |rows|
      invariant Graph(nodes, edges) == Built(Mentions(rows[..i]))
    {
      MentionsSnoc(rows, i);
      nodes, edges := AddRow(nodes, edges, rows[i], Mentions(rows[..i]));
    }
    assert rows[..|rows|] == rows;
    return Graph(nodes, edges);
  }

  // ----- what the graph says

  ghost predicate Present(ms: seq<Mention>, kind: Kind, text: string) {
    exists m :: m in ms && m.kind == kind && m.text == text
  }

  /** The node map is exactly the mentioned things, each under its own id. */
  ghost predicate NodesAre(g: Graph, ms: seq<Mention>) {
    && (forall k, l :: Id(k, l) in g.nodes <==> Present(ms, k, l))
    && (forall k, l :: Id(k, l) in g.nodes ==> g.nodes[Id(k, l)] == Node(k, l))
    && (forall id :: id in g.nodes ==> exists k, l :: id == Id(k, l))
  }

  lemma PresentSnoc(ms: seq<Mention>, kind: Kind, text: string)
    requires ms != []
    ensures Present(ms, kind, text) <==>
      Present(ms[..|ms| - 1], kind, text) || (ms[|ms| - 1].kind == kind && ms[|ms| - 1].text == text)
  {
    var n := |ms| - 1;
    assert ms[n] in ms;
    if Present(ms[..n], kind, text) {
      var m :| m in ms[..n] && m.kind == kind && m.text == text;
      assert m in ms;
    }
  }

  lemma NodesStep(g: Graph, ms: seq<Mention>)
    requires ms != [] && NodesAre(g, ms[..|ms| - 1])
    ensures NodesAre(Added(g, ms[|ms| - 1]), ms)
  {
    var m := ms[|ms| - 1];
    var h := Added(g, m);
    forall k, l
      ensures Id(k, l) in h.nodes <==> Present(ms, k, l)
      ensures Id(k, l) in h.nodes ==> h.nodes[Id(k, l)] == Node(k, l)
    {
      IdsNeverCollide(k, l, m.kind, m.text);
      PresentSnoc(ms, k, l);
    }
    forall id | id in h.nodes
      ensures exists k, l :: id == Id(k, l)
    {
      if id !in g.nodes {
        assert id == Id(m.kind, m.text);
      }
    }
  }

  lemma {:induction false} NodesAreMentions(ms: seq<Mention>)
    ensures NodesAre(Built(ms), ms)
  {
    if ms != [] {
      NodesAreMentions(ms[..|ms| - 1]);
      NodesStep(Built(ms[..|ms| - 1]), ms);
    }
  }

  lemma {:induction false} EdgesAreMentions(ms: seq<Mention>, thread: string, kind: Kind, text: string)
    ensures Strand(thread, kind, text) in Built(ms).edges
       <==> kind != Incident && Mention(thread, kind, text) in ms
  {
    if ms != [] {
      var n := |ms| - 1;
      EdgesAreMentions(ms[..n], thread, kind, text);
      IdsNeverCollide(Incident, thread, Incident, ms[n].thread);
      IdsNeverCollide(kind, text, ms[n].kind, ms[n].text);
      assert ms == ms[..n] + [ms[n]];
    }
  }

  lemma {:induction false} EdgesAreStrands(ms: seq<Mention>, e: Edge)
    requires e in Built(ms).edges
    ensures exists m :: m in ms && m.kind != Incident && e == Strand(m.thread, m.kind, m.text)
  {
    if ms != [] {
      var n := |ms| - 1;
      if e in Built(ms[..n]).edges {
        EdgesAreStrands(ms[..n], e);
        var m :| m in ms[..n] && m.kind != Incident && e == Strand(m.thread, m.kind, m.text);
        assert m in ms;
      } else {
        assert ms[n] in ms;
      }
    }
  }

  ghost predicate MentionOf(rows: seq<Candidate>, m: Mention) {
    exists r :: r in rows && r.threadId == m.thread && Lists(r, m.kind, m.text)
  }

  predicate Lists(row: Candidate, kind: Kind, text: string) {
    match kind
    case Incident => text == row.threadId
    case Ioc => text in row.iocs
    case Asset => text in row.affectedAssets
  }

  lemma NamedMembers(thread: string, kind: Kind, texts: seq<string>, m: Mention)
    ensures m in Named(thread, kind, texts) <==> m.thread == thread && m.kind == kind && m.text in texts
  {
    var ms := Named(thread, kind, texts);
    if m.thread == thread && m.kind == kind && m.text in texts {
      var i :| 0 <= i < |texts| && texts[i] == m.text;
      assert ms[i] == m;
    }
  }

  lemma RowMembers(row: Candidate, m: Mention)
    ensures m in RowMentions(row) <==> m.thread == row.threadId && Lists(row, m.kind, m.text)
  {
    NamedMembers(row.threadId, Incident, [row.threadId], m);
    NamedMembers(row.threadId, Ioc, row.iocs, m);
    NamedMembers(row.threadId, Asset, row.affectedAssets, m);
  }

  lemma {:induction false} MentionMembers(rows: seq<Candidate>, m: Mention)
    ensures m in Mentions(rows) <==> MentionOf(rows, m)
  {
    if rows != [] {
      var n := |rows| - 1;
      MentionMembers(rows[..n], m);
      RowMembers(rows[n], m);
      assert forall r :: r in rows <==> r in rows[..n] || r == rows[n];
    }
  }

  /** Every edge joins two nodes of the graph: an incident to an IOC or an asset. */
  lemma EndpointsAreNodes(rows: seq<Candidate>, e: Edge)
    requires e in Built(Mentions(rows)).edges
    ensures e.source in Built(Mentions(rows)).nodes && Built(Mentions(rows)).nodes[e.source].kind == Incident
    ensures e.target in Built(Mentions(rows)).nodes && Built(Mentions(rows)).nodes[e.target].kind != Incident
  {
    var ms := Mentions(rows);
    NodesAreMentions(ms);
    EdgesAreStrands(ms, e);
    var m :| m in ms && m.kind != Incident && e == Strand(m.thread, m.kind, m.text);
    MentionMembers(rows, m);
    var self := Mention(m.thread, Incident, m.thread);
    MentionMembers(rows, self);
    assert Present(ms, m.kind, m.text) && Present(ms, Incident, m.thread);
  }

  function Entries(rows: seq<Candidate>): nat {
    if rows == [] then 0
    else Entries(rows[..|rows| - 1]) + |rows[|rows| - 1].iocs| + |rows[|rows| - 1].affectedAssets|
  }

  function Strands(ms: seq<Mention>): nat {
    if ms == [] then 0 else Strands(ms[..|ms| - 1]) + if ms[|ms| - 1].kind == Incident then 0 else 1
  }

  lemma {:induction false} EdgesAreCounted(ms: seq<Mention>)
    ensures |Built(ms).edges| == Strands(ms)
  {
    if ms != [] {
      EdgesAreCounted(ms[..|ms| - 1]);
    }
  }

  lemma {:induction false} StrandsConcat(a: seq<Mention>, b: seq<Mention>)
    ensures Strands(a + b) == Strands(a) + Strands(b)
  {
    if b == [] {
      assert a + b == a;
    } else {
      var n := |b| - 1;
      assert (a + b)[..|a + b| - 1] == a + b[..n];
      StrandsConcat(a, b[..n]);
    }
  }

  lemma {:induction false} NamedStrands(thread: string, kind: Kind, texts: seq<string>)
    ensures Strands(Named(thread, kind, texts)) == if kind == Incident then 0 else |texts|
  {
    if texts != [] {
      var n := |texts| - 1;
      NamedStrands(thread, kind, texts[..n]);
      assert Named(thread, kind, texts)[..n] == Named(thread, kind, texts[..n]);
    }
  }

  lemma RowStrands(row: Candidate)
    ensures Strands(RowMentions(row)) == |row.iocs| + |row.affectedAssets|
  {
    var self := Named(row.threadId, Incident, [row.threadId]);
    var iocs, assets := Named(row.threadId, Ioc, row.iocs), Named(row.threadId, Asset, row.affectedAssets);
    StrandsConcat(self + iocs, assets);
    StrandsConcat(self, iocs);
    NamedStrands(row.threadId, Incident, [row.threadId]);
    NamedStrands(row.threadId, Ioc, row.iocs);
    NamedStrands(row.threadId, Asset, row.affectedAssets);
  }

  /** No entry is lost or merged away: there is one edge for every IOC and asset entry of every row. */
  lemma EdgeCount(rows: seq<Candidate>)
    ensures |Built(Mentions(rows)).edges| == Entries(rows)
  {
    EdgesAreCounted(Mentions(rows));
    StrandCount(rows);
  }

  lemma {:induction false} StrandCount(rows: seq<Candidate>)
    ensures Strands(Mentions(rows)) == Entries(rows)
  {
    if rows != [] {
      var n := |rows| - 1;
      StrandCount(rows[..n]);
      StrandsConcat(Mentions(rows[..n]), RowMentions(rows[n]));
      RowStrands(rows[n]);
    }
  }

  ghost predicate SharedNeighbour(g: Graph, t1: string, t2: string) {
    exists target :: Edge(Id(Incident, t1), target) in g.edges && Edge(Id(Incident, t2), target) in g.edges
  }

  ghost predicate DistinctThreads(rows: seq<Candidate>) {
    forall i, j :: 0 <= i < j < |rows| ==> rows[i].threadId != rows[j].threadId
  }

  lemma StrandOfRow(rows: seq<Candidate>, i: nat, kind: Kind, text: string)
    requires DistinctThreads(rows) && i < |rows|
    ensures Strand(rows[i].threadId, kind, text) in Built(Mentions(rows)).edges
       <==> kind != Incident && Lists(rows[i], kind, text)
  {
    var m := Mention(rows[i].threadId, kind, text);
    EdgesAreMentions(Mentions(rows), m.thread, kind, text);
    MentionMembers(rows, m);
    assert rows[i] in rows;
    if MentionOf(rows, m) {
      var r :| r in rows && r.threadId == m.thread && Lists(r, kind, text);
      var j :| 0 <= j < |rows| && rows[j] == r;
      assert rows[j].threadId == rows[i].threadId;
      assert !(i < j) && !(j < i);
    }
  }

  lemma CommonLabelLinks(rows: seq<Candidate>, i: nat, j: nat, kind: Kind, text: string)
    requires DistinctThreads(rows) && i < |rows| && j < |rows|
    requires kind != Incident && Lists(rows[i], kind, text) && Lists(rows[j], kind, text)
    ensures SharedNeighbour(Built(Mentions(rows)), rows[i].threadId, rows[j].threadId)
  {
    StrandOfRow(rows, i, kind, text);
    StrandOfRow(rows, j, kind, text);
  }

  lemma LinkHasCommonLabel(rows: seq<Candidate>, i: nat, j: nat) returns (kind: Kind, text: string)
    requires DistinctThreads(rows) && i < |rows| && j < |rows|
    requires SharedNeighbour(Built(Mentions(rows)), rows[i].threadId, rows[j].threadId)
    ensures kind != Incident && Lists(rows[i], kind, text) && Lists(rows[j], kind, text)
  {
    var ms := Mentions(rows);
    var edges := Built(ms).edges;
    var t1, t2 := Id(Incident, rows[i].threadId), Id(Incident, rows[j].threadId);
    var target :| Edge(t1, target) in edges && Edge(t2, target) in edges;
    EdgesAreStrands(ms, Edge(t1, target));
    var m :| m in ms && m.kind != Incident && Edge(t1, target) == Strand(m.thread, m.kind, m.text);
    kind, text := m.kind, m.text;
    StrandOfRow(rows, i, kind, text);
    StrandOfRow(rows, j, kind, text);
  }

  lemma ExactMatchLinks(rows: seq<Candidate>, i: nat, j: nat)
    requires DistinctThreads(rows) && i < |rows| && j < |rows|
    requires Share(rows[i].iocs, rows[j].iocs) || Share(rows[i].affectedAssets, rows[j].affectedAssets)
    ensures SharedNeighbour(Built(Mentions(rows)), rows[i].threadId, rows[j].threadId)
  {
    if x :| x in rows[i].iocs && x in rows[j].iocs {
      CommonLabelLinks(rows, i, j, Ioc, x);
    } else {
      var y :| y in rows[i].affectedAssets && y in rows[j].affectedAssets;
      CommonLabelLinks(rows, i, j, Asset, y);
    }
  }

  /** Two incidents are linked through a node of the graph exactly when the exact tier would have matched an
      alert with the one's IOCs and assets to the other. */
  lemma LinkedIffExactMatch(rows: seq<Candidate>, i: nat, j: nat)
    requires DistinctThreads(rows) && i < |rows| && j < |rows|
    ensures SharedNeighbour(Built(Mentions(rows)), rows[i].threadId, rows[j].threadId)
       <==> CorrelationTiers.ExactType(rows[i].iocs, rows[i].affectedAssets, rows[j]) != None
  {
    if SharedNeighbour(Built(Mentions(rows)), rows[i].threadId, rows[j].threadId) {
      var kind, text := LinkHasCommonLabel(rows, i, j);
    } else if CorrelationTiers.ExactType(rows[i].iocs, rows[i].affectedAssets, rows[j]) != None {
      ExactMatchLinks(rows, i, j);
    }
  }
}
