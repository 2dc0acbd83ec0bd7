/** The agent graph (graph.py and agents/): every LLM decision and every provider failure is an arbitrary input. */
module AgentGraph {
  import opened Wrappers
  import opened Llm

  datatype Agent = Triage | Investigator | ThreatHunter | Responder

  function Name(a: Agent): string {
    match a
    case Triage => "Triage Agent"
    case Investigator => "Investigator Agent"
    case ThreatHunter => "Threat Hunter Agent"
    case Responder => "Responder Agent"
  }

  datatype Incident = Incident(severity: string, status: string, iocs: seq<string>)

  datatype Draft = Draft(action: string, target: string, rationale: string, actionType: string)

  datatype Action = Action(draft: Draft, approved: Option<bool>, executed: Option<bool>)

  // the structured results of the four chains
  datatype Assessment = Assessment(severity: string, escalate: bool)
  datatype Decision = InvestigationComplete | RequiresThreatHunt | RequiresResponse
  datatype Findings = Findings(additionalIocs: seq<string>, decision: Decision, cited: bool)
  datatype Hunt = Hunt(requiresResponse: bool, cited: bool)
  datatype Plan = Plan(drafts: seq<Draft>)

  /** `get_llm` raises when no provider is configured; otherwise the chain is there to be called. */
  datatype Call<!T> = NoProvider | Chain(answers: nat -> Attempt<T>)

  const RETRIES: nat := 1

  /** `usage_from_exception` books nothing for an exception that carries no usage. */
  function Answer<T>(call: Call<T>): Outcome<T> {
    if call.NoProvider? then Failed(EMPTY_USAGE) else Invoked(call.answers, RETRIES)
  }

  /** All the outside world does during one run; `intel` is the number of threat-intelligence results. */
  datatype Script = Script(triage: Call<Assessment>, intel: nat, investigator: Call<Findings>,
                           hunter: Call<Hunt>, responder: Call<Plan>)

  datatype Note = Error | Verdict | ThreatIntel(lookups: nat) | Citation | Proposed(count: nat)

  datatype Line = Line(agent: Agent, note: Note)

  datatype State = State(incident: Option<Incident>, auditLog: seq<Line>, next: Option<Agent>,
                         actions: seq<Action>, usage: Totals)

  // ----- the IOC merge of the investigator

  const MAX_IOCS := 50
  const MAX_LENGTH := 300

  function Clip(ioc: string): string {
    if |ioc| <= MAX_LENGTH then ioc else ioc[..MAX_LENGTH]
  }

  function MergedOne(iocs: seq<string>, ioc: string): seq<string> {
    if |iocs| >= MAX_IOCS || Clip(ioc) in iocs then iocs else iocs + [Clip(ioc)]
  }

  function Merged(iocs: seq<string>, additional: seq<string>): seq<string> {
    if additional == [] then iocs
    else MergedOne(Merged(iocs, additional[..|additional| - 1]), additional[|additional| - 1])
  }

  lemma {:induction false} FullStays(iocs: seq<string>, additional: seq<string>, i: nat)
    requires i <= |additional| && |Merged(iocs, additional[..i])| >= MAX_IOCS
    ensures Merged(iocs, additional) == Merged(iocs, additional[..i])
  {
    if i == |additional| {
      assert additional[..i] == additional;
    } else {
      var n := |additional| - 1;
      assert additional[..n][..i] == additional[..i];
      FullStays(iocs, additional[..n], i);
    }
  }

  method MergeIocs(iocs: seq<string>, additional: seq<string>) returns (r: seq<string>)
    ensures r == Merged(iocs, additional)
  {
    r := iocs;
    for i := 0 to |additional|
      invariant r == Merged(iocs, additional[..i])
    {
      if |r| >= MAX_IOCS {
        FullStays(iocs, additional, i);
        return;
      }
      assert additional[..i + 1][..i] == additional[..i];
      var ioc := Clip(additional[i]);
      if ioc !in r {
        r := r + [ioc];
      }
    }
    assert additional[..|additional|] == additional;
  }

  predicate DistinctTexts(xs: seq<string>) {
    forall i, j :: 0 <= i < j < |xs| ==> xs[i] != xs[j]
  }

  predicate StartsWith(xs: seq<string>, prefix: seq<string>) {
    |prefix| <= |xs| && xs[..|prefix|] == prefix
  }

  /** What the merge promises: the old list stays as a prefix, the list never grows past fifty, it gains no
      duplicates and only proposed indicators, cut to length, and it takes each of them unless it is full. */
  ghost predicate MergeFacts(iocs: seq<string>, additional: seq<string>, r: seq<string>) {
    && StartsWith(r, iocs)
    && (|r| <= 50 || r == iocs)
    && (DistinctTexts(iocs) ==> DistinctTexts(r))
    && (forall x :: x in r && x !in iocs ==> exists y :: y in additional && IsClipped(x, y))
    && (|r| >= 50 || forall y :: y in additional ==> exists x :: x in r && IsClipped(x, y))
  }

  /** `x` is `y` cut to 300 characters. */
  predicate IsClipped(x: string, y: string) {
    x <= y && |x| == if |y| < 300 then |y| else 300
  }

  lemma MergedOneFacts(iocs: seq<string>, ioc: string)
    ensures var r := MergedOne(iocs, ioc);
      && StartsWith(r, iocs) && (|r| <= 50 || r == iocs) && (DistinctTexts(iocs) ==> DistinctTexts(r))
      && (forall x :: x in r <==> x in iocs || (x == Clip(ioc) && Clip(ioc) in r))
      && IsClipped(Clip(ioc), ioc) && (|r| >= 50 || Clip(ioc) in r)
  {
  }

  lemma MergeStep(iocs: seq<string>, additional: seq<string>, before: seq<string>)
    requires additional != [] && MergeFacts(iocs, additional[..|additional| - 1], before)
    ensures MergeFacts(iocs, additional, MergedOne(before, additional[|additional| - 1]))
  {
    var n := |additional| - 1;
    var r := MergedOne(before, additional[n]);
    MergedOneFacts(before, additional[n]);
    assert r[..|iocs|] == before[..|iocs|];
    assert forall x :: x in additional <==> x in additional[..n] || x == additional[n];
  }

  lemma {:induction false} MergeKeepsBounds(iocs: seq<string>, additional: seq<string>)
    ensures MergeFacts(iocs, additional, Merged(iocs, additional))
  {
    if additional != [] {
      MergeKeepsBounds(iocs, additional[..|additional| - 1]);
      MergeStep(iocs, additional, Merged(iocs, additional[..|additional| - 1]));
    }
  }

  /** First come, first served: what the first `k` proposals gave stays in front. */
  lemma {:induction false} MergeInOrder(iocs: seq<string>, additional: seq<string>, k: nat)
    requires k <= |additional|
    ensures StartsWith(Merged(iocs, additional), Merged(iocs, additional[..k]))
  {
    if k == |additional| {
      assert additional[..k] == additional;
    } else {
      var n := |additional| - 1;
      assert additional[..n][..k] == additional[..k];
      MergeInOrder(iocs, additional[..n], k);
      MergedOneFacts(Merged(iocs, additional[..n]), additional[n]);
    }
  }

  // ----- the four agents, on values

  /** The error path, the same in all four agents. */
  function Errored(s: State, a: Agent, usage: Usage): State {
    s.(usage := Accumulated(s.usage, Name(a), usage), auditLog := s.auditLog + [Line(a, Error)], next := None)
  }

  function WithStatus(incident: Option<Incident>, status: string): Option<Incident> {
    if incident.Some? then Some(incident.value.(status := status)) else None
  }

  function CitationLine(a: Agent, cited: bool): seq<Line> {
    if cited then [Line(a, Citation)] else []
  }

  function IntelLine(s: State, intel: nat): seq<Line> {
    if s.incident.Some? && s.incident.value.iocs != [] && intel > 0 then [Line(Triage, ThreatIntel(intel))] else []
  }

  function TriageDone(s: State, call: Call<Assessment>, intel: nat): State {
    match Answer(call)
    case Failed(usage) => Errored(s, Triage, usage)
    case Parsed(result, usage) =>
      var status := if result.escalate then "investigating" else "closed";
      State(if s.incident.Some? then Some(s.incident.value.(severity := result.severity, status := status)) else None,
            s.auditLog + [Line(Triage, Verdict)] + IntelLine(s, intel),
            if result.escalate then Some(Investigator) else None,
            s.actions, Accumulated(s.usage, Name(Triage), usage))
  }

  function Route(decision: Decision): Option<Agent> {
    match decision
    case InvestigationComplete => None
    case RequiresThreatHunt => Some(ThreatHunter)
    case RequiresResponse => Some(Responder)
  }

  function Investigated(incident: Option<Incident>, result: Findings): Option<Incident> {
    if incident == None then None
    else
      var i := incident.value.(iocs := Merged(incident.value.iocs, result.additionalIocs));
      Some(if result.decision == InvestigationComplete then i.(status := "closed") else i)
  }

  function InvestigatorDone(s: State, call: Call<Findings>): State {
    match Answer(call)
    case Failed(usage) => Errored(s, Investigator, usage)
    case Parsed(result, usage) =>
      State(Investigated(s.incident, result),
            s.auditLog + [Line(Investigator, Verdict)] + CitationLine(Investigator, result.cited),
            Route(result.decision), s.actions, Accumulated(s.usage, Name(Investigator), usage))
  }

  function ThreatHunterDone(s: State, call: Call<Hunt>): State {
    match Answer(call)
    case Failed(usage) => Errored(s, ThreatHunter, usage)
    case Parsed(result, usage) =>
      State(if result.requiresResponse then s.incident else WithStatus(s.incident, "closed"),
            s.auditLog + [Line(ThreatHunter, Verdict)] + CitationLine(ThreatHunter, result.cited),
            if result.requiresResponse then Some(Responder) else None,
            s.actions, Accumulated(s.usage, Name(ThreatHunter), usage))
  }

  function Wrapped(drafts: seq<Draft>): (r: seq<Action>)
    ensures |r| == |drafts| && forall i :: 0 <= i < |r| ==> r[i] == Action(drafts[i], None, None)
  {
    seq(|drafts|, i requires 0 <= i < |drafts| => Action(drafts[i], None, None))
  }

  function ResponderDone(s: State, call: Call<Plan>): State {
    match Answer(call)
    case Failed(usage) => Errored(s, Responder, usage)
    case Parsed(result, usage) =>
      State(WithStatus(s.incident, "pending_approval"),
            s.auditLog + [Line(Responder, Proposed(|result.drafts|))],
            None, Wrapped(result.drafts), Accumulated(s.usage, Name(Responder), usage))
  }

  function Step(s: State, a: Agent, script: Script): State {
    match a
    case Triage => TriageDone(s, script.triage, script.intel)
    case Investigator => InvestigatorDone(s, script.investigator)
    case ThreatHunter => ThreatHunterDone(s, script.hunter)
    case Responder => ResponderDone(s, script.responder)
  }

  // ----- the agents as they run: they mutate the shared state

  class Conversation {
    var incident: Option<Incident>
    var auditLog: seq<Line>
    var next: Option<Agent>
    var actions: seq<Action>
    var usage: Totals

    ghost function View(): State
      reads this
    {
      State(incident, auditLog, next, actions, usage)
    }

    constructor (s: State)
      ensures View() == s
    {
      incident, auditLog, next, actions, usage := s.incident, s.auditLog, s.next, s.actions, s.usage;
    }

    method AccumulateUsage(name: string, spent: Usage)
      modifies this`usage
      ensures usage == Accumulated(old(usage), name, spent)
    {
      var byAgent := usage.byAgent;
      var prev := if name in byAgent then byAgent[name] else EMPTY_USAGE;
      usage := Totals(Plus(usage.sum, spent), byAgent[name := Plus(prev, spent)]);
    }

    method Fail(a: Agent, spent: Usage)
      modifies this
      ensures View() == Errored(old(View()), a, spent)
    {
      AccumulateUsage(Name(a), spent);
      auditLog := auditLog + [Line(a, Error)];
      next := None;
    }

    static method Ask<T>(call: Call<T>) returns (r: Outcome<T>)
      ensures r == Answer(call)
    {
      match call {
        case NoProvider => return Failed(EMPTY_USAGE);
        case Chain(answers) => r := InvokeStructured(answers, RETRIES);
      }
    }

    method TriageAgent(call: Call<Assessment>, intel: nat)
      modifies this
      ensures View() == TriageDone(old(View()), call, intel)
    {
      var lookups := if incident.Some? && incident.value.iocs != [] then intel else 0;
      var r := Ask(call);
      if r.Failed? {
        Fail(Triage, r.usage);
        return;
      }
      AccumulateUsage(Name(Triage), r.usage);
      var escalate := r.value.escalate;
      if incident.Some? {
        incident := Some(incident.value.(severity := r.value.severity));
        incident := Some(incident.value.(status := if escalate then "investigating" else "closed"));
      }
      next := if escalate then Some(Investigator) else None;
      auditLog := auditLog + [Line(Triage, Verdict)];
      if lookups > 0 {
        auditLog := auditLog + [Line(Triage, ThreatIntel(lookups))];
      }
    }

    method InvestigatorAgent(call: Call<Findings>)
      modifies this
      ensures View() == InvestigatorDone(old(View()), call)
    {
      var r := Ask(call);
      if r.Failed? {
        Fail(Investigator, r.usage);
        return;
      }
      AccumulateUsage(Name(Investigator), r.usage);
      if incident.Some? {
        var iocs := MergeIocs(incident.value.iocs, r.value.additionalIocs);
        incident := Some(incident.value.(iocs := iocs));
        if r.value.decision == InvestigationComplete {
          incident := Some(incident.value.(status := "closed"));
        }
      }
      next := Route(r.value.decision);
      auditLog := auditLog + [Line(Investigator, Verdict)];
      if r.value.cited {
        auditLog := auditLog + [Line(Investigator, Citation)];
      }
    }

    method ThreatHunterAgent(call: Call<Hunt>)
      modifies this
      ensures View() == ThreatHunterDone(old(View()), call)
    {
      var r := Ask(call);
      if r.Failed? {
        Fail(ThreatHunter, r.usage);
        return;
      }
      AccumulateUsage(Name(ThreatHunter), r.usage);
      if incident.Some? && !r.value.requiresResponse {
        incident := Some(incident.value.(status := "closed"));
      }
      next := if r.value.requiresResponse then Some(Responder) else None;
      auditLog := auditLog + [Line(ThreatHunter, Verdict)];
      if r.value.cited {
        auditLog := auditLog + [Line(ThreatHunter, Citation)];
      }
    }

    method ResponderAgent(call: Call<Plan>)
      modifies this
      ensures View() == ResponderDone(old(View()), call)
    {
      var r := Ask(call);
      if r.Failed? {
        Fail(Responder, r.usage);
        return;
      }
      AccumulateUsage(Name(Responder), r.usage);
      actions := Wrapped(r.value.drafts);
      next := None;
      if incident.Some? {
        incident := Some(incident.value.(status := "pending_approval"));
      }
      auditLog := auditLog + [Line(Responder, Proposed(|actions|))];
    }

    method Act(a: Agent, script: Script)
      modifies this
      ensures View() == Step(old(View()), a, script)
    {
      match a {
        case Triage => TriageAgent(script.triage, script.intel);
        case Investigator => InvestigatorAgent(script.investigator);
        case ThreatHunter => ThreatHunterAgent(script.hunter);
        case Responder => ResponderAgent(script.responder);
      }
    }

    /** A run of the compiled graph: START goes to Triage, the conditional edges follow `next_agent`. */
    method Invoke(script: Script) returns (path: seq<Agent>)
      modifies this
      ensures Run(View(), path) == Follow(old(View()), Triage, script)
    {
      var current := Some(Triage);
      path := [];
      ghost var whole := Follow(View(), Triage, script);
      OnCourseBegins(View(), script);
      while current.Some?
        invariant OnCourse(View(), current, script, path, whole)
        decreases if current.Some? then 1 + ToGo(current.value) else 0
      {
        OnCourseStep(View(), current.value, script, path, whole);
        path := path + [current.value];
        Act(current.value, script);
        current := next;
      }
      OnCourseEnds(View(), script, path, whole);
    }
  }

  // ----- runs, on values

  datatype Run = Run(final: State, path: seq<Agent>)

  /** An upper bound on the agents still to come after `a`. */
  function ToGo(a: Agent): nat {
    match a
    case Triage => 3
    case Investigator => 2
    case ThreatHunter => 1
    case Responder => 0
  }

  /** The edges of graph.py; None is END. */
  predicate Edge(a: Agent, next: Option<Agent>) {
    match a
    case Triage => next in {None, Some(Investigator)}
    case Investigator => next in {None, Some(ThreatHunter), Some(Responder)}
    case ThreatHunter => next in {None, Some(Responder)}
    case Responder => next == None
  }

  /** No agent ever asks for an edge the graph does not have. */
  lemma RouteIsLegal(s: State, a: Agent, script: Script)
    ensures Edge(a, Step(s, a, script).next)
    ensures Step(s, a, script).next.Some? ==> ToGo(Step(s, a, script).next.value) < ToGo(a)
  {
  }

  function Follow(s: State, a: Agent, script: Script): Run
    decreases ToGo(a)
  {
    RouteIsLegal(s, a, script);
    var t := Step(s, a, script);
    if t.next == None then Run(t, [a])
    else
      var rest := Follow(t, t.next.value, script);
      Run(rest.final, [a] + rest.path)
  }

  function Ahead(s: State, current: Option<Agent>, script: Script): Run {
    if current == None then Run(s, []) else Follow(s, current.value, script)
  }

  /** What has happened and what is ahead make up the whole run. */
  ghost predicate OnCourse(s: State, current: Option<Agent>, script: Script, path: seq<Agent>, whole: Run) {
    var ahead := Ahead(s, current, script);
    whole == Run(ahead.final, path + ahead.path)
  }

  lemma OnCourseBegins(s: State, script: Script)
    ensures OnCourse(s, Some(Triage), script, [], Follow(s, Triage, script))
  {
    assert [] + Follow(s, Triage, script).path == Follow(s, Triage, script).path;
  }

  lemma OnCourseEnds(s: State, script: Script, path: seq<Agent>, whole: Run)
    requires OnCourse(s, None, script, path, whole)
    ensures whole == Run(s, path)
  {
    assert path + [] == path;
  }

  lemma OnCourseStep(s: State, a: Agent, script: Script, path: seq<Agent>, whole: Run)
    requires OnCourse(s, Some(a), script, path, whole)
    ensures var t := Step(s, a, script);
      && OnCourse(t, t.next, script, path + [a], whole)
      && (t.next.Some? ==> ToGo(t.next.value) < ToGo(a))
  {
    RouteIsLegal(s, a, script);
    var t := Step(s, a, script);
    FollowUnfolds(s, a, script);
    PathAssociative(path, a, Ahead(t, t.next, script).path);
  }

  lemma PathAssociative(path: seq<Agent>, a: Agent, rest: seq<Agent>)
    ensures path + ([a] + rest) == (path + [a]) + rest
  {
  }

  /** A run is one step and what is ahead after it. */
  lemma FollowUnfolds(s: State, a: Agent, script: Script)
    ensures var t := Step(s, a, script);
      Follow(s, a, script) == Run(Ahead(t, t.next, script).final, [a] + Ahead(t, t.next, script).path)
  {
  }

  // ----- the route of a run

  predicate EdgeAt(path: seq<Agent>, i: nat)
    requires i + 1 < |path|
  {
    Edge(path[i], Some(path[i + 1]))
  }

  predicate LegalPath(path: seq<Agent>, a: Agent) {
    path != [] && path[0] == a && forall i: nat :: i + 1 < |path| ==> EdgeAt(path, i)
  }

  lemma LegalCons(a: Agent, rest: seq<Agent>)
    requires rest != [] && LegalPath(rest, rest[0]) && Edge(a, Some(rest[0]))
    ensures LegalPath([a] + rest, a)
  {
    forall i: nat | i + 1 < |[a] + rest|
      ensures EdgeAt([a] + rest, i)
    {
      if i > 0 {
        assert EdgeAt(rest, i - 1);
      }
    }
  }

  /** Every run follows the edges of the graph and is over within four steps. */
  lemma {:induction false} RunIsShort(s: State, a: Agent, script: Script)
    ensures LegalPath(Follow(s, a, script).path, a)
    ensures |Follow(s, a, script).path| <= ToGo(a) + 1 <= 4
    decreases ToGo(a)
  {
    RouteIsLegal(s, a, script);
    var t := Step(s, a, script);
    if t.next.Some? {
      RunIsShort(t, t.next.value, script);
      LegalCons(a, Follow(t, t.next.value, script).path);
    }
  }

  function Last(path: seq<Agent>): Agent
    requires path != []
  {
    path[|path| - 1]
  }

  predicate Fails(a: Agent, script: Script) {
    match a
    case Triage => Answer(script.triage).Failed?
    case Investigator => Answer(script.investigator).Failed?
    case ThreatHunter => Answer(script.hunter).Failed?
    case Responder => Answer(script.responder).Failed?
  }

  /** The first failure ends the run: no agent but the last can have failed. */
  lemma {:induction false} FailureEndsTheRun(s: State, a: Agent, script: Script)
    ensures Follow(s, a, script).path != []
    ensures forall i :: 0 <= i < |Follow(s, a, script).path| - 1 ==> !Fails(Follow(s, a, script).path[i], script)
    decreases ToGo(a)
  {
    RouteIsLegal(s, a, script);
    var t := Step(s, a, script);
    if t.next.Some? {
      FailureEndsTheRun(t, t.next.value, script);
    }
  }

  // ----- how a run ends

  predicate HasStatus(s: State, status: string) {
    s.incident.Some? && s.incident.value.status == status
  }

  ghost predicate EndsRight(s: State, r: Run, script: Script) {
    && r.path != []
    && r.final.next == None
    && if Fails(Last(r.path), script)
       then r.final.actions == s.actions && HasStatus(r.final, "investigating")
       else if Last(r.path) == Responder
       then HasStatus(r.final, "pending_approval") && Proposes(r.final.actions, Answer(script.responder))
       else r.final.actions == s.actions && HasStatus(r.final, "closed")
  }

  /** The actions are the plan's drafts, in order, none of them approved, denied or executed. */
  ghost predicate Proposes(actions: seq<Action>, plan: Outcome<Plan>) {
    && plan.Parsed? && |actions| == |plan.value.drafts|
    && forall i :: 0 <= i < |actions| ==>
         actions[i].draft == plan.value.drafts[i] && actions[i].approved == None && actions[i].executed == None
  }

  lemma {:induction false} SeverityAfterTriage(s: State, a: Agent, script: Script)
    requires a != Triage && s.incident.Some?
    ensures Follow(s, a, script).final.incident.Some?
    ensures Follow(s, a, script).final.incident.value.severity == s.incident.value.severity
    decreases ToGo(a)
  {
    RouteIsLegal(s, a, script);
    var t := Step(s, a, script);
    if t.next.Some? {
      SeverityAfterTriage(t, t.next.value, script);
    }
  }

  /** After any run the severity is triage's verdict, or what it was if triage failed; no other agent changes it. */
  lemma SeverityIsTriages(s: State, script: Script)
    requires s.incident.Some?
    ensures Follow(s, Triage, script).final.incident.Some?
    ensures Follow(s, Triage, script).final.incident.value.severity
         == if Fails(Triage, script) then s.incident.value.severity else Answer(script.triage).value.severity
  {
    RouteIsLegal(s, Triage, script);
    var t := Step(s, Triage, script);
    if t.next.Some? {
      SeverityAfterTriage(t, t.next.value, script);
    }
  }

  lemma {:induction false} EndAfterTriage(s: State, a: Agent, script: Script)
    requires a != Triage && HasStatus(s, "investigating")
    ensures EndsRight(s, Follow(s, a, script), script)
    decreases ToGo(a)
  {
    RouteIsLegal(s, a, script);
    var t := Step(s, a, script);
    if t.next.Some? {
      EndAfterTriage(t, t.next.value, script);
    }
  }

  /** A failed triage ends the run and changes neither incident nor actions. */
  lemma TriageFails(s: State, script: Script)
    requires Fails(Triage, script)
    ensures Follow(s, Triage, script).path == [Triage]
    ensures Follow(s, Triage, script).final.incident == s.incident && Follow(s, Triage, script).final.actions == s.actions
  {
  }

  lemma TriageLeads(s: State, script: Script)
    requires s.incident.Some? && !Fails(Triage, script)
    ensures var t := Step(s, Triage, script);
      && t.actions == s.actions
      && if t.next == None then HasStatus(t, "closed") else t.next == Some(Investigator) && HasStatus(t, "investigating")
  {
  }

  lemma EndsRightCons(s: State, t: State, a: Agent, rest: Run, script: Script)
    requires t.actions == s.actions && EndsRight(t, rest, script)
    ensures EndsRight(s, Run(rest.final, [a] + rest.path), script)
  {
    assert Last([a] + rest.path) == Last(rest.path);
  }

  lemma EndsAtOnce(s: State, t: State, script: Script)
    requires !Fails(Triage, script) && t.next == None && t.actions == s.actions && HasStatus(t, "closed")
    ensures EndsRight(s, Run(t, [Triage]), script)
  {
  }

  lemma TriageSucceeds(s: State, script: Script)
    requires s.incident.Some? && !Fails(Triage, script)
    ensures EndsRight(s, Follow(s, Triage, script), script)
  {
    var t := Step(s, Triage, script);
    TriageLeads(s, script);
    FollowUnfolds(s, Triage, script);
    if t.next == None {
      EndsAtOnce(s, t, script);
    } else {
      EndAfterTriage(t, Investigator, script);
      EndsRightCons(s, t, Triage, Follow(t, Investigator, script), script);
    }
  }

  /** An error-free run ends with the incident closed, or pending approval exactly when Responder was reached, and
      then every proposed action is undecided. A failure after triage leaves it under investigation and a failure
      of triage itself leaves everything as it was; neither touches the actions. */
  lemma RunEnds(s: State, script: Script)
    requires s.incident.Some?
    ensures var r := Follow(s, Triage, script);
      if Fails(Triage, script)
      then r.path == [Triage] && r.final.incident == s.incident && r.final.actions == s.actions
      else EndsRight(s, r, script)
  {
    if Fails(Triage, script) {
      TriageFails(s, script);
    } else {
      TriageSucceeds(s, script);
    }
  }

  /** The incident waits for a human after a run exactly when Responder succeeded in it, or it was already
      waiting and triage failed. */
  lemma PendingIffProposed(s: State, script: Script)
    requires s.incident.Some?
    ensures HasStatus(Follow(s, Triage, script).final, "pending_approval") <==>
      (Responder in Follow(s, Triage, script).path && !Fails(Responder, script))
      || (Fails(Triage, script) && HasStatus(s, "pending_approval"))
  {
    RunEnds(s, script);
    var path := Follow(s, Triage, script).path;
    ResponderIsLast(s, Triage, script);
  }

  predicate RespondsLast(path: seq<Agent>) {
    path != [] && (Responder in path ==> Last(path) == Responder)
  }

  lemma RespondsLastCons(a: Agent, rest: seq<Agent>)
    requires if rest == [] then true else a != Responder && RespondsLast(rest)
    ensures RespondsLast([a] + rest)
  {
  }

  lemma {:induction false} ResponderIsLast(s: State, a: Agent, script: Script)
    ensures RespondsLast(Follow(s, a, script).path)
    decreases ToGo(a)
  {
    RouteIsLegal(s, a, script);
    FollowUnfolds(s, a, script);
    var t := Step(s, a, script);
    if t.next.Some? {
      ResponderIsLast(t, t.next.value, script);
    }
    RespondsLastCons(a, Ahead(t, t.next, script).path);
  }

  // ----- the answers determine the run

  /** Which agents have a turn, from the answers of the first three. */
  function PathFor(triage: Outcome<Assessment>, investigator: Outcome<Findings>, hunter: Outcome<Hunt>): seq<Agent> {
    if triage.Failed? || !triage.value.escalate then [Triage]
    else if investigator.Failed? then [Triage, Investigator]
    else
      match investigator.value.decision
      case InvestigationComplete => [Triage, Investigator]
      case RequiresResponse => [Triage, Investigator, Responder]
      case RequiresThreatHunt =>
        if hunter.Parsed? && hunter.value.requiresResponse then [Triage, Investigator, ThreatHunter, Responder]
        else [Triage, Investigator, ThreatHunter]
  }

  lemma HunterPath(s: State, script: Script)
    ensures Follow(s, ThreatHunter, script).path ==
      if Answer(script.hunter).Parsed? && Answer(script.hunter).value.requiresResponse then [ThreatHunter, Responder] else [ThreatHunter]
  {
    var t := Step(s, ThreatHunter, script);
    FollowUnfolds(s, ThreatHunter, script);
    if t.next == Some(Responder) {
      FollowUnfolds(t, Responder, script);
    }
  }

  lemma InvestigatorPath(s: State, script: Script)
    ensures [Triage] + Follow(s, Investigator, script).path == PathFor(Parsed(Assessment("", true), EMPTY_USAGE), Answer(script.investigator), Answer(script.hunter))
  {
    var t := Step(s, Investigator, script);
    FollowUnfolds(s, Investigator, script);
    if t.next == Some(Responder) {
      FollowUnfolds(t, Responder, script);
    } else if t.next == Some(ThreatHunter) {
      HunterPath(t, script);
    }
  }

  /** A run visits exactly the agents that the answers ask for. */
  lemma PathIsDetermined(s: State, script: Script)
    ensures Follow(s, Triage, script).path
         == PathFor(Answer(script.triage), Answer(script.investigator), Answer(script.hunter))
  {
    var t := Step(s, Triage, script);
    FollowUnfolds(s, Triage, script);
    if t.next == Some(Investigator) {
      InvestigatorPath(t, script);
    }
  }

  lemma {:induction false} IocsAfterInvestigation(s: State, a: Agent, script: Script)
    requires s.incident.Some? && (a == ThreatHunter || a == Responder)
    ensures Follow(s, a, script).final.incident.Some?
    ensures Follow(s, a, script).final.incident.value.iocs == s.incident.value.iocs
    decreases ToGo(a)
  {
    RouteIsLegal(s, a, script);
    var t := Step(s, a, script);
    if t.next.Some? {
      IocsAfterInvestigation(t, t.next.value, script);
    }
  }

  /** The list after an investigation: the merge of what it proposed, or unchanged if it failed. */
  ghost predicate Enriched(before: seq<string>, investigator: Outcome<Findings>, after: seq<string>) {
    match investigator
    case Failed(_) => after == before
    case Parsed(result, _) => MergeFacts(before, result.additionalIocs, after)
  }

  lemma InvestigationEnriches(s: State, script: Script)
    requires s.incident.Some?
    ensures Follow(s, Investigator, script).final.incident.Some?
    ensures Enriched(s.incident.value.iocs, Answer(script.investigator), Follow(s, Investigator, script).final.incident.value.iocs)
  {
    RouteIsLegal(s, Investigator, script);
    var t := Step(s, Investigator, script);
    if Answer(script.investigator).Parsed? {
      MergeKeepsBounds(s.incident.value.iocs, Answer(script.investigator).value.additionalIocs);
    }
    if t.next.Some? {
      IocsAfterInvestigation(t, t.next.value, script);
    }
  }

  /** After any run the incident's IOCs are what the investigation made of them, if there was one, and else unchanged. */
  lemma IocsAreInvestigated(s: State, script: Script)
    requires s.incident.Some?
    ensures var r := Follow(s, Triage, script);
      && r.final.incident.Some?
      && (if Investigator in r.path then Enriched(s.incident.value.iocs, Answer(script.investigator), r.final.incident.value.iocs)
          else r.final.incident.value.iocs == s.incident.value.iocs)
  {
    PathIsDetermined(s, script);
    var t := Step(s, Triage, script);
    if t.next == Some(Investigator) {
      InvestigationEnriches(t, script);
    }
  }

  /** Whether the turn of the line's agent writes this line; `hadIocs` says whether triage found IOCs to look up. */
  predicate Notes(line: Line, script: Script, hadIocs: bool) {
    match line.agent
    case Triage =>
      if Answer(script.triage).Failed? then line.note == Error
      else line.note == Verdict || (line.note == ThreatIntel(script.intel) && hadIocs && script.intel > 0)
    case Investigator =>
      if Answer(script.investigator).Failed? then line.note == Error
      else line.note == Verdict || (line.note == Citation && Answer(script.investigator).value.cited)
    case ThreatHunter =>
      if Answer(script.hunter).Failed? then line.note == Error
      else line.note == Verdict || (line.note == Citation && Answer(script.hunter).value.cited)
    case Responder =>
      if Answer(script.responder).Failed? then line.note == Error
      else line.note == Proposed(|Answer(script.responder).value.drafts|)
  }

  predicate HasIocs(s: State) {
    s.incident.Some? && s.incident.value.iocs != []
  }

  lemma OneLine(x: Line, line: Line)
    ensures multiset([x])[line] == if line == x then 1 else 0
  {
  }

  lemma PerhapsTwoLines(x: Line, y: seq<Line>, line: Line)
    requires |y| <= 1 && x !in y
    ensures multiset([x] + y)[line] == if line == x || line in y then 1 else 0
  {
  }

  lemma FailureNotes(s: State, a: Agent, script: Script, line: Line)
    requires Fails(a, script)
    ensures multiset(Lines(s, a, script))[line] == if line.agent == a && Notes(line, script, HasIocs(s)) then 1 else 0
  {
    OneLine(Line(a, Error), line);
  }

  lemma TriageNotes(s: State, script: Script, line: Line)
    requires !Fails(Triage, script)
    ensures multiset(Lines(s, Triage, script))[line] == if line.agent == Triage && Notes(line, script, HasIocs(s)) then 1 else 0
  {
    PerhapsTwoLines(Line(Triage, Verdict), IntelLine(s, script.intel), line);
  }

  lemma CitingNotes(s: State, a: Agent, script: Script, line: Line)
    requires (a == Investigator || a == ThreatHunter) && !Fails(a, script)
    ensures multiset(Lines(s, a, script))[line] == if line.agent == a && Notes(line, script, HasIocs(s)) then 1 else 0
  {
    var cited := if a == Investigator then Answer(script.investigator).value.cited else Answer(script.hunter).value.cited;
    PerhapsTwoLines(Line(a, Verdict), CitationLine(a, cited), line);
  }

  lemma LinesAreNotes(s: State, a: Agent, script: Script, line: Line)
    ensures multiset(Lines(s, a, script))[line] == if line.agent == a && Notes(line, script, HasIocs(s)) then 1 else 0
  {
    if Fails(a, script) {
      FailureNotes(s, a, script, line);
    } else {
      match a
      case Triage => TriageNotes(s, script, line);
      case Investigator => CitingNotes(s, a, script, line);
      case ThreatHunter => CitingNotes(s, a, script, line);
      case Responder => OneLine(Line(a, Proposed(|Answer(script.responder).value.drafts|)), line);
    }
  }

  lemma StepNotes(s: State, a: Agent, script: Script, line: Line)
    ensures multiset(Step(s, a, script).auditLog)[line]
         == multiset(s.auditLog)[line] + if line.agent == a && Notes(line, script, HasIocs(s)) then 1 else 0
  {
    StepAppends(s, a, script);
    LinesAreNotes(s, a, script, line);
  }

  lemma InPath(a: Agent, rest: seq<Agent>, b: Agent)
    ensures b in [a] + rest <==> b == a || b in rest
  {
  }

  lemma {:induction false} NotesAfter(s: State, a: Agent, script: Script, line: Line, had: bool)
    requires a == Triage ==> had == HasIocs(s)
    ensures multiset(Follow(s, a, script).final.auditLog)[line]
         == multiset(s.auditLog)[line] + if line.agent in Follow(s, a, script).path && Notes(line, script, had) then 1 else 0
    decreases ToGo(a)
  {
    RouteIsLegal(s, a, script);
    var t := Step(s, a, script);
    StepNotes(s, a, script, line);
    FollowUnfolds(s, a, script);
    InPath(a, Ahead(t, t.next, script).path, line.agent);
    if t.next.Some? {
      NotesAfter(t, t.next.value, script, line, had);
      LaterAgents(t, t.next.value, script, a);
    }
  }

  /** What a run adds to the audit log: each line that the turn of an agent on its path calls for, once, and no other. */
  lemma LogIsDetermined(s: State, script: Script, line: Line)
    ensures multiset(Follow(s, Triage, script).final.auditLog)[line]
         == multiset(s.auditLog)[line] + if line.agent in Follow(s, Triage, script).path && Notes(line, script, HasIocs(s)) then 1 else 0
  {
    NotesAfter(s, Triage, script, line, HasIocs(s));
  }

  // ----- what every run keeps

  function Errors(log: seq<Line>): nat {
    if log == [] then 0 else Errors(log[..|log| - 1]) + if log[|log| - 1].note == Error then 1 else 0
  }

  function Most(a: nat, b: nat): nat {
    if a < b then b else a
  }

  ghost predicate IocsKept(a: Option<Incident>, b: Option<Incident>) {
    match a
    case None => b == None
    case Some(i) => b.Some? && ListKept(i.iocs, b.value.iocs)
  }

  ghost predicate ListKept(a: seq<string>, b: seq<string>) {
    && StartsWith(b, a)
    && |b| <= Most(MAX_IOCS, |a|)
    && (DistinctTexts(a) ==> DistinctTexts(b))
  }

  /** The audit log only grows, and the incident's IOC list keeps what it had. */
  ghost predicate Kept(s: State, t: State) {
    && |s.auditLog| <= |t.auditLog| && t.auditLog[..|s.auditLog|] == s.auditLog
    && IocsKept(s.incident, t.incident)
  }

  /** What a step appends to the log. */
  function Lines(s: State, a: Agent, script: Script): seq<Line> {
    if Fails(a, script) then [Line(a, Error)]
    else
      match a
      case Triage => [Line(Triage, Verdict)] + IntelLine(s, script.intel)
      case Investigator => [Line(Investigator, Verdict)] + CitationLine(a, Answer(script.investigator).value.cited)
      case ThreatHunter => [Line(ThreatHunter, Verdict)] + CitationLine(a, Answer(script.hunter).value.cited)
      case Responder => [Line(Responder, Proposed(|Answer(script.responder).value.drafts|))]
  }

  lemma StepAppends(s: State, a: Agent, script: Script)
    ensures Step(s, a, script).auditLog == s.auditLog + Lines(s, a, script)
  {
    if !Fails(a, script) {
      match a
      case Triage => AppendTwice(s.auditLog, [Line(a, Verdict)], IntelLine(s, script.intel));
      case Investigator =>
        AppendTwice(s.auditLog, [Line(a, Verdict)], CitationLine(a, Answer(script.investigator).value.cited));
      case ThreatHunter =>
        AppendTwice(s.auditLog, [Line(a, Verdict)], CitationLine(a, Answer(script.hunter).value.cited));
      case Responder =>
    }
  }

  lemma AppendTwice(log: seq<Line>, a: seq<Line>, b: seq<Line>)
    ensures (log + a) + b == log + (a + b)
  {
  }

  lemma InvestigationKeepsIocs(incident: Option<Incident>, result: Findings)
    ensures IocsKept(incident, Investigated(incident, result))
  {
    if incident.Some? {
      MergeKeepsBounds(incident.value.iocs, result.additionalIocs);
    }
  }

  lemma StepKeepsIocs(s: State, a: Agent, script: Script)
    ensures IocsKept(s.incident, Step(s, a, script).incident)
  {
    if a == Investigator && !Fails(a, script) {
      InvestigationKeepsIocs(s.incident, Answer(script.investigator).value);
    }
  }

  lemma StepKeeps(s: State, a: Agent, script: Script)
    ensures Kept(s, Step(s, a, script))
  {
    StepAppends(s, a, script);
    StepKeepsIocs(s, a, script);
  }

  lemma KeptTransitive(s: State, t: State, u: State)
    requires Kept(s, t) && Kept(t, u)
    ensures Kept(s, u)
  {
    assert u.auditLog[..|s.auditLog|] == u.auditLog[..|t.auditLog|][..|s.auditLog|];
    if s.incident.Some? {
      var a, b, c := s.incident.value.iocs, t.incident.value.iocs, u.incident.value.iocs;
      assert c[..|a|] == c[..|b|][..|a|];
    }
  }

  lemma {:induction false} RunKeeps(s: State, a: Agent, script: Script)
    ensures Kept(s, Follow(s, a, script).final)
    decreases ToGo(a)
  {
    RouteIsLegal(s, a, script);
    var t := Step(s, a, script);
    StepKeeps(s, a, script);
    if t.next.Some? {
      RunKeeps(t, t.next.value, script);
      KeptTransitive(s, t, Follow(t, t.next.value, script).final);
    }
  }

  lemma {:induction false} ErrorsConcat(a: seq<Line>, b: seq<Line>)
    ensures Errors(a + b) == Errors(a) + Errors(b)
  {
    if b == [] {
      assert a + b == a;
    } else {
      assert (a + b)[..|a + b| - 1] == a + b[..|b| - 1];
      ErrorsConcat(a, b[..|b| - 1]);
    }
  }

  lemma NoErrors(lines: seq<Line>)
    requires forall l :: l in lines ==> l.note != Error
    ensures Errors(lines) == 0
  {
    if lines != [] {
      NoErrors(lines[..|lines| - 1]);
    }
  }

  lemma LinesWithErrors(s: State, a: Agent, script: Script)
    ensures Errors(Lines(s, a, script)) == if Fails(a, script) then 1 else 0
  {
    if Fails(a, script) {
      assert [Line(a, Error)][..0] == [];
    } else {
      NoErrors(Lines(s, a, script));
    }
  }

  lemma StepErrors(s: State, a: Agent, script: Script)
    ensures Errors(Step(s, a, script).auditLog) == Errors(s.auditLog) + if Fails(a, script) then 1 else 0
  {
    StepAppends(s, a, script);
    LinesWithErrors(s, a, script);
    ErrorsConcat(s.auditLog, Lines(s, a, script));
  }

  /** The log gains an error line exactly when the run failed, and then only one. */
  lemma {:induction false} ErrorsAreLogged(s: State, a: Agent, script: Script)
    ensures Follow(s, a, script).path != []
    ensures Errors(Follow(s, a, script).final.auditLog)
         == Errors(s.auditLog) + if Fails(Last(Follow(s, a, script).path), script) then 1 else 0
    decreases ToGo(a)
  {
    RouteIsLegal(s, a, script);
    StepErrors(s, a, script);
    var t := Step(s, a, script);
    if t.next.Some? {
      ErrorsAreLogged(t, t.next.value, script);
    }
  }

  // ----- tokens are conserved

  function CallCost<T>(call: Call<T>): Usage {
    if call.NoProvider? then EMPTY_USAGE else TotalCost(call.answers, CallsOf(call))
  }

  /** How often the provider is asked. */
  function CallsOf<T>(call: Call<T>): nat {
    if call.NoProvider? then 0 else Tried(call.answers, RETRIES + 1)
  }

  /** What an agent's attempts cost: every one that returned a response, parsed or not. */
  function Spent(a: Agent, script: Script): Usage {
    match a
    case Triage => CallCost(script.triage)
    case Investigator => CallCost(script.investigator)
    case ThreatHunter => CallCost(script.hunter)
    case Responder => CallCost(script.responder)
  }

  function CallsBy(a: Agent, script: Script): nat {
    match a
    case Triage => CallsOf(script.triage)
    case Investigator => CallsOf(script.investigator)
    case ThreatHunter => CallsOf(script.hunter)
    case Responder => CallsOf(script.responder)
  }

  function PathCost(path: seq<Agent>, script: Script): Usage {
    if path == [] then EMPTY_USAGE else Plus(Spent(path[0], script), PathCost(path[1..], script))
  }

  function PathCalls(path: seq<Agent>, script: Script): nat {
    if path == [] then 0 else CallsBy(path[0], script) + PathCalls(path[1..], script)
  }

  /** The books after the turns of a path. */
  function BooksAfter(t: Totals, path: seq<Agent>, script: Script): Totals
    decreases |path|
  {
    if path == [] then t else BooksAfter(Accumulated(t, Name(path[0]), Spent(path[0], script)), path[1..], script)
  }

  lemma StepBooks(s: State, a: Agent, script: Script)
    ensures Step(s, a, script).usage == Accumulated(s.usage, Name(a), Spent(a, script))
  {
  }

  lemma {:induction false} RunBooks(s: State, a: Agent, script: Script)
    ensures Follow(s, a, script).final.usage == BooksAfter(s.usage, Follow(s, a, script).path, script)
    decreases ToGo(a)
  {
    RouteIsLegal(s, a, script);
    StepBooks(s, a, script);
    var t := Step(s, a, script);
    FollowUnfolds(s, a, script);
    assert ([a] + Ahead(t, t.next, script).path)[1..] == Ahead(t, t.next, script).path;
    if t.next.Some? {
      RunBooks(t, t.next.value, script);
    }
  }

  lemma PlusAssociative(u: Usage, v: Usage, w: Usage)
    ensures Plus(Plus(u, v), w) == Plus(u, Plus(v, w))
    ensures Plus(u, EMPTY_USAGE) == u == Plus(EMPTY_USAGE, u)
  {
  }

  lemma {:induction false} PathIsPaid(t: Totals, path: seq<Agent>, script: Script)
    ensures BooksAfter(t, path, script).sum == Plus(t.sum, PathCost(path, script))
    decreases |path|
  {
    if path != [] {
      PathIsPaid(Accumulated(t, Name(path[0]), Spent(path[0], script)), path[1..], script);
      PlusAssociative(t.sum, Spent(path[0], script), PathCost(path[1..], script));
    }
  }

  /** The totals grow by the cost of every attempt of the run. */
  lemma TokensAreConserved(s: State, a: Agent, script: Script)
    ensures Follow(s, a, script).final.usage.sum == Plus(s.usage.sum, PathCost(Follow(s, a, script).path, script))
  {
    RunBooks(s, a, script);
    PathIsPaid(s.usage, Follow(s, a, script).path, script);
  }

  lemma {:induction false} LaterAgents(s: State, a: Agent, script: Script, b: Agent)
    ensures b in Follow(s, a, script).path ==> ToGo(b) <= ToGo(a)
    decreases ToGo(a)
  {
    RouteIsLegal(s, a, script);
    var t := Step(s, a, script);
    if t.next.Some? {
      LaterAgents(t, t.next.value, script, b);
    }
  }

  lemma NamesDiffer(a: Agent, b: Agent)
    ensures Name(a) == Name(b) <==> a == b
  {
    assert |Name(Triage)| == 12 && |Name(Investigator)| == 18 && |Name(ThreatHunter)| == 19 && |Name(Responder)| == 15;
  }

  predicate OncePerAgent(path: seq<Agent>) {
    forall i, j :: 0 <= i < j < |path| ==> path[i] != path[j]
  }

  /** An agent has at most one turn. */
  lemma {:induction false} OneTurn(s: State, a: Agent, script: Script)
    ensures OncePerAgent(Follow(s, a, script).path)
    decreases ToGo(a)
  {
    RouteIsLegal(s, a, script);
    var t := Step(s, a, script);
    FollowUnfolds(s, a, script);
    if t.next.Some? {
      OneTurn(t, t.next.value, script);
      LaterAgents(t, t.next.value, script, a);
    }
  }

  function Turn(b: Agent, path: seq<Agent>, script: Script): Usage {
    if b in path then Spent(b, script) else EMPTY_USAGE
  }

  lemma TurnCons(path: seq<Agent>, script: Script, b: Agent)
    requires path != [] && OncePerAgent(path)
    ensures Turn(b, path, script) == if path[0] == b then Spent(b, script) else Turn(b, path[1..], script)
    ensures path[0] == b ==> Turn(b, path[1..], script) == EMPTY_USAGE
  {
  }

  lemma FirstBooked(t: Totals, a: Agent, u: Usage, b: Agent)
    ensures Booked(Accumulated(t, Name(a), u), Name(b))
         == Plus(Booked(t, Name(b)), if a == b then u else EMPTY_USAGE)
  {
    NamesDiffer(a, b);
    BookedChange(t, Name(a), u, Name(b));
    PlusAssociative(Booked(t, Name(b)), EMPTY_USAGE, EMPTY_USAGE);
  }

  lemma TwoParts(before: Usage, first: Usage, rest: Usage, all: Usage)
    requires (first == EMPTY_USAGE && all == rest) || (rest == EMPTY_USAGE && all == first)
    ensures Plus(Plus(before, first), rest) == Plus(before, all)
  {
  }

  lemma {:induction false} PathIsBooked(t: Totals, path: seq<Agent>, script: Script, b: Agent)
    requires OncePerAgent(path)
    ensures Booked(BooksAfter(t, path, script), Name(b)) == Plus(Booked(t, Name(b)), Turn(b, path, script))
    decreases |path|
  {
    if path == [] {
      PlusAssociative(Booked(t, Name(b)), EMPTY_USAGE, EMPTY_USAGE);
    } else {
      var cost := Spent(path[0], script);
      PathIsBooked(Accumulated(t, Name(path[0]), cost), path[1..], script, b);
      FirstBooked(t, path[0], cost, b);
      TurnCons(path, script, b);
      TwoParts(Booked(t, Name(b)), if path[0] == b then cost else EMPTY_USAGE,
               Turn(b, path[1..], script), Turn(b, path, script));
    }
  }

  /** Under every name exactly the cost of that agent's turn is booked: its own attempts if it had a turn, nothing
      otherwise. */
  lemma BookedPerAgent(s: State, a: Agent, script: Script, b: Agent)
    ensures Booked(Follow(s, a, script).final.usage, Name(b))
         == Plus(Booked(s.usage, Name(b)), Turn(b, Follow(s, a, script).path, script))
  {
    OneTurn(s, a, script);
    RunBooks(s, a, script);
    PathIsBooked(s.usage, Follow(s, a, script).path, script, b);
  }

  lemma {:induction false} PathKeepsBalance(t: Totals, path: seq<Agent>, script: Script, names: seq<string>)
    requires Balanced(t, names) && forall b :: Name(b) in names
    ensures Balanced(BooksAfter(t, path, script), names)
    decreases |path|
  {
    if path != [] {
      AccumulateKeepsBalance(t, Name(path[0]), Spent(path[0], script), names);
      PathKeepsBalance(Accumulated(t, Name(path[0]), Spent(path[0], script)), path[1..], script, names);
    }
  }

  /** If the total was the sum of what is booked under all names, it still is after any run. */
  lemma RunKeepsBalance(s: State, a: Agent, script: Script, names: seq<string>)
    requires Balanced(s.usage, names) && forall b :: Name(b) in names
    ensures Balanced(Follow(s, a, script).final.usage, names)
  {
    RunBooks(s, a, script);
    PathKeepsBalance(s.usage, Follow(s, a, script).path, script, names);
  }

  /** A run asks the provider at most eight times. */
  lemma {:induction false} CallsAreBounded(s: State, a: Agent, script: Script)
    ensures PathCalls(Follow(s, a, script).path, script) <= (RETRIES + 1) * (ToGo(a) + 1)
    decreases ToGo(a)
  {
    RouteIsLegal(s, a, script);
    var t := Step(s, a, script);
    if t.next.Some? {
      CallsAreBounded(t, t.next.value, script);
      assert Follow(s, a, script).path[1..] == Follow(t, t.next.value, script).path;
    }
  }

  // ----- tokens, attempt by attempt

  /** A chain is asked once, and again if the first output could not be parsed. */
  function AttemptsOf<T>(call: Call<T>): nat {
    match call
    case NoProvider => 0
    case Chain(answers) => if Parses(answers(0)) then 1 else 2
  }

  function PaidBy<T>(call: Call<T>): Usage {
    match call
    case NoProvider => Usage(0, 0, 0)
    case Chain(answers) => Paid(answers, AttemptsOf(call))
  }

  lemma AnswerAtFullPrice<T>(call: Call<T>)
    ensures match call
      case NoProvider => Answer(call) == Failed(Usage(0, 0, 0))
      case Chain(answers) => FirstAtFullPrice(answers, 1, Answer(call)) && Answer(call).usage == PaidBy(call)
  {
    if call.Chain? {
      InvokedAtFullPrice(call.answers, 1);
      PriceOfTwo(call.answers, Answer(call));
    }
  }

  lemma PriceOfTwo<T>(answers: nat -> Attempt<T>, r: Outcome<T>)
    requires FirstAtFullPrice(answers, 1, r)
    ensures r.usage == Paid(answers, if Parses(answers(0)) then 1 else 2)
  {
    if r.Parsed? {
      var i: nat :| i <= 1 && FirstParsed(answers, i) && r.usage == Paid(answers, i + 1);
    }
  }

  /** What an agent's turn is paid; nothing if it has none. */
  function PaidTurn(a: Agent, path: seq<Agent>, script: Script): Usage {
    if a !in path then Usage(0, 0, 0)
    else
      match a
      case Triage => PaidBy(script.triage)
      case Investigator => PaidBy(script.investigator)
      case ThreatHunter => PaidBy(script.hunter)
      case Responder => PaidBy(script.responder)
  }

  lemma CallCostIsPaid<T>(call: Call<T>)
    ensures CallCost(call) == PaidBy(call) == Answer(call).usage
  {
    AnswerAtFullPrice(call);
  }

  lemma SpentIsPaid(a: Agent, path: seq<Agent>, script: Script)
    ensures Turn(a, path, script) == PaidTurn(a, path, script)
  {
    CallCostIsPaid(script.triage);
    CallCostIsPaid(script.investigator);
    CallCostIsPaid(script.hunter);
    CallCostIsPaid(script.responder);
  }

  /** `v` is `u` with `paid` added to every field. */
  predicate Adds(u: Usage, paid: Usage, v: Usage) {
    v.input == u.input + paid.input && v.output == u.output + paid.output && v.total == u.total + paid.total
  }

  /** Under every agent's name a run books exactly what the attempts of its turn cost, failed parses included. */
  lemma BookedAttemptByAttempt(s: State, script: Script, a: Agent)
    ensures Adds(Booked(s.usage, Name(a)), PaidTurn(a, Follow(s, Triage, script).path, script),
                 Booked(Follow(s, Triage, script).final.usage, Name(a)))
  {
    BookedPerAgent(s, Triage, script, a);
    SpentIsPaid(a, Follow(s, Triage, script).path, script);
  }

  function SumOfFour(t: Usage, i: Usage, h: Usage, r: Usage): Usage {
    Usage(t.input + i.input + h.input + r.input, t.output + i.output + h.output + r.output, t.total + i.total + h.total + r.total)
  }

  function FourTurns(path: seq<Agent>, script: Script): Usage {
    SumOfFour(PaidTurn(Triage, path, script), PaidTurn(Investigator, path, script), PaidTurn(ThreatHunter, path, script),
              PaidTurn(Responder, path, script))
  }

  lemma CostOfOne(a: Agent, script: Script)
    ensures PathCost([a], script) == Spent(a, script)
  {
    assert [a][1..] == [];
    assert PathCost([a][1..], script) == EMPTY_USAGE;
  }

  lemma CostOfMore(a: Agent, rest: seq<Agent>, script: Script)
    ensures PathCost([a] + rest, script) == Plus(Spent(a, script), PathCost(rest, script))
  {
    assert ([a] + rest)[1..] == rest;
  }

  lemma CostOfTwo(a: Agent, b: Agent, script: Script)
    ensures PathCost([a, b], script) == Plus(Spent(a, script), Spent(b, script))
  {
    assert [a, b] == [a] + [b];
    CostOfMore(a, [b], script);
    CostOfOne(b, script);
  }

  lemma CostOfThree(a: Agent, b: Agent, c: Agent, script: Script)
    ensures PathCost([a, b, c], script) == Plus(Spent(a, script), Plus(Spent(b, script), Spent(c, script)))
  {
    assert [a, b, c] == [a] + [b, c];
    CostOfMore(a, [b, c], script);
    CostOfTwo(b, c, script);
  }

  lemma CostOfFour(a: Agent, b: Agent, c: Agent, d: Agent, script: Script)
    ensures PathCost([a, b, c, d], script)
         == Plus(Spent(a, script), Plus(Spent(b, script), Plus(Spent(c, script), Spent(d, script))))
  {
    assert [a, b, c, d] == [a] + [b, c, d];
    CostOfMore(a, [b, c, d], script);
    CostOfThree(b, c, d, script);
  }

  lemma OnOrNot(a: Agent, path: seq<Agent>, script: Script)
    ensures PaidTurn(a, path, script) == if a in path then Spent(a, script) else EMPTY_USAGE
  {
    SpentIsPaid(a, path, script);
  }

  lemma OthersHaveNoTurn(script: Script)
    ensures PaidTurn(Triage, [Triage], script) == Spent(Triage, script)
    ensures PaidTurn(Investigator, [Triage], script) == Usage(0, 0, 0)
    ensures PaidTurn(ThreatHunter, [Triage], script) == Usage(0, 0, 0)
    ensures PaidTurn(Responder, [Triage], script) == Usage(0, 0, 0)
  {
    OnOrNot(Triage, [Triage], script);
    OnOrNot(Investigator, [Triage], script);
    OnOrNot(ThreatHunter, [Triage], script);
    OnOrNot(Responder, [Triage], script);
  }

  lemma NothingElse(t: Usage)
    ensures SumOfFour(t, Usage(0, 0, 0), Usage(0, 0, 0), Usage(0, 0, 0)) == t
  {
  }

  lemma TriagedCost(script: Script)
    ensures PathCost([Triage], script) == FourTurns([Triage], script)
  {
    OthersHaveNoTurn(script);
    NothingElse(Spent(Triage, script));
    CostOfOne(Triage, script);
  }

  lemma InvestigatedCost(script: Script)
    ensures PathCost([Triage, Investigator], script) == FourTurns([Triage, Investigator], script)
  {
    var path := [Triage, Investigator];
    OnOrNot(Triage, path, script);
    OnOrNot(Investigator, path, script);
    OnOrNot(ThreatHunter, path, script);
    OnOrNot(Responder, path, script);
    CostOfTwo(Triage, Investigator, script);
  }

  lemma RespondedCost(script: Script)
    ensures PathCost([Triage, Investigator, Responder], script) == FourTurns([Triage, Investigator, Responder], script)
  {
    var path := [Triage, Investigator, Responder];
    OnOrNot(Triage, path, script);
    OnOrNot(Investigator, path, script);
    OnOrNot(ThreatHunter, path, script);
    OnOrNot(Responder, path, script);
    CostOfThree(Triage, Investigator, Responder, script);
  }

  lemma HuntedCost(script: Script)
    ensures PathCost([Triage, Investigator, ThreatHunter], script) == FourTurns([Triage, Investigator, ThreatHunter], script)
  {
    var path := [Triage, Investigator, ThreatHunter];
    OnOrNot(Triage, path, script);
    OnOrNot(Investigator, path, script);
    OnOrNot(ThreatHunter, path, script);
    OnOrNot(Responder, path, script);
    CostOfThree(Triage, Investigator, ThreatHunter, script);
  }

  lemma FullCost(script: Script)
    ensures PathCost([Triage, Investigator, ThreatHunter, Responder], script) == FourTurns([Triage, Investigator, ThreatHunter, Responder], script)
  {
    var path := [Triage, Investigator, ThreatHunter, Responder];
    OnOrNot(Triage, path, script);
    OnOrNot(Investigator, path, script);
    OnOrNot(ThreatHunter, path, script);
    OnOrNot(Responder, path, script);
    CostOfFour(Triage, Investigator, ThreatHunter, Responder, script);
  }

  lemma PathForCosts(triage: Outcome<Assessment>, investigator: Outcome<Findings>, hunter: Outcome<Hunt>, script: Script)
    ensures PathCost(PathFor(triage, investigator, hunter), script) == FourTurns(PathFor(triage, investigator, hunter), script)
  {
    var path := PathFor(triage, investigator, hunter);
    if |path| == 1 {
      TriagedCost(script);
    } else if |path| == 2 {
      InvestigatedCost(script);
    } else if |path| == 4 {
      FullCost(script);
    } else if path[2] == Responder {
      RespondedCost(script);
    } else {
      HuntedCost(script);
    }
  }

  /** Over a whole run the total grows by what the attempts of all turns cost, failed parses included. */
  lemma SumAttemptByAttempt(s: State, script: Script)
    ensures Adds(s.usage.sum, FourTurns(Follow(s, Triage, script).path, script), Follow(s, Triage, script).final.usage.sum)
  {
    TokensAreConserved(s, Triage, script);
    PathIsDetermined(s, script);
    PathForCosts(Answer(script.triage), Answer(script.investigator), Answer(script.hunter), script);
  }

  // ----- how often the provider is asked

  lemma CallsAreAttempts<T>(call: Call<T>)
    ensures CallsOf(call) == AttemptsOf(call)
  {
    if call.Chain? {
      assert Succeeds(call.answers(0)) == Parses(call.answers(0));
      assert Tried(call.answers, 0) == 0 && Tried(call.answers, 1) == 1;
    }
  }

  function AttemptsBy(a: Agent, script: Script): nat {
    match a
    case Triage => AttemptsOf(script.triage)
    case Investigator => AttemptsOf(script.investigator)
    case ThreatHunter => AttemptsOf(script.hunter)
    case Responder => AttemptsOf(script.responder)
  }

  function AttemptsIf(a: Agent, path: seq<Agent>, script: Script): nat {
    if a in path then AttemptsBy(a, script) else 0
  }

  lemma CallsByAreAttempts(a: Agent, script: Script)
    ensures CallsBy(a, script) == AttemptsBy(a, script)
  {
    CallsAreAttempts(script.triage);
    CallsAreAttempts(script.investigator);
    CallsAreAttempts(script.hunter);
    CallsAreAttempts(script.responder);
  }

  lemma CallsCons(a: Agent, rest: seq<Agent>, script: Script)
    ensures PathCalls([a] + rest, script) == AttemptsBy(a, script) + PathCalls(rest, script)
  {
    assert ([a] + rest)[1..] == rest;
    CallsByAreAttempts(a, script);
  }

  lemma AttemptsCons(a: Agent, rest: seq<Agent>, script: Script, b: Agent)
    requires OncePerAgent([a] + rest)
    ensures AttemptsIf(b, [a] + rest, script) == if b == a then AttemptsBy(a, script) else AttemptsIf(b, rest, script)
    ensures AttemptsIf(a, rest, script) == 0
  {
    assert ([a] + rest)[0] == a && forall j :: 0 <= j < |rest| ==> ([a] + rest)[j + 1] == rest[j];
  }

  function AllAttempts(path: seq<Agent>, script: Script): nat {
    AttemptsIf(Triage, path, script) + AttemptsIf(Investigator, path, script) + AttemptsIf(ThreatHunter, path, script)
    + AttemptsIf(Responder, path, script)
  }

  lemma AllAttemptsCons(a: Agent, rest: seq<Agent>, script: Script)
    requires OncePerAgent([a] + rest)
    ensures AllAttempts([a] + rest, script) == AttemptsBy(a, script) + AllAttempts(rest, script)
  {
    AttemptsCons(a, rest, script, Triage);
    AttemptsCons(a, rest, script, Investigator);
    AttemptsCons(a, rest, script, ThreatHunter);
    AttemptsCons(a, rest, script, Responder);
  }

  lemma {:induction false} CallsOnPath(path: seq<Agent>, script: Script)
    requires OncePerAgent(path)
    ensures PathCalls(path, script) == AllAttempts(path, script)
    decreases |path|
  {
    if path != [] {
      var a, rest := path[0], path[1..];
      assert path == [a] + rest;
      CallsOnPath(rest, script);
      CallsCons(a, rest, script);
      AllAttemptsCons(a, rest, script);
    }
  }

  /** A run asks the provider once or twice for each agent that has a turn and a provider, and for no other. */
  lemma CallsAreCounted(s: State, script: Script)
    ensures PathCalls(Follow(s, Triage, script).path, script) == AllAttempts(Follow(s, Triage, script).path, script)
  {
    OneTurn(s, Triage, script);
    CallsOnPath(Follow(s, Triage, script).path, script);
  }
}
