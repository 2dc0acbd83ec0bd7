/** Structured LLM calls and token accounting (utils/llm.py). What the provider answers is an arbitrary function
    of the attempt number. */
module Llm {
  import opened Wrappers

  datatype Usage = Usage(input: int, output: int, total: int)

  const EMPTY_USAGE := Usage(0, 0, 0)

  function Plus(u: Usage, v: Usage): Usage {
    Usage(u.input + v.input, u.output + v.output, u.total + v.total)
  }

  /** One `chain.invoke`: it raises, or returns a raw message with its usage and perhaps a parsed result. */
  datatype Attempt<+T> = Raised | Response(usage: Usage, parsed: Option<T>)

  /** Either the parsed result or a StructuredOutputError, each with the usage to be booked. */
  datatype Outcome<+T> = Parsed(value: T, usage: Usage) | Failed(usage: Usage)

  predicate Succeeds<T>(a: Attempt<T>) {
    a.Response? && a.parsed.Some?
  }

  function Cost<T>(a: Attempt<T>): Usage {
    if a.Response? then a.usage else EMPTY_USAGE
  }

  /** What the first `n` attempts cost, whether or not their output could be parsed. */
  function TotalCost<T>(answers: nat -> Attempt<T>, n: nat): Usage {
    if n == 0 then EMPTY_USAGE else Plus(TotalCost(answers, n - 1), Cost(answers(n - 1)))
  }

  /** How many attempts are made when at most `limit` are allowed: up to the first that succeeds. */
  function Tried<T>(answers: nat -> Attempt<T>, limit: nat): (n: nat)
    ensures n <= limit && (limit > 0 ==> n > 0)
  {
    if limit == 0 then 0
    else
      var before := Tried(answers, limit - 1);
      if before > 0 && Succeeds(answers(before - 1)) then before else limit
  }

  /** The ideal: the first success within the allowed attempts, at the price of every attempt made. */
  function Invoked<T>(answers: nat -> Attempt<T>, retries: nat): Outcome<T> {
    var n := Tried(answers, retries + 1);
    if Succeeds(answers(n - 1)) then Parsed(answers(n - 1).parsed.value, TotalCost(answers, n))
    else Failed(TotalCost(answers, n))
  }

  lemma {:induction false} TriedAll<T>(answers: nat -> Attempt<T>, limit: nat)
    requires forall i: nat :: i < limit ==> !Succeeds(answers(i))
    ensures Tried(answers, limit) == limit
  {
    if limit > 0 {
      TriedAll(answers, limit - 1);
    }
  }

  lemma {:induction false} TriedStops<T>(answers: nat -> Attempt<T>, limit: nat, i: nat)
    requires i < limit && Succeeds(answers(i)) && forall j: nat :: j < i ==> !Succeeds(answers(j))
    ensures Tried(answers, limit) == i + 1
  {
    if limit == i + 1 {
      TriedAll(answers, i);
      if i > 0 {
        assert !Succeeds(answers(i - 1));
      }
    } else {
      TriedStops(answers, limit - 1, i);
    }
  }

  method InvokeStructured<T>(answers: nat -> Attempt<T>, retries: nat) returns (r: Outcome<T>)
    ensures r == Invoked(answers, retries)
  {
    var totalUsage := EMPTY_USAGE;
    for i := 0 to retries + 1
      invariant totalUsage == TotalCost(answers, i)
      invariant forall j: nat :: j < i ==> !Succeeds(answers(j))
    {
      var raw := answers(i);
      if raw.Raised? {
        continue;
      }
      totalUsage := Plus(totalUsage, raw.usage);
      if raw.parsed == None {
        continue;
      }
      InvokedIsFirstSuccess(answers, retries, i);
      return Parsed(raw.parsed.value, totalUsage);
    }
    InvokedFails(answers, retries);
    return Failed(totalUsage);
  }

  ghost predicate FirstSuccess<T>(answers: nat -> Attempt<T>, i: nat) {
    Succeeds(answers(i)) && forall j: nat :: j < i ==> !Succeeds(answers(j))
  }

  /** If some allowed attempt succeeds, the first that does gives the result, and the usage is the cost of every
      attempt up to it, failed parses included. */
  lemma InvokedIsFirstSuccess<T>(answers: nat -> Attempt<T>, retries: nat, i: nat)
    requires i <= retries && FirstSuccess(answers, i)
    ensures Invoked(answers, retries) == Parsed(answers(i).parsed.value, TotalCost(answers, i + 1))
  {
    TriedStops(answers, retries + 1, i);
  }

  /** If none does, the call fails after exactly retries + 1 attempts and all of them are paid for. */
  lemma InvokedFails<T>(answers: nat -> Attempt<T>, retries: nat)
    requires forall i: nat :: i <= retries ==> !Succeeds(answers(i))
    ensures Invoked(answers, retries) == Failed(TotalCost(answers, retries + 1))
  {
    TriedAll(answers, retries + 1);
  }

  // ----- what the attempts were paid, counted one by one

  predicate Parses<T>(a: Attempt<T>) {
    match a
    case Raised => false
    case Response(_, parsed) => parsed != None
  }

  /** The sum of one field over the first `n` attempts that returned a response, parsed or not. */
  function SumOver<T>(answers: nat -> Attempt<T>, n: nat, field: Usage -> int): int {
    if n == 0 then 0
    else
      SumOver(answers, n - 1, field) + match answers(n - 1) case Raised => 0 case Response(u, _) => field(u)
  }

  function Paid<T>(answers: nat -> Attempt<T>, n: nat): Usage {
    Usage(SumOver(answers, n, (u: Usage) => u.input), SumOver(answers, n, (u: Usage) => u.output),
          SumOver(answers, n, (u: Usage) => u.total))
  }

  /** Every attempt with a response is paid for in full, also one whose output could not be parsed; one that raised is
      not. */
  lemma {:induction false} TotalCostIsPaid<T>(answers: nat -> Attempt<T>, n: nat)
    ensures TotalCost(answers, n) == Paid(answers, n)
  {
    if n > 0 {
      TotalCostIsPaid(answers, n - 1);
    }
  }

  /** Attempt `i` is the first that can be parsed. */
  ghost predicate FirstParsed<T>(answers: nat -> Attempt<T>, i: nat) {
    Parses(answers(i)) && forall j: nat :: j < i ==> !Parses(answers(j))
  }

  /** The whole outcome: the first attempt that can be parsed, if one of the retries + 1 allowed can, at the price of all
      attempts up to it; else a failure at the price of all retries + 1. */
  ghost predicate FirstAtFullPrice<T>(answers: nat -> Attempt<T>, retries: nat, r: Outcome<T>) {
    match r
    case Parsed(value, usage) =>
      exists i: nat :: i <= retries && FirstParsed(answers, i) && answers(i).parsed == Some(value) && usage == Paid(answers, i + 1)
    case Failed(usage) => (forall i: nat :: i <= retries ==> !Parses(answers(i))) && usage == Paid(answers, retries + 1)
  }

  lemma {:induction false} FirstWithin<T>(answers: nat -> Attempt<T>, n: nat) returns (i: nat)
    requires Parses(answers(n))
    ensures i <= n && FirstParsed(answers, i)
  {
    if j: nat :| j < n && Parses(answers(j)) {
      i := FirstWithin(answers, j);
    } else {
      i := n;
    }
  }

  lemma InvokedAtFullPrice<T>(answers: nat -> Attempt<T>, retries: nat)
    ensures FirstAtFullPrice(answers, retries, Invoked(answers, retries))
  {
    if n: nat :| n <= retries && Parses(answers(n)) {
      var i := FirstWithin(answers, n);
      assert Succeeds(answers(i)) && forall j: nat :: j < i ==> !Succeeds(answers(j)) by {
        assert forall j: nat :: Succeeds(answers(j)) <==> Parses(answers(j));
      }
      InvokedIsFirstSuccess(answers, retries, i);
      TotalCostIsPaid(answers, i + 1);
    } else {
      assert forall i: nat :: i <= retries ==> !Parses(answers(i)) && !Succeeds(answers(i));
      InvokedFails(answers, retries);
      TotalCostIsPaid(answers, retries + 1);
    }
  }

  // ----- the running totals

  datatype Totals = Totals(sum: Usage, byAgent: map<string, Usage>)

  function Booked(t: Totals, name: string): Usage {
    if name in t.byAgent then t.byAgent[name] else EMPTY_USAGE
  }

  /** `accumulate_usage` */
  function Accumulated(t: Totals, name: string, u: Usage): Totals {
    Totals(Plus(t.sum, u), t.byAgent[name := Plus(Booked(t, name), u)])
  }

  function BookedSum(t: Totals, names: seq<string>): Usage {
    if names == [] then EMPTY_USAGE
    else Plus(BookedSum(t, names[..|names| - 1]), Booked(t, names[|names| - 1]))
  }

  predicate DistinctNames(names: seq<string>) {
    forall i, j :: 0 <= i < j < |names| ==> names[i] != names[j]
  }

  lemma BookedChange(t: Totals, name: string, u: Usage, other: string)
    ensures Booked(Accumulated(t, name, u), other) == if other == name then Plus(Booked(t, name), u) else Booked(t, other)
  {
  }

  lemma PlusRearranged(a: Usage, b: Usage, u: Usage)
    ensures Plus(Plus(a, u), b) == Plus(Plus(a, b), u) == Plus(a, Plus(b, u))
  {
  }

  lemma LastName(names: seq<string>, name: string)
    requires DistinctNames(names) && names != []
    ensures name in names <==> name in names[..|names| - 1] || name == names[|names| - 1]
    ensures name == names[|names| - 1] ==> name !in names[..|names| - 1]
  {
  }

  lemma {:induction false} BookedSumGrows(t: Totals, name: string, u: Usage, names: seq<string>)
    requires DistinctNames(names)
    ensures BookedSum(Accumulated(t, name, u), names)
         == if name in names then Plus(BookedSum(t, names), u) else BookedSum(t, names)
  {
    if names != [] {
      var n := |names| - 1;
      BookedSumGrows(t, name, u, names[..n]);
      LastName(names, name);
      BookedChange(t, name, u, names[n]);
      PlusRearranged(BookedSum(t, names[..n]), Booked(t, names[n]), u);
    }
  }

  /** The running total is the sum of what is booked under the names, which are all there are. */
  ghost predicate Balanced(t: Totals, names: seq<string>) {
    && DistinctNames(names)
    && (forall name :: name in t.byAgent ==> name in names)
    && t.sum == BookedSum(t, names)
  }

  /** Booking keeps the books balanced. */
  lemma AccumulateKeepsBalance(t: Totals, name: string, u: Usage, names: seq<string>)
    requires Balanced(t, names) && name in names
    ensures Balanced(Accumulated(t, name, u), names)
  {
    BookedSumGrows(t, name, u, names);
  }
}
