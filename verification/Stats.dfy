/** Mean and median (`_mean_median` of utils/incident_index.py), over exact reals. */
module Stats {
  import opened Wrappers

  function Insert(sorted: seq<real>, x: real): seq<real> {
    if sorted != [] && sorted[|sorted| - 1] > x
    then Insert(sorted[..|sorted| - 1], x) + [sorted[|sorted| - 1]]
    else sorted + [x]
  }

  /** `sorted(values)`. */
  function Sort(values: seq<real>): seq<real> {
    if values == [] then [] else Insert(Sort(values[..|values| - 1]), values[|values| - 1])
  }

  function Sum(values: seq<real>): real {
    if values == [] then 0.0 else Sum(values[..|values| - 1]) + values[|values| - 1]
  }

  datatype Summary = Summary(mean: real, median: real, count: nat)

  function Median(ordered: seq<real>): real
    requires ordered != []
  {
    var mid := |ordered| / 2;
    if |ordered| % 2 == 1 then ordered[mid] else (ordered[mid - 1] + ordered[mid]) / 2.0
  }

  function Summarize(ordered: seq<real>): Option<Summary> {
    if ordered == [] then None
    else Some(Summary(Sum(ordered) / |ordered| as real, Median(ordered), |ordered|))
  }

  /** None stands for the empty answer. */
  function MeanMedian(values: seq<real>): Option<Summary> {
    Summarize(Sort(values))
  }

  ghost predicate Ascending(xs: seq<real>) {
    forall i, j :: 0 <= i <= j < |xs| ==> xs[i] <= xs[j]
  }

  lemma {:induction false} InsertPermutes(sorted: seq<real>, x: real)
    ensures multiset(Insert(sorted, x)) == multiset(sorted) + multiset{x}
  {
    if sorted != [] && sorted[|sorted| - 1] > x {
      var n := |sorted| - 1;
      InsertPermutes(sorted[..n], x);
      assert sorted == sorted[..n] + [sorted[n]];
    }
  }

  lemma {:induction false} InsertMembers(sorted: seq<real>, x: real)
    ensures forall y :: y in Insert(sorted, x) <==> y in sorted || y == x
  {
    if sorted != [] && sorted[|sorted| - 1] > x {
      var n := |sorted| - 1;
      InsertMembers(sorted[..n], x);
      assert forall y :: y in sorted <==> y in sorted[..n] || y == sorted[n];
    }
  }

  ghost predicate AllAtMost(xs: seq<real>, top: real) {
    forall x :: x in xs ==> x <= top
  }

  lemma AscendingSnoc(xs: seq<real>, top: real)
    requires Ascending(xs) && AllAtMost(xs, top)
    ensures Ascending(xs + [top])
  {
    assert forall i :: 0 <= i < |xs| ==> xs[i] in xs;
  }

  lemma {:induction false} InsertAscending(sorted: seq<real>, x: real)
    requires Ascending(sorted)
    ensures Ascending(Insert(sorted, x))
  {
    if sorted != [] && sorted[|sorted| - 1] > x {
      var n := |sorted| - 1;
      InsertAscending(sorted[..n], x);
      InsertMembers(sorted[..n], x);
      AscendingSnoc(Insert(sorted[..n], x), sorted[n]);
    } else {
      AscendingSnoc(sorted, x);
    }
  }

  lemma {:induction false} SortFacts(values: seq<real>)
    ensures multiset(Sort(values)) == multiset(values) && Ascending(Sort(values)) && |Sort(values)| == |values|
  {
    if values != [] {
      var n := |values| - 1;
      SortFacts(values[..n]);
      InsertPermutes(Sort(values[..n]), values[n]);
      InsertAscending(Sort(values[..n]), values[n]);
      assert values == values[..n] + [values[n]];
      assert |multiset(Sort(values))| == |multiset(values)|;
    }
  }

  lemma LastIsGreatest(a: seq<real>, b: seq<real>)
    requires Ascending(a) && multiset(a) == multiset(b) && a != [] && b != []
    ensures b[|b| - 1] <= a[|a| - 1]
  {
    assert b[|b| - 1] in multiset(b);
    assert b[|b| - 1] in a;
  }

  lemma WithoutLast(a: seq<real>)
    requires a != []
    ensures multiset(a[..|a| - 1]) == multiset(a) - multiset{a[|a| - 1]}
  {
    assert a == a[..|a| - 1] + [a[|a| - 1]];
  }

  lemma DropLast(a: seq<real>, b: seq<real>)
    requires multiset(a) == multiset(b) && a != [] && b != [] && a[|a| - 1] == b[|b| - 1]
    ensures multiset(a[..|a| - 1]) == multiset(b[..|b| - 1])
  {
    WithoutLast(a);
    WithoutLast(b);
  }

  /** There is only one ascending arrangement of a multiset. */
  lemma {:induction false} AscendingUnique(a: seq<real>, b: seq<real>)
    requires Ascending(a) && Ascending(b) && multiset(a) == multiset(b)
    ensures a == b
    decreases |a|
  {
    assert |a| == |multiset(a)| && |b| == |multiset(b)|;
    if a != [] {
      var n := |a| - 1;
      LastIsGreatest(a, b);
      LastIsGreatest(b, a);
      DropLast(a, b);
      AscendingUnique(a[..n], b[..n]);
      assert a == a[..n] + [a[n]] && b == b[..n] + [b[n]];
    }
  }

  /** The answer does not depend on the order in which the rows arrive. */
  lemma MeanMedianIgnoresOrder(values: seq<real>, shuffled: seq<real>)
    requires multiset(values) == multiset(shuffled)
    ensures MeanMedian(values) == MeanMedian(shuffled)
  {
    SortFacts(values);
    SortFacts(shuffled);
    AscendingUnique(Sort(values), Sort(shuffled));
  }

  lemma {:induction false} SumBetween(xs: seq<real>, lo: real, hi: real)
    requires forall i :: 0 <= i < |xs| ==> lo <= xs[i] <= hi
    ensures |xs| as real * lo <= Sum(xs) <= |xs| as real * hi
  {
    if xs != [] {
      var n := |xs| - 1;
      SumBetween(xs[..n], lo, hi);
      assert |xs| as real == n as real + 1.0;
      assert (n as real + 1.0) * lo == n as real * lo + lo;
      assert (n as real + 1.0) * hi == n as real * hi + hi;
    }
  }

  lemma ProductGrows(n: real, a: real, b: real)
    requires n > 0.0 && a < b
    ensures n * a < n * b
  {
  }

  lemma QuotientBetween(sum: real, n: real, lo: real, hi: real)
    requires n > 0.0 && n * lo <= sum <= n * hi
    ensures lo <= sum / n <= hi
  {
    var q := sum / n;
    assert q * n == sum;
    if q < lo {
      ProductGrows(n, q, lo);
      assert false;
    }
    if q > hi {
      ProductGrows(n, hi, q);
      assert false;
    }
  }

  lemma MedianBetween(ordered: seq<real>, lo: real, hi: real)
    requires ordered != [] && forall i :: 0 <= i < |ordered| ==> lo <= ordered[i] <= hi
    ensures lo <= Median(ordered) <= hi
  {
  }

  lemma MeanBetween(ordered: seq<real>, lo: real, hi: real)
    requires ordered != [] && forall i :: 0 <= i < |ordered| ==> lo <= ordered[i] <= hi
    ensures lo <= Sum(ordered) / |ordered| as real <= hi
  {
    SumBetween(ordered, lo, hi);
    QuotientBetween(Sum(ordered), |ordered| as real, lo, hi);
  }

  ghost predicate LiesBetween(s: Option<Summary>, count: nat, lo: real, hi: real) {
    s.Some? && s.value.count == count && lo <= s.value.mean <= hi && lo <= s.value.median <= hi
  }

  /** Mean and median lie between any bounds of the values, so between their least and greatest. */
  lemma MeanMedianBetween(values: seq<real>, lo: real, hi: real)
    requires values != [] && forall x :: x in values ==> lo <= x <= hi
    ensures LiesBetween(MeanMedian(values), |values|, lo, hi)
  {
    SortFacts(values);
    SortedBetween(values, Sort(values), lo, hi);
    MeanBetween(Sort(values), lo, hi);
    MedianBetween(Sort(values), lo, hi);
  }

  lemma SortedBetween(values: seq<real>, ordered: seq<real>, lo: real, hi: real)
    requires multiset(ordered) == multiset(values) && forall x :: x in values ==> lo <= x <= hi
    ensures forall i :: 0 <= i < |ordered| ==> lo <= ordered[i] <= hi
  {
    forall i | 0 <= i < |ordered|
      ensures lo <= ordered[i] <= hi
    {
      assert ordered[i] in multiset(ordered);
      assert ordered[i] in values;
    }
  }

  // ----- what mean and median are

  lemma {:induction false} SumConcat(a: seq<real>, b: seq<real>)
    ensures Sum(a + b) == Sum(a) + Sum(b)
  {
    if b == [] {
      assert a + b == a;
    } else {
      assert (a + b)[..|a + b| - 1] == a + b[..|b| - 1];
      SumConcat(a, b[..|b| - 1]);
    }
  }

  lemma SumOfOne(x: real)
    ensures Sum([]) == 0.0 && Sum([x]) == x
  {
    assert [x][..0] == [];
  }

  lemma {:induction false} InsertSum(sorted: seq<real>, x: real)
    ensures Sum(Insert(sorted, x)) == Sum(sorted) + x
  {
    if sorted != [] && sorted[|sorted| - 1] > x {
      var n := |sorted| - 1;
      InsertSum(sorted[..n], x);
      SumConcat(Insert(sorted[..n], x), [sorted[n]]);
      SumOfOne(sorted[n]);
    } else {
      SumConcat(sorted, [x]);
      SumOfOne(x);
    }
  }

  lemma {:induction false} SortSum(values: seq<real>)
    ensures Sum(Sort(values)) == Sum(values)
  {
    if values != [] {
      SortSum(values[..|values| - 1]);
      InsertSum(Sort(values[..|values| - 1]), values[|values| - 1]);
    }
  }

  /** `m` is the middle of the ascending list, or half-way between its two middle elements. */
  ghost predicate IsMiddle(m: real, ordered: seq<real>) {
    exists k: nat :: (|ordered| == 2 * k + 1 && m == ordered[k]) || (k >= 1 && |ordered| == 2 * k && 2.0 * m == ordered[k - 1] + ordered[k])
  }

  lemma MedianIsMiddle(ordered: seq<real>)
    requires ordered != []
    ensures IsMiddle(Median(ordered), ordered)
  {
    var k := |ordered| / 2;
    assert |ordered| == 2 * k + 1 || |ordered| == 2 * k;
  }

  lemma QuotientTimes(sum: real, n: real)
    requires n > 0.0
    ensures (sum / n) * n == sum
  {
  }

  /** The number of values, their sum divided by it, and their middle; nothing of no values. */
  ghost predicate Describes(r: Option<Summary>, ordered: seq<real>, count: nat, sum: real) {
    match r
    case None => count == 0
    case Some(s) => s.count == count > 0 && s.mean * count as real == sum && IsMiddle(s.median, ordered)
  }

  lemma SummarizeExactly(ordered: seq<real>)
    ensures Describes(Summarize(ordered), ordered, |ordered|, Sum(ordered))
  {
    if ordered != [] {
      QuotientTimes(Sum(ordered), |ordered| as real);
      MedianIsMiddle(ordered);
    }
  }

  lemma SortUnique(values: seq<real>, ordered: seq<real>)
    requires multiset(ordered) == multiset(values) && Ascending(ordered)
    ensures Sort(values) == ordered && |ordered| == |values| && Sum(ordered) == Sum(values)
  {
    SortFacts(values);
    AscendingUnique(ordered, Sort(values));
    SortSum(values);
  }

  /** Mean and median, by any ascending arrangement of the values. */
  lemma MeanMedianExactly(values: seq<real>, ordered: seq<real>)
    requires multiset(ordered) == multiset(values) && Ascending(ordered)
    ensures Describes(MeanMedian(values), ordered, |values|, Sum(values))
  {
    SortUnique(values, ordered);
    SummarizeExactly(ordered);
  }
}
