/** The extension pattern of the CEF parser against its own meaning: the shortest value that ends at a boundary
    (ingestion/normalizers.py). */
module CefMatching {
  import opened Wrappers
  import opened Strings
  import opened Cef

  predicate AllOf(p: char -> bool, s: string, i: nat, j: nat)
    requires i <= j <= |s|
  {
    forall k :: i <= k < j ==> p(s[k])
  }

  /** Whitespace, a word and an equals sign, or the end of the text, with or without a final newline. */
  ghost predicate Boundary(u: Classes, s: string) {
    s == "" || s == "\n"
    || exists i, j :: 0 < i < j < |s| && AllOf(u.space, s, 0, i) && AllOf(u.word, s, i, j) && s[j] == '='
  }

  lemma {:induction false} RunIs(p: char -> bool, s: string, n: nat)
    requires n <= |s| && AllOf(p, s, 0, n) && (n < |s| ==> !p(s[n]))
    ensures Run(p, s) == n
  {
  }

  lemma BoundaryHolds(u: Classes, s: string, i: nat, j: nat)
    requires Sound(u) && 0 < i < j < |s| && AllOf(u.space, s, 0, i) && AllOf(u.word, s, i, j) && s[j] == '='
    ensures AtBoundary(u, s)
  {
    RunIs(u.space, s, i);
    RunIs(u.word, s[i..], j - i);
  }

  lemma BoundaryExactly(u: Classes, s: string)
    requires Sound(u)
    ensures AtBoundary(u, s) <==> Boundary(u, s)
  {
    if i, j :| 0 < i < j < |s| && AllOf(u.space, s, 0, i) && AllOf(u.word, s, i, j) && s[j] == '=' {
      BoundaryHolds(u, s, i, j);
    }
    if AtBoundary(u, s) && s != "" && s != "\n" {
      var i := Run(u.space, s);
      var j := i + Run(u.word, s[i..]);
      assert forall k :: i <= k < j ==> s[k] == s[i..][k - i];
      assert s[j] == s[i..][j - i] == '=';
      assert AllOf(u.space, s, 0, i) && AllOf(u.word, s, i, j);
    }
  }

  /** The first `n` characters are pairs of a backslash and any character but a newline, and single characters other than
      backslash and equals sign; and they end at a boundary. */
  ghost predicate Ends(u: Classes, s: string, n: nat) {
    n <= |s| && Accepted(s[..n]) && Boundary(u, s[n..])
  }

  /** The value matched is the shortest that ends at a boundary, and there is none exactly if no value does. */
  ghost predicate Shortest(u: Classes, s: string, r: Option<nat>) {
    match r
    case None => forall n :: !Ends(u, s, n)
    case Some(n) => Ends(u, s, n) && forall m: nat :: m < n ==> !Ends(u, s, m)
  }

  lemma EndsAfter(u: Classes, s: string, n: nat, d: nat)
    requires d <= n <= |s| && Accepted(s[..n]) == Accepted(s[d..][..n - d])
    ensures Ends(u, s, n) <==> Ends(u, s[d..], n - d)
  {
    assert s[d..][n - d..] == s[n..];
  }

  lemma EndsPair(u: Classes, s: string, n: nat)
    requires s != [] && s[0] == '\\' && n > 0
    ensures Ends(u, s, n) <==> n >= 2 && |s| >= 2 && s[1] != '\n' && Ends(u, s[2..], n - 2)
  {
    if 2 <= n <= |s| {
      assert s[..n][2..] == s[2..][..n - 2];
      if s[1] != '\n' {
        EndsAfter(u, s, n, 2);
      }
    }
  }

  lemma EndsSingle(u: Classes, s: string, n: nat)
    requires s != [] && s[0] != '\\' && n > 0
    ensures Ends(u, s, n) <==> s[0] != '=' && Ends(u, s[1..], n - 1)
  {
    if n <= |s| {
      assert s[..n][1..] == s[1..][..n - 1];
      if s[0] != '=' {
        EndsAfter(u, s, n, 1);
      }
    }
  }

  lemma EndsAtOnce(u: Classes, s: string)
    ensures Ends(u, s, 0) <==> Boundary(u, s)
  {
    assert s[0..] == s && s[..0] == [];
  }

  lemma ShortestPair(u: Classes, s: string, r: Option<nat>)
    requires s != [] && s[0] == '\\' && !Boundary(u, s)
    requires |s| >= 2 && s[1] != '\n' && Shortest(u, s[2..], r)
    ensures Shortest(u, s, Plus(2, r))
  {
    EndsAtOnce(u, s);
    forall n: nat | n > 0
      ensures Ends(u, s, n) <==> n >= 2 && Ends(u, s[2..], n - 2)
    {
      EndsPair(u, s, n);
    }
    if r.Some? {
      assert Ends(u, s[2..], (r.value + 2) - 2);
      assert Ends(u, s, r.value + 2);
    }
  }

  lemma ShortestSingle(u: Classes, s: string, r: Option<nat>)
    requires s != [] && s[0] != '\\' && s[0] != '=' && !Boundary(u, s) && Shortest(u, s[1..], r)
    ensures Shortest(u, s, Plus(1, r))
  {
    EndsAtOnce(u, s);
    forall n: nat | n > 0
      ensures Ends(u, s, n) <==> Ends(u, s[1..], n - 1)
    {
      EndsSingle(u, s, n);
    }
    if r.Some? {
      assert Ends(u, s[1..], (r.value + 1) - 1);
      assert Ends(u, s, r.value + 1);
    }
  }

  lemma NoValue(u: Classes, s: string)
    requires s != [] && !Boundary(u, s)
    requires s[0] == '=' || (s[0] == '\\' && (|s| < 2 || s[1] == '\n'))
    ensures Shortest(u, s, None)
  {
    EndsAtOnce(u, s);
    forall n: nat | n > 0
      ensures !Ends(u, s, n)
    {
      if s[0] == '=' {
        EndsSingle(u, s, n);
      } else {
        EndsPair(u, s, n);
      }
    }
  }

  lemma {:induction false} ValueIsShortest(u: Classes, s: string)
    requires Sound(u)
    ensures Shortest(u, s, ValueLength(u, s))
    decreases |s|
  {
    BoundaryExactly(u, s);
    EndsAtOnce(u, s);
    if !Boundary(u, s) {
      if s[0] == '\\' {
        if |s| >= 2 && s[1] != '\n' {
          ValueIsShortest(u, s[2..]);
          ShortestPair(u, s, ValueLength(u, s[2..]));
        } else {
          NoValue(u, s);
        }
      } else if s[0] == '=' {
        NoValue(u, s);
      } else {
        ValueIsShortest(u, s[1..]);
        ShortestSingle(u, s, ValueLength(u, s[1..]));
      }
    }
  }

  ghost predicate KeyAndValue(u: Classes, s: string, k: nat, v: nat) {
    0 < k < |s| && AllOf(u.word, s, 0, k) && s[k] == '=' && Shortest(u, s[k + 1..], Some(v))
  }

  lemma MatchHasBoth(u: Classes, s: string, k: nat, v: nat)
    requires Sound(u) && TryMatch(u, s) == Some((k, v))
    ensures KeyAndValue(u, s, k, v)
  {
    ValueIsShortest(u, s[k + 1..]);
  }

  lemma OneShortest(u: Classes, s: string, r: Option<nat>, v: nat)
    requires Shortest(u, s, r) && Shortest(u, s, Some(v))
    ensures r == Some(v)
  {
  }

  lemma BothMatch(u: Classes, s: string, k: nat, v: nat)
    requires Sound(u) && KeyAndValue(u, s, k, v)
    ensures TryMatch(u, s) == Some((k, v))
  {
    RunIs(u.word, s, k);
    ValueIsShortest(u, s[k + 1..]);
    OneShortest(u, s[k + 1..], ValueLength(u, s[k + 1..]), v);
  }

  /** A match at the start of the text: a word, an equals sign, and the shortest value after it. */
  lemma MatchIsKeyAndValue(u: Classes, s: string, k: nat, v: nat)
    requires Sound(u)
    ensures TryMatch(u, s) == Some((k, v)) <==> KeyAndValue(u, s, k, v)
  {
    if TryMatch(u, s) == Some((k, v)) {
      MatchHasBoth(u, s, k, v);
    }
    if KeyAndValue(u, s, k, v) {
      BothMatch(u, s, k, v);
    }
  }

  // ----- which lines are parsed at all

  ghost predicate Occurs(s: string, pat: string, i: nat) {
    i <= |s| && pat <= s[i..]
  }

  lemma OccursLater(s: string, pat: string, i: nat)
    requires s != [] && i > 0
    ensures Occurs(s, pat, i) <==> Occurs(s[1..], pat, i - 1)
  {
    if i <= |s| {
      assert s[1..][i - 1..] == s[i..];
    }
  }

  ghost predicate FirstAt(s: string, pat: string, i: nat) {
    Occurs(s, pat, i) && forall j: nat :: j < i ==> !Occurs(s, pat, j)
  }

  lemma FirstLater(s: string, pat: string, i: nat)
    requires s != [] && !(pat <= s) && FirstAt(s[1..], pat, i)
    ensures FirstAt(s, pat, i + 1)
  {
    assert s[0..] == s;
    OccursLater(s, pat, i + 1);
    forall j: nat | 0 < j < i + 1
      ensures !Occurs(s, pat, j)
    {
      OccursLater(s, pat, j);
    }
  }

  /** From the first occurrence on. */
  lemma {:induction false} FromIsFirst(s: string, pat: string)
    ensures match From(s, pat)
      case None => forall i: nat :: !Occurs(s, pat, i)
      case Some(t) => exists i: nat :: FirstAt(s, pat, i) && t == s[i..]
  {
    assert s[0..] == s;
    if pat <= s {
      assert FirstAt(s, pat, 0);
    } else if s != [] {
      FromIsFirst(s[1..], pat);
      if From(s, pat) == None {
        forall i: nat | i > 0
          ensures !Occurs(s, pat, i)
        {
          OccursLater(s, pat, i);
        }
      } else {
        var i: nat :| FirstAt(s[1..], pat, i) && From(s, pat).value == s[1..][i..];
        FirstLater(s, pat, i);
        assert s[i + 1..] == s[1..][i..];
      }
    }
  }

  function Count(s: string, c: char): nat {
    if s == [] then 0 else (if s[0] == c then 1 else 0) + Count(s[1..], c)
  }

  lemma {:induction false} PartsCount(s: string, c: char)
    ensures |Split(s, c)| == Count(s, c) + 1
  {
    if s != [] {
      PartsCount(s[1..], c);
    }
  }

  /** A line is parsed exactly if "CEF:" occurs in it and at least seven pipes follow its first occurrence. */
  lemma ParsedExactly(u: Classes, raw: string)
    ensures Parsed(u, raw).Some? <==> exists i: nat :: FirstAt(raw, "CEF:", i) && Count(raw[i..], '|') >= 7
  {
    FromIsFirst(raw, "CEF:");
    if From(raw, "CEF:").Some? {
      var line := From(raw, "CEF:").value;
      PartsCount(line, '|');
      var i: nat :| FirstAt(raw, "CEF:", i) && line == raw[i..];
      if k: nat :| FirstAt(raw, "CEF:", k) && Count(raw[k..], '|') >= 7 {
        assert k == i;
      }
    }
  }
}
