/** String facts shared by the other modules. */
module Strings {

  /** Code-point order, as SQLite's binary collation and Redis's member order compare. */
  predicate LexLess(a: string, b: string) {
    if b == [] then false
    else if a == [] then true
    else a[0] < b[0] || (a[0] == b[0] && LexLess(a[1..], b[1..]))
  }

  lemma {:induction false} LexIrreflexive(a: string)
    ensures !LexLess(a, a)
  {
    if a != [] {
      LexIrreflexive(a[1..]);
    }
  }

  lemma {:induction false} LexTransitive(a: string, b: string, c: string)
    requires LexLess(a, b) && LexLess(b, c)
    ensures LexLess(a, c)
  {
    if a != [] && a[0] == b[0] == c[0] {
      LexTransitive(a[1..], b[1..], c[1..]);
    }
  }

  lemma {:induction false} LexTotal(a: string, b: string)
    ensures a == b || LexLess(a, b) || LexLess(b, a)
  {
    if a != [] && b != [] && a[0] == b[0] {
      LexTotal(a[1..], b[1..]);
      assert a == [a[0]] + a[1..] && b == [b[0]] + b[1..];
    }
  }

  /** Texts that first differ at `i`. */
  lemma {:induction false} LexAt(a: string, b: string, i: nat)
    requires i < |a| && i < |b| && a[i] < b[i] && forall k :: 0 <= k < i ==> a[k] == b[k]
    ensures LexLess(a, b)
  {
    if i > 0 {
      LexAt(a[1..], b[1..], i - 1);
    }
  }

  predicate Lacks(s: string, c: char) {
    forall i :: 0 <= i < |s| ==> s[i] != c
  }

  function Digit(n: nat): (c: char)
    requires n < 10
    ensures '0' <= c <= '9'
  {
    '0' + n as char
  }

  /** Decimal, without leading zeros. */
  function Decimal(n: nat): (s: string)
    ensures s != [] && forall i :: 0 <= i < |s| ==> '0' <= s[i] <= '9'
  {
    if n < 10 then [Digit(n)] else Decimal(n / 10) + [Digit(n % 10)]
  }

  lemma {:induction false} DecimalInjective(a: nat, b: nat)
    requires Decimal(a) == Decimal(b)
    ensures a == b
  {
    var s, t := Decimal(a), Decimal(b);
    assert s[|s| - 1] == Digit(a % 10) && t[|t| - 1] == Digit(b % 10);
    if a >= 10 && b >= 10 {
      assert Decimal(a / 10) == s[..|s| - 1] && Decimal(b / 10) == t[..|t| - 1];
      DecimalInjective(a / 10, b / 10);
    }
  }

  /** Text before the first separator, or after the last one, can be read back. */
  lemma FirstSeparator(p: string, q: string, r: string, s: string, c: char)
    requires Lacks(p, c) && Lacks(r, c) && p + [c] + q == r + [c] + s
    ensures p == r && q == s
  {
    var x := p + [c] + q;
    assert x[|p|] == c && x[|r|] == c;
    assert forall i :: 0 <= i < |p| ==> x[i] == p[i];
    assert forall i :: 0 <= i < |r| ==> x[i] == r[i];
    assert |p| == |r|;
    assert p == x[..|p|] && r == x[..|r|] && q == x[|p| + 1..] && s == x[|r| + 1..];
  }

  lemma LastSeparator(p: string, q: string, r: string, s: string, c: char)
    requires Lacks(q, c) && Lacks(s, c) && p + [c] + q == r + [c] + s
    ensures p == r && q == s
  {
    var x := p + [c] + q;
    assert x[|p|] == c && x[|r|] == c;
    assert forall i :: |p| < i < |x| ==> x[i] == q[i - |p| - 1];
    assert forall i :: |r| < i < |x| ==> x[i] == s[i - |r| - 1];
    assert |p| == |r|;
    assert p == x[..|p|] && r == x[..|r|] && q == x[|p| + 1..] && s == x[|r| + 1..];
  }

  // ----- stripping, as Python's `str.strip` with a character class

  function StripLeft(s: string, p: char -> bool): (r: string)
    ensures |r| <= |s| && s[|s| - |r|..] == r && (r != [] ==> !p(r[0]))
    ensures forall c :: c in r ==> c in s
  {
    if s != [] && p(s[0]) then StripLeft(s[1..], p) else s
  }

  function StripRight(s: string, p: char -> bool): (r: string)
    ensures r <= s && (r != [] ==> !p(r[|r| - 1]))
    ensures forall c :: c in r ==> c in s
  {
    if s != [] && p(s[|s| - 1]) then StripRight(s[..|s| - 1], p) else s
  }

  function Strip(s: string, p: char -> bool): string {
    StripRight(StripLeft(s, p), p)
  }

  lemma StripKeeps(s: string, p: char -> bool)
    ensures var r := Strip(s, p);
      && |r| <= |s|
      && (forall c :: c in r ==> c in s)
      && (r != [] ==> !p(r[0]) && !p(r[|r| - 1]))
  {
    var left := StripLeft(s, p);
    var r := StripRight(left, p);
    assert r != [] ==> r[0] == left[0];
  }

  lemma StripNothing(s: string, p: char -> bool)
    requires s != [] ==> !p(s[0]) && !p(s[|s| - 1])
    ensures Strip(s, p) == s
  {
  }

  /** `r` is `s` without the characters of the class at both ends. */
  ghost predicate IsTrimmed(s: string, p: char -> bool, r: string) {
    exists i, j :: 0 <= i <= j <= |s| && r == s[i..j]
      && (forall k :: 0 <= k < i || j <= k < |s| ==> p(s[k]))
      && (r != [] ==> !p(r[0]) && !p(r[|r| - 1]))
  }

  lemma {:induction false} StripLeftDrops(s: string, p: char -> bool)
    ensures forall k :: 0 <= k < |s| - |StripLeft(s, p)| ==> p(s[k])
  {
    if s != [] && p(s[0]) {
      StripLeftDrops(s[1..], p);
    }
  }

  lemma {:induction false} StripRightDrops(s: string, p: char -> bool)
    ensures forall k :: |StripRight(s, p)| <= k < |s| ==> p(s[k])
  {
    if s != [] && p(s[|s| - 1]) {
      StripRightDrops(s[..|s| - 1], p);
    }
  }

  lemma StripTrims(s: string, p: char -> bool)
    ensures IsTrimmed(s, p, Strip(s, p))
  {
    var left, r := StripLeft(s, p), Strip(s, p);
    StripLeftDrops(s, p);
    StripRightDrops(left, p);
    StripKeeps(s, p);
    var i := |s| - |left|;
    assert r == s[i..i + |r|];
    forall k | 0 <= k < i || i + |r| <= k < |s|
      ensures p(s[k])
    {
      if k >= i {
        assert s[k] == left[k - i];
      }
    }
  }
}
