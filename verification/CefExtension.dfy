/** What the extension pattern of `_parse_cef` (ingestion/normalizers.py) makes of a printed extension. */
module CefExtension {
  import opened Wrappers
  import opened Strings
  import opened Cef

  // ----- one printed value under the lazy pattern

  /** Text that may follow a value: nothing, or the separating space and more. */
  predicate Follows(rest: string) {
    rest == [] || rest[0] == ' '
  }

  /** A printed value never shows `\w+=`: each of its equals signs hides behind a backslash. */
  lemma {:induction false} NoWordEquals(u: Classes, w: string, rest: string)
    requires Sound(u) && Follows(rest)
    ensures var s := Escape(w) + rest; Run(u.word, s) < |s| ==> s[Run(u.word, s)] != '='
  {
    var s := Escape(w) + rest;
    if w == [] {
      assert s == rest;
      assert rest != [] ==> !u.word(rest[0]);
    } else if w[0] != '\\' && w[0] != '=' && u.word(w[0]) {
      NoWordEquals(u, w[1..], rest);
      assert s[1..] == Escape(w[1..]) + rest;
    }
  }

  lemma SpaceRunStep(u: Classes, c: char, t: string)
    requires u.space(c)
    ensures ([c] + t)[Run(u.space, [c] + t)..] == t[Run(u.space, t)..]
  {
    assert ([c] + t)[1..] == t;
  }

  lemma SpaceIsPlain(u: Classes, v: string)
    requires Sound(u) && v != [] && u.space(v[0])
    ensures Escape(v) == [v[0]] + Escape(v[1..])
  {
  }

  lemma Reassociate(a: string, b: string, c: string)
    ensures (a + b) + c == a + (b + c)
  {
  }

  lemma SpaceEscapes(u: Classes, v: string, rest: string)
    requires Sound(u) && v != [] && u.space(v[0])
    ensures Escape(v) + rest == [v[0]] + (Escape(v[1..]) + rest)
  {
    SpaceIsPlain(u, v);
    Reassociate([v[0]], Escape(v[1..]), rest);
  }

  lemma NoWordHere(u: Classes, v: string, rest: string)
    requires Sound(u) && Follows(rest) && v != [] && !u.space(v[0])
    ensures var s := Escape(v) + rest; !WordEquals(u, s[Run(u.space, s)..])
  {
    var s := Escape(v) + rest;
    NoWordEquals(u, v, rest);
    assert Run(u.space, s) == 0 && s[0..] == s;
  }

  lemma {:induction false} NoBoundaryAfterSpaces(u: Classes, v: string, rest: string)
    requires Sound(u) && Follows(rest) && !AllSpace(u, v)
    ensures var s := Escape(v) + rest; !WordEquals(u, s[Run(u.space, s)..])
  {
    if u.space(v[0]) {
      NoBoundaryAfterSpaces(u, v[1..], rest);
      SpaceEscapes(u, v, rest);
      SpaceRunStep(u, v[0], Escape(v[1..]) + rest);
    } else {
      NoWordHere(u, v, rest);
    }
  }

  /** Trailing whitespace, the separator and the next key make a boundary. */
  lemma BoundaryBeforeKey(u: Classes, w: string, k: string, more: string)
    requires Sound(u) && AllSpace(u, w) && w != [] && IsKey(u, k)
    ensures AtBoundary(u, w + (k + "=" + more))
  {
    var t := k + "=" + more;
    RunPrefix(u.word, k, "=" + more);
    assert t == k + ("=" + more);
    assert u.word(k[0]);
    RunAll(u.space, w);
    RunPrefix(u.space, w, t);
    assert (w + t)[|w|..] == t;
  }

  lemma {:induction false} RunAll(p: char -> bool, a: string)
    requires forall i :: 0 <= i < |a| ==> p(a[i])
    ensures Run(p, a) == |a|
  {
  }

  lemma {:induction false} RunPrefix(p: char -> bool, a: string, b: string)
    requires Run(p, a) == |a| && (b == [] || !p(b[0]))
    ensures Run(p, a + b) == |a|
  {
    var n := Run(p, a + b);
    assert forall i :: 0 <= i < |a| ==> p((a + b)[i]);
    assert |a| < |a + b| ==> (a + b)[|a|] == b[0];
  }

  /** `rest` after a value: the end, which a stripped value may meet, or a space and another field. */
  ghost predicate Next(u: Classes, v: string, rest: string) {
    || (rest == [] && RStrip(u, v) == v)
    || exists k: string, more: string :: IsKey(u, k) && rest == " " + (k + "=" + more)
  }

  lemma ValueStep(u: Classes, c: char, t: string)
    requires Sound(u) && !AtBoundary(u, Escape([c]) + t)
    ensures ValueLength(u, Escape([c]) + t) == Plus(|Escape([c])|, ValueLength(u, t))
  {
    var s := Escape([c]) + t;
    assert [c][1..] == [] && Escape([]) == [];
    if c == '\\' || c == '=' {
      assert Escape([c]) == ['\\', c];
      assert s[2..] == t;
    } else {
      assert Escape([c]) == [c];
      assert s[1..] == t;
    }
  }

  lemma EscapeCons(c: char, v: string)
    ensures Escape([c] + v) == Escape([c]) + Escape(v)
  {
    EscapeConcat([c], v);
  }

  lemma SpacesThenKey(u: Classes, v: string, rest: string, k: string, more: string)
    requires Sound(u) && AllSpace(u, v) && IsKey(u, k) && rest == " " + (k + "=" + more)
    ensures AtBoundary(u, v + rest)
  {
    BoundaryBeforeKey(u, v + " ", k, more);
    assert v + rest == (v + " ") + (k + "=" + more);
  }

  lemma SpacesStripToNothing(u: Classes, v: string)
    requires Sound(u) && AllSpace(u, v)
    ensures Escape(v) == v && RStrip(u, v) == ""
  {
    EscapeSpaces(u, v);
    RStripUnique(u, "", v);
    assert "" + v == v;
  }

  lemma ValueOfSpaces(u: Classes, v: string, rest: string)
    requires Sound(u) && Next(u, v, rest) && AllSpace(u, v)
    ensures AtBoundary(u, Escape(v) + rest) && RStrip(u, v) == ""
  {
    SpacesStripToNothing(u, v);
    if rest != [] {
      var k: string, more: string :| IsKey(u, k) && rest == " " + (k + "=" + more);
      SpacesThenKey(u, v, rest, k, more);
    } else {
      assert v + rest == "";
    }
  }

  lemma NoBoundaryInside(u: Classes, v: string, rest: string)
    requires Sound(u) && Next(u, v, rest) && !AllSpace(u, v)
    ensures !AtBoundary(u, Escape(v) + rest)
  {
    NoBoundaryAfterSpaces(u, v, rest);
    NotJustNewline(u, v, rest);
  }

  /** The lazy value pattern captures exactly the printed value without its trailing whitespace. */
  lemma {:induction false} PrintedValueCaptured(u: Classes, v: string, rest: string)
    requires Sound(u) && Next(u, v, rest)
    ensures ValueLength(u, Escape(v) + rest) == Some(|Escape(RStrip(u, v))|)
    decreases |v|
  {
    if AllSpace(u, v) {
      ValueOfSpaces(u, v, rest);
    } else {
      NextTail(u, v, rest);
      PrintedValueCaptured(u, v[1..], rest);
      CaptureOneMore(u, v, rest);
    }
  }

  lemma StrippedLength(u: Classes, v: string)
    requires Sound(u) && !AllSpace(u, v)
    ensures v != [] && |Escape(RStrip(u, v))| == |Escape([v[0]])| + |Escape(RStrip(u, v[1..]))|
  {
    RStripTail(u, v);
    EscapeSplit(v[0], RStrip(u, v[1..]), "");
  }

  lemma CaptureOneMore(u: Classes, v: string, rest: string)
    requires Sound(u) && Next(u, v, rest) && !AllSpace(u, v)
    requires ValueLength(u, Escape(v[1..]) + rest) == Some(|Escape(RStrip(u, v[1..]))|)
    ensures ValueLength(u, Escape(v) + rest) == Some(|Escape(RStrip(u, v))|)
  {
    NoBoundaryInside(u, v, rest);
    StrippedLength(u, v);
    CaptureStep(u, v, rest);
  }

  lemma CaptureStep(u: Classes, v: string, rest: string)
    requires Sound(u) && v != [] && !AtBoundary(u, Escape(v) + rest)
    ensures ValueLength(u, Escape(v) + rest) == Plus(|Escape([v[0]])|, ValueLength(u, Escape(v[1..]) + rest))
  {
    assert v == [v[0]] + v[1..];
    EscapeSplit(v[0], v[1..], rest);
    ValueStep(u, v[0], Escape(v[1..]) + rest);
  }

  lemma EscapeSplit(c: char, v: string, rest: string)
    ensures Escape([c] + v) + rest == Escape([c]) + (Escape(v) + rest)
    ensures |Escape([c] + v)| == |Escape([c])| + |Escape(v)|
  {
    EscapeCons(c, v);
    Associate(Escape([c]), Escape(v), rest);
  }

  lemma Associate(a: string, b: string, c: string)
    ensures (a + b) + c == a + (b + c)
  {
  }

  lemma {:induction false} EscapeGrows(v: string)
    ensures |Escape(v)| >= |v|
  {
    if v != [] {
      EscapeGrows(v[1..]);
    }
  }

  lemma NotJustNewline(u: Classes, v: string, rest: string)
    requires Sound(u) && !AllSpace(u, v)
    ensures Escape(v) + rest != "\n" && Escape(v) + rest != []
  {
    EscapeGrows(v);
    assert |v| == 1 ==> !u.space(v[0]);
    assert (Escape(v) + rest)[0] == Escape(v)[0];
  }

  lemma RStripTail(u: Classes, v: string)
    requires !AllSpace(u, v)
    ensures RStrip(u, v) == [v[0]] + RStrip(u, v[1..])
  {
    RStripSplits(u, v[1..]);
    var r := RStrip(u, v[1..]);
    var w := v[1..][|r|..];
    assert v == ([v[0]] + r) + w;
    if r == [] {
      assert w == v[1..];
      assert forall i :: 1 <= i < |v| ==> v[i] == w[i - 1];
    }
    RStripUnique(u, [v[0]] + r, w);
  }

  lemma NextTail(u: Classes, v: string, rest: string)
    requires Next(u, v, rest) && !AllSpace(u, v)
    ensures Next(u, v[1..], rest)
  {
    RStripTail(u, v);
  }

  // ----- a whole printed extension

  ghost predicate Printable(u: Classes, fields: seq<(string, string)>) {
    forall f :: f in fields ==> IsKey(u, f.0)
  }

  /** The matches a printed extension is meant to yield. */
  function MatchesFor(u: Classes, fields: seq<(string, string)>): seq<(string, string)> {
    if fields == [] then []
    else [(fields[0].0, Escape(RStrip(u, fields[0].1)))] + MatchesFor(u, fields[1..])
  }

  lemma {:induction false} SkipSpaces(u: Classes, w: string, t: string)
    requires Sound(u) && AllSpace(u, w)
    ensures Matches(u, w + t) == Matches(u, t)
  {
    if w == [] {
      assert w + t == t;
    } else {
      assert !u.word((w + t)[0]);
      assert Run(u.word, w + t) == 0;
      assert (w + t)[1..] == w[1..] + t;
      SkipSpaces(u, w[1..], t);
    }
  }

  lemma KeyThenEquals(u: Classes, k: string, t: string)
    requires Sound(u) && IsKey(u, k)
    ensures var s := k + "=" + t; WordEquals(u, s) && Run(u.word, s) == |k| && s[|k| + 1..] == t
  {
    assert k + "=" + t == k + ("=" + t);
    RunPrefix(u.word, k, "=" + t);
  }

  lemma KeyThenValue(u: Classes, k: string, t: string, n: nat)
    requires Sound(u) && IsKey(u, k) && ValueLength(u, t) == Some(n)
    ensures TryMatch(u, k + "=" + t) == Some((|k|, n))
  {
    KeyThenEquals(u, k, t);
  }

  lemma FieldCaptured(u: Classes, k: string, v: string, rest: string)
    requires Sound(u) && IsKey(u, k) && Next(u, v, rest)
    ensures TryMatch(u, k + "=" + Escape(v) + rest) == Some((|k|, |Escape(RStrip(u, v))|))
  {
    Associate(k + "=", Escape(v), rest);
    PrintedValueCaptured(u, v, rest);
    KeyThenValue(u, k, Escape(v) + rest, |Escape(RStrip(u, v))|);
  }

  lemma EscapedTail(u: Classes, v: string)
    requires Sound(u)
    ensures var kept := RStrip(u, v);
      |kept| <= |v| && Escape(v) == Escape(kept) + v[|kept|..] && AllSpace(u, v[|kept|..])
  {
    var kept := RStrip(u, v);
    RStripSplits(u, v);
    var w := v[|kept|..];
    assert v == kept + w;
    EscapeConcat(kept, w);
    EscapeSpaces(u, w);
  }

  lemma MatchesUnfold(u: Classes, k: string, e: string, after: string)
    requires TryMatch(u, k + "=" + e + after) == Some((|k|, |e|))
    ensures Matches(u, k + "=" + e + after) == [(k, e)] + Matches(u, after)
  {
    var s := k + "=" + e + after;
    assert s[..|k|] == k;
    assert s[|k| + 1..|k| + 1 + |e|] == e;
    assert s[|k| + 1 + |e|..] == after;
  }

  /** One printed field yields one match; what remains is the value's trailing whitespace and the rest. */
  lemma MatchField(u: Classes, k: string, v: string, rest: string)
    requires Sound(u) && IsKey(u, k) && Next(u, v, rest)
    ensures |RStrip(u, v)| <= |v|
    ensures Matches(u, k + "=" + Escape(v) + rest) ==
      [(k, Escape(RStrip(u, v)))] + Matches(u, v[|RStrip(u, v)|..] + rest)
  {
    var kept := RStrip(u, v);
    EscapedTail(u, v);
    FieldCaptured(u, k, v, rest);
    Regroup(k, Escape(kept), v[|kept|..], rest);
    MatchesUnfold(u, k, Escape(kept), v[|kept|..] + rest);
  }

  lemma Regroup(k: string, e: string, w: string, rest: string)
    ensures k + "=" + (e + w) + rest == k + "=" + e + (w + rest)
  {
  }

  lemma SkipTail(u: Classes, v: string, next: string)
    requires Sound(u)
    ensures Matches(u, v[|RStrip(u, v)|..] + (" " + next)) == Matches(u, next)
  {
    EscapedTail(u, v);
    var w := v[|RStrip(u, v)|..];
    assert w + (" " + next) == (w + " ") + next;
    SkipSpaces(u, w + " ", next);
  }

  /** The same when more fields follow: the separator and the trailing whitespace are skipped. */
  lemma MatchFieldThenMore(u: Classes, k: string, v: string, tail: seq<(string, string)>)
    requires Sound(u) && IsKey(u, k) && tail != [] && IsKey(u, tail[0].0)
    ensures Matches(u, k + "=" + Escape(v) + (" " + PrintExtension(tail))) ==
      [(k, Escape(RStrip(u, v)))] + Matches(u, PrintExtension(tail))
  {
    var rest := " " + PrintExtension(tail);
    PrintStartsWithKey(u, tail);
    var more: string :| PrintExtension(tail) == tail[0].0 + "=" + more;
    assert IsKey(u, tail[0].0) && rest == " " + (tail[0].0 + "=" + more);
    MatchField(u, k, v, rest);
    SkipTail(u, v, PrintExtension(tail));
  }

  lemma {:induction false} PrintedExtensionMatches(u: Classes, fields: seq<(string, string)>)
    requires Sound(u) && Printable(u, fields)
    requires fields != [] ==> RStrip(u, fields[|fields| - 1].1) == fields[|fields| - 1].1
    ensures Matches(u, PrintExtension(fields)) == MatchesFor(u, fields)
  {
    if fields != [] {
      var k, v, tail := fields[0].0, fields[0].1, fields[1..];
      assert IsKey(u, k);
      if |fields| == 1 {
        assert PrintExtension(fields) == k + "=" + Escape(v) + "";
        MatchField(u, k, v, "");
        assert v[|v|..] + "" == "";
      } else {
        PrintedExtensionMatches(u, tail);
        assert IsKey(u, tail[0].0);
        MatchFieldThenMore(u, k, v, tail);
        assert PrintExtension(fields) == k + "=" + Escape(v) + (" " + PrintExtension(tail));
      }
    }
  }

  lemma PrintStartsWithKey(u: Classes, fields: seq<(string, string)>)
    requires fields != []
    ensures exists more: string :: PrintExtension(fields) == fields[0].0 + "=" + more
  {
    if |fields| == 1 {
      assert PrintExtension(fields) == fields[0].0 + "=" + Escape(fields[0].1);
    } else {
      assert PrintExtension(fields) == fields[0].0 + "=" + (Escape(fields[0].1) + " " + PrintExtension(fields[1..]));
    }
  }
}
