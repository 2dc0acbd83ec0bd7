/** A whole CEF line, printed and parsed (`_parse_cef` in ingestion/normalizers.py). */
module CefRoundTrip {
  import opened Wrappers
  import opened Strings
  import opened Cef
  import opened CefExtension

  // ----- a whole printed line

  lemma {:induction false} SplitHead(a: string, rest: string, c: char)
    requires Lacks(a, c)
    ensures Split(a + [c] + rest, c) == [a] + Split(rest, c)
  {
    var s := a + [c] + rest;
    if a == [] {
      assert s == [c] + rest && s[1..] == rest;
    } else {
      assert s[1..] == a[1..] + [c] + rest;
      SplitHead(a[1..], rest, c);
      assert [s[0]] + a[1..] == a;
    }
  }

  /** Everything up to the first separator. */
  function Cut(s: string, c: char): (r: string)
    ensures r <= s && Lacks(r, c)
  {
    if s == [] || s[0] == c then [] else [s[0]] + Cut(s[1..], c)
  }

  lemma {:induction false} SplitFirst(s: string, c: char)
    ensures Split(s, c)[0] == Cut(s, c)
  {
    if s != [] {
      SplitFirst(s[1..], c);
    }
  }

  lemma {:induction false} CutNothing(s: string, c: char)
    requires Lacks(s, c)
    ensures Cut(s, c) == s
  {
    if s != [] {
      CutNothing(s[1..], c);
      assert s == [s[0]] + s[1..];
    }
  }

  ghost predicate PlainHeader(h: Header) {
    forall part :: part in HeaderParts(h) ==> Lacks(part, '|')
  }

  lemma {:induction false} SplitPiped(parts: seq<string>, last: string)
    requires forall part :: part in parts ==> Lacks(part, '|')
    ensures Split(Piped(parts, last), '|') == parts + Split(last, '|')
  {
    if parts != [] {
      SplitPiped(parts[1..], last);
      SplitHead(parts[0], Piped(parts[1..], last), '|');
    } else {
      assert parts + Split(last, '|') == Split(last, '|');
    }
  }

  /** `pat` starts nowhere inside `prefix`, even if it ends beyond it. */
  ghost predicate FirstAt(prefix: string, pat: string, rest: string) {
    forall i :: 0 <= i < |prefix| ==> !(pat <= (prefix + rest)[i..])
  }

  lemma {:induction false} FromPrefix(prefix: string, pat: string, rest: string)
    requires FirstAt(prefix, pat, rest) && pat <= rest
    ensures From(prefix + rest, pat) == Some(rest)
  {
    if prefix == [] {
      assert prefix + rest == rest;
    } else {
      var s := prefix + rest;
      assert s[0..] == s;
      assert s[1..] == prefix[1..] + rest;
      forall i | 0 <= i < |prefix[1..]|
        ensures !(pat <= (prefix[1..] + rest)[i..])
      {
        assert (prefix[1..] + rest)[i..] == s[i + 1..];
      }
      FromPrefix(prefix[1..], pat, rest);
    }
  }

  lemma SplitLine(h: Header, fields: seq<(string, string)>)
    requires PlainHeader(h)
    ensures var parts := Split(PrintCef(h, fields), '|');
      && |parts| >= 8 && parts[..7] == HeaderParts(h) && parts[7] == Cut(PrintExtension(fields), '|')
  {
    SplitPiped(HeaderParts(h), PrintExtension(fields));
    SplitFirst(PrintExtension(fields), '|');
  }

  lemma StartsWithCef(h: Header, fields: seq<(string, string)>)
    ensures "CEF:" <= PrintCef(h, fields)
  {
    var line := PrintCef(h, fields);
    assert HeaderParts(h)[0] <= line;
    assert "CEF:" <= HeaderParts(h)[0];
  }

  /** Parsing a printed line is parsing the extension up to its first pipe. */
  lemma ParsedLine(u: Classes, prefix: string, h: Header, fields: seq<(string, string)>)
    requires PlainHeader(h) && FirstAt(prefix, "CEF:", PrintCef(h, fields))
    ensures Parsed(u, prefix + PrintCef(h, fields)) ==
      Some(Store(HeaderFields(h), Matches(u, Strip(Cut(PrintExtension(fields), '|'), u.space))))
  {
    var line := PrintCef(h, fields);
    StartsWithCef(h, fields);
    FromPrefix(prefix, "CEF:", line);
    SplitLine(h, fields);
    var parts := Split(line, '|');
    assert forall i :: 0 <= i < 7 ==> parts[i] == parts[..7][i] == HeaderParts(h)[i];
  }

  ghost predicate PipeFree(fields: seq<(string, string)>) {
    forall f :: f in fields ==> Lacks(f.1, '|')
  }

  lemma {:induction false} EscapeLacks(v: string)
    requires Lacks(v, '|')
    ensures Lacks(Escape(v), '|')
  {
    if v != [] {
      EscapeLacks(v[1..]);
    }
  }

  lemma {:induction false} ExtensionLacks(u: Classes, fields: seq<(string, string)>)
    requires Sound(u) && Printable(u, fields) && PipeFree(fields)
    ensures Lacks(PrintExtension(fields), '|')
  {
    if fields != [] {
      assert IsKey(u, fields[0].0);
      EscapeLacks(fields[0].1);
      assert Lacks(PrintField(fields[0]), '|');
      if |fields| > 1 {
        ExtensionLacks(u, fields[1..]);
      }
    }
  }

  /** The printed extension up to and including the last equals sign. */
  function Lead(fields: seq<(string, string)>): string
    requires fields != []
  {
    if |fields| == 1 then fields[0].0 + "=" else PrintField(fields[0]) + " " + Lead(fields[1..])
  }

  lemma {:induction false} LeadThenLast(fields: seq<(string, string)>)
    requires fields != []
    ensures PrintExtension(fields) == Lead(fields) + Escape(fields[|fields| - 1].1)
    ensures Lead(fields) != [] && Lead(fields)[|Lead(fields)| - 1] == '='
    ensures fields[0].0 != [] ==> Lead(fields)[0] == fields[0].0[0]
  {
    if |fields| > 1 {
      LeadThenLast(fields[1..]);
      Associate(PrintField(fields[0]) + " ", Lead(fields[1..]), Escape(fields[|fields| - 1].1));
    }
  }

  function LastStripped(u: Classes, fields: seq<(string, string)>): seq<(string, string)>
    requires fields != []
  {
    var n := |fields| - 1;
    fields[..n] + [(fields[n].0, RStrip(u, fields[n].1))]
  }

  lemma {:induction false} LeadIgnoresLastValue(u: Classes, fields: seq<(string, string)>)
    requires fields != []
    ensures Lead(LastStripped(u, fields)) == Lead(fields)
  {
    if |fields| > 1 {
      LeadIgnoresLastValue(u, fields[1..]);
      assert LastStripped(u, fields)[1..] == LastStripped(u, fields[1..]);
    }
  }

  lemma {:induction false} EscapeKeepsLast(v: string)
    requires v != []
    ensures Escape(v) != [] && Escape(v)[|Escape(v)| - 1] == v[|v| - 1]
  {
    if |v| > 1 {
      EscapeKeepsLast(v[1..]);
    }
  }

  /** `extension.strip()` removes the trailing whitespace of the last value and nothing else. */
  lemma StripExtension(u: Classes, fields: seq<(string, string)>)
    requires Sound(u) && Printable(u, fields) && fields != []
    ensures Strip(PrintExtension(fields), u.space) == PrintExtension(LastStripped(u, fields))
  {
    var v := fields[|fields| - 1].1;
    var kept := RStrip(u, v);
    LeadThenLast(fields);
    LeadThenLast(LastStripped(u, fields));
    LeadIgnoresLastValue(u, fields);
    EscapedTail(u, v);
    var a := Lead(fields) + Escape(kept);
    Associate(Lead(fields), Escape(kept), v[|kept|..]);
    assert PrintExtension(fields) == a + v[|kept|..];
    assert !u.space(a[|a| - 1]) by {
      if kept != [] {
        EscapeKeepsLast(kept);
      }
    }
    RStripUnique(u, a, v[|kept|..]);
    assert IsKey(u, fields[0].0);
    assert u.word(PrintExtension(fields)[0]);
  }

  lemma {:induction false} MatchesForLastStripped(u: Classes, fields: seq<(string, string)>)
    requires fields != []
    ensures MatchesFor(u, LastStripped(u, fields)) == MatchesFor(u, fields)
  {
    if |fields| > 1 {
      MatchesForLastStripped(u, fields[1..]);
      assert LastStripped(u, fields)[1..] == LastStripped(u, fields[1..]);
    } else {
      assert LastStripped(u, fields)[1..] == [] && fields[1..] == [];
    }
  }

  /** The dict a caller hopes for: each key set to its value, later fields winning. */
  function StoreAll(m: map<string, string>, fields: seq<(string, string)>): map<string, string> {
    if fields == [] then m else StoreAll(m, fields[..|fields| - 1])[fields[|fields| - 1].0 := fields[|fields| - 1].1]
  }

  function Stripped(u: Classes, fields: seq<(string, string)>): (r: seq<(string, string)>)
    ensures |r| == |fields|
    ensures forall i :: 0 <= i < |r| ==> r[i] == (fields[i].0, RStrip(u, fields[i].1))
  {
    seq(|fields|, i requires 0 <= i < |fields| => (fields[i].0, RStrip(u, fields[i].1)))
  }

  lemma {:induction false} StoreSnoc(m: map<string, string>, ms: seq<(string, string)>, last: (string, string))
    ensures Store(m, ms + [last]) == Store(m, ms)[last.0 := Unescape(last.1)]
    decreases |ms|
  {
    if ms == [] {
      assert (ms + [last])[1..] == [];
    } else {
      assert (ms + [last])[1..] == ms[1..] + [last];
      StoreSnoc(m[ms[0].0 := Unescape(ms[0].1)], ms[1..], last);
    }
  }

  lemma {:induction false} MatchesForSnoc(u: Classes, fields: seq<(string, string)>, f: (string, string))
    ensures MatchesFor(u, fields + [f]) == MatchesFor(u, fields) + [(f.0, Escape(RStrip(u, f.1)))]
  {
    if fields == [] {
      assert (fields + [f])[1..] == [];
    } else {
      assert (fields + [f])[1..] == fields[1..] + [f];
      MatchesForSnoc(u, fields[1..], f);
    }
  }

  lemma {:induction false} StoreMatches(u: Classes, m: map<string, string>, fields: seq<(string, string)>)
    ensures Store(m, MatchesFor(u, fields)) == StoreAll(m, Stripped(u, fields))
  {
    if fields != [] {
      var n := |fields| - 1;
      assert fields == fields[..n] + [fields[n]];
      StoreMatches(u, m, fields[..n]);
      MatchesForSnoc(u, fields[..n], fields[n]);
      var x := RStrip(u, fields[n].1);
      StoreSnoc(m, MatchesFor(u, fields[..n]), (fields[n].0, Escape(x)));
      EscapeThenUnescape(x);
      TwoPassesAreOne(Escape(x));
      assert Stripped(u, fields)[..n] == Stripped(u, fields[..n]);
    }
  }

  /** Print, then parse: for pipe-free headers and values and word keys, every field comes back, less
      the trailing whitespace of its value. Repeated keys and keys that repeat a header name behave
      as in a dict. Any text without "CEF:" may precede the line. */
  lemma PrintThenParse(u: Classes, prefix: string, h: Header, fields: seq<(string, string)>)
    requires Sound(u) && PlainHeader(h) && Printable(u, fields) && PipeFree(fields)
    requires FirstAt(prefix, "CEF:", PrintCef(h, fields))
    ensures Parsed(u, prefix + PrintCef(h, fields)) == Some(StoreAll(HeaderFields(h), Stripped(u, fields)))
  {
    ParsedLine(u, prefix, h, fields);
    ExtensionLacks(u, fields);
    CutNothing(PrintExtension(fields), '|');
    StoreMatches(u, HeaderFields(h), fields);
    if fields != [] {
      var last := LastStripped(u, fields);
      StripExtension(u, fields);
      LastPrintable(u, fields);
      PrintedExtensionMatches(u, last);
      MatchesForLastStripped(u, fields);
    } else {
      assert Strip("", u.space) == "";
    }
  }

  lemma {:induction false} OtherKeysStay(m: map<string, string>, fields: seq<(string, string)>, k: string)
    requires k in m && forall f :: f in fields ==> f.0 != k
    ensures k in StoreAll(m, fields) && StoreAll(m, fields)[k] == m[k]
    decreases |fields|
  {
    if fields != [] {
      var n := |fields| - 1;
      assert fields[n] in fields;
      OtherKeysStay(m, fields[..n], k);
    }
  }

  /** The six header fields are reported under their names, unless the extension repeats the name. */
  lemma HeaderIsReported(u: Classes, prefix: string, h: Header, fields: seq<(string, string)>, k: string, v: string)
    requires Sound(u) && PlainHeader(h) && Printable(u, fields) && PipeFree(fields)
    requires FirstAt(prefix, "CEF:", PrintCef(h, fields))
    requires (k, v) in {("vendor", h.vendor), ("product", h.product), ("device_version", h.deviceVersion),
                        ("signature_id", h.signatureId), ("name", h.name), ("severity", h.severity)}
    requires forall f :: f in fields ==> f.0 != k
    ensures var r := Parsed(u, prefix + PrintCef(h, fields));
      r.Some? && k in r.value && r.value[k] == v
  {
    PrintThenParse(u, prefix, h, fields);
    HeaderFieldIs(h, k, v);
    StrippedKeys(u, fields, k);
    OtherKeysStay(HeaderFields(h), Stripped(u, fields), k);
  }

  lemma HeaderFieldIs(h: Header, k: string, v: string)
    requires (k, v) in {("vendor", h.vendor), ("product", h.product), ("device_version", h.deviceVersion),
                        ("signature_id", h.signatureId), ("name", h.name), ("severity", h.severity)}
    ensures k in HeaderFields(h) && HeaderFields(h)[k] == v
  {
  }

  lemma {:induction false} StrippedKeys(u: Classes, fields: seq<(string, string)>, k: string)
    requires forall f :: f in fields ==> f.0 != k
    ensures forall f :: f in Stripped(u, fields) ==> f.0 != k
  {
  }

  lemma LastPrintable(u: Classes, fields: seq<(string, string)>)
    requires Printable(u, fields) && fields != []
    ensures var last := LastStripped(u, fields);
      Printable(u, last) && RStrip(u, last[|last| - 1].1) == last[|last| - 1].1
  {
    var last := LastStripped(u, fields);
    assert forall f :: f in last ==> f in fields[..|fields| - 1] || f.0 == fields[|fields| - 1].0;
    RStripUnique(u, RStrip(u, fields[|fields| - 1].1), "");
    assert RStrip(u, fields[|fields| - 1].1) + "" == RStrip(u, fields[|fields| - 1].1);
  }

  // ----- exactly when the round trip is exact

  lemma {:induction false} ReplaceLacks(s: string, a: char, b: char, r: char)
    requires Lacks(s, '|') && r != '|'
    ensures Lacks(Replace(s, a, b, r), '|')
  {
    if |s| >= 2 {
      if s[0] == a && s[1] == b {
        ReplaceLacks(s[2..], a, b, r);
      } else {
        ReplaceLacks(s[1..], a, b, r);
      }
    }
  }

  lemma {:induction false} MatchesLack(u: Classes, s: string)
    requires Lacks(s, '|')
    ensures forall m :: m in Matches(u, s) ==> Lacks(m.1, '|')
    decreases |s|
  {
    if s != [] {
      match TryMatch(u, s)
      case None =>
        MatchesLack(u, s[1..]);
      case Some((k, v)) =>
        MatchesLack(u, s[k + 1 + v..]);
        assert Lacks(s[k + 1..k + 1 + v], '|');
    }
  }

  lemma {:induction false} StoreLacks(m: map<string, string>, ms: seq<(string, string)>)
    requires (forall k :: k in m ==> Lacks(m[k], '|')) && (forall x :: x in ms ==> Lacks(x.1, '|'))
    ensures forall k :: k in Store(m, ms) ==> Lacks(Store(m, ms)[k], '|')
    decreases |ms|
  {
    if ms != [] {
      assert ms[0] in ms;
      ReplaceLacks(ms[0].1, '\\', '=', '=');
      ReplaceLacks(Replace(ms[0].1, '\\', '=', '='), '\\', '\\', '\\');
      StoreLacks(m[ms[0].0 := Unescape(ms[0].1)], ms[1..]);
    }
  }

  ghost predicate ValuesLackPipe(m: map<string, string>) {
    forall k :: k in m ==> Lacks(m[k], '|')
  }

  /** Whatever the line, no parsed value holds a pipe. */
  lemma ParsedValuesLackPipe(u: Classes, raw: string)
    ensures Parsed(u, raw).Some? ==> ValuesLackPipe(Parsed(u, raw).value)
  {
    if Parsed(u, raw).Some? {
      var parts := Split(From(raw, "CEF:").value, '|');
      var h := Header(parts[0], parts[1], parts[2], parts[3], parts[4], parts[5], parts[6]);
      HeaderLacksPipe(h);
      ExtensionLacksPipe(u, parts[7]);
      StoreLacks(HeaderFields(h), Matches(u, Strip(parts[7], u.space)));
    }
  }

  lemma HeaderLacksPipe(h: Header)
    requires Lacks(h.vendor, '|') && Lacks(h.product, '|') && Lacks(h.deviceVersion, '|')
    requires Lacks(h.signatureId, '|') && Lacks(h.name, '|') && Lacks(h.severity, '|')
    ensures forall k :: k in HeaderFields(h) ==> Lacks(HeaderFields(h)[k], '|')
  {
  }

  lemma ExtensionLacksPipe(u: Classes, part: string)
    requires Lacks(part, '|')
    ensures forall m :: m in Matches(u, Strip(part, u.space)) ==> Lacks(m.1, '|')
  {
    StripKeeps(part, u.space);
    var extension := Strip(part, u.space);
    assert forall i :: 0 <= i < |extension| ==> extension[i] in part;
    MatchesLack(u, extension);
  }

  ghost predicate DistinctKeys(fields: seq<(string, string)>) {
    forall i, j :: 0 <= i < j < |fields| ==> fields[i].0 != fields[j].0
  }

  lemma {:induction false} StoreAllLookup(m: map<string, string>, fields: seq<(string, string)>, i: nat)
    requires DistinctKeys(fields) && i < |fields|
    ensures fields[i].0 in StoreAll(m, fields) && StoreAll(m, fields)[fields[i].0] == fields[i].1
  {
    if i < |fields| - 1 {
      StoreAllLookup(m, fields[..|fields| - 1], i);
    }
  }

  /** The values a caller can check before printing. */
  ghost predicate CleanValues(u: Classes, fields: seq<(string, string)>) {
    forall f :: f in fields ==> Lacks(f.1, '|') && (f.1 != [] ==> !u.space(f.1[|f.1| - 1]))
  }

  /** For distinct word keys, the round trip returns the very same fields if and only if no value holds
      a pipe or ends in whitespace. */
  lemma RoundTripExactly(u: Classes, prefix: string, h: Header, fields: seq<(string, string)>)
    requires Sound(u) && PlainHeader(h) && Printable(u, fields) && DistinctKeys(fields)
    requires FirstAt(prefix, "CEF:", PrintCef(h, fields))
    ensures Parsed(u, prefix + PrintCef(h, fields)) == Some(StoreAll(HeaderFields(h), fields)) <==> CleanValues(u, fields)
  {
    var raw := prefix + PrintCef(h, fields);
    var ideal := StoreAll(HeaderFields(h), fields);
    if CleanValues(u, fields) {
      PrintThenParse(u, prefix, h, fields);
      assert Stripped(u, fields) == fields;
    }
    if Parsed(u, raw) == Some(ideal) {
      ParsedValuesLackPipe(u, raw);
      forall f | f in fields
        ensures Lacks(f.1, '|')
      {
        var i :| 0 <= i < |fields| && fields[i] == f;
        StoreAllLookup(HeaderFields(h), fields, i);
      }
      PrintThenParse(u, prefix, h, fields);
      forall f | f in fields
        ensures f.1 != [] ==> !u.space(f.1[|f.1| - 1])
      {
        var i :| 0 <= i < |fields| && fields[i] == f;
        StoreAllLookup(HeaderFields(h), fields, i);
        StoreAllLookup(HeaderFields(h), Stripped(u, fields), i);
        assert RStrip(u, f.1) == f.1;
      }
    }
  }
}
