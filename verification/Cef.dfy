/** The CEF line parser (`_parse_cef` in ingestion/normalizers.py) against a CEF printer.

    The extension pattern is (\w+)=((?:\\.|[^\\=])*?)(?=\s+\w+=|$), scanned with `finditer`. None of its
    parts looks back, so matching is defined on the text that remains. `\w` and `\s` are Unicode
    tables; `Classes` leaves them open and `Sound` states the few facts that are used. */
module Cef {
  import opened Wrappers
  import opened Strings

  datatype Classes = Classes(word: char -> bool, space: char -> bool)

  ghost predicate Sound(u: Classes) {
    && (forall c :: !(u.word(c) && u.space(c)))
    && !u.word('=') && !u.word('\\') && !u.word('|')
    && !u.space('=') && !u.space('\\') && !u.space('|')
    && u.space(' ') && u.space('\n')
  }

  // ----- the extension pattern

  /** Length of the longest run of characters of a class at the start of `s`. */
  function Run(p: char -> bool, s: string): (n: nat)
    ensures n <= |s| && (forall i :: 0 <= i < n ==> p(s[i])) && (n < |s| ==> !p(s[n]))
  {
    if s != [] && p(s[0]) then 1 + Run(p, s[1..]) else 0
  }

  /** `\w+=` matches here. */
  predicate WordEquals(u: Classes, s: string) {
    var n := Run(u.word, s);
    0 < n < |s| && s[n] == '='
  }

  /** The lookahead `\s+\w+=|$`; `$` also matches before a final newline. */
  predicate AtBoundary(u: Classes, s: string) {
    s == [] || s == "\n" || (u.space(s[0]) && WordEquals(u, s[Run(u.space, s)..]))
  }

  /** Length of the shortest value: tokens `\x` (x not a newline) and single characters other than
      backslash and `=`, up to the first boundary. */
  function ValueLength(u: Classes, s: string): (r: Option<nat>)
    ensures r.Some? ==> r.value <= |s|
  {
    if AtBoundary(u, s) then Some(0)
    else if s[0] == '\\' then
      if |s| >= 2 && s[1] != '\n' then Plus(2, ValueLength(u, s[2..])) else None
    else if s[0] == '=' then None
    else Plus(1, ValueLength(u, s[1..]))
  }

  function Plus(n: nat, r: Option<nat>): Option<nat> {
    if r == None then None else Some(n + r.value)
  }

  /** One match at the start of `s`: key length and value length. */
  function TryMatch(u: Classes, s: string): (r: Option<(nat, nat)>)
    ensures r.Some? ==> 0 < r.value.0 && r.value.0 + 1 + r.value.1 <= |s|
  {
    if !WordEquals(u, s) then None
    else
      var k := Run(u.word, s);
      match ValueLength(u, s[k + 1..])
      case None => None
      case Some(v) => Some((k, v))
  }

  /** What `finditer` yields: key and raw value of each match, left to right. */
  function Matches(u: Classes, s: string): seq<(string, string)>
    decreases |s|
  {
    if s == [] then []
    else
      match TryMatch(u, s)
      case None => Matches(u, s[1..])
      case Some((k, v)) => [(s[..k], s[k + 1..k + 1 + v])] + Matches(u, s[k + 1 + v..])
  }

  // ----- unescaping

  /** `str.replace` of the two-character text `ab` by the character `r`. */
  function Replace(s: string, a: char, b: char, r: char): string {
    if |s| < 2 then s
    else if s[0] == a && s[1] == b then [r] + Replace(s[2..], a, b, r)
    else [s[0]] + Replace(s[1..], a, b, r)
  }

  /** `.replace("\\=", "=").replace("\\\\", "\\")`. */
  function Unescape(v: string): string {
    Replace(Replace(v, '\\', '=', '='), '\\', '\\', '\\')
  }

  /** One left-to-right pass: a backslash before `=` or a backslash is dropped, any other is kept. */
  function UnescapeOnce(v: string): string {
    if v == [] then []
    else if v[0] == '\\' && |v| >= 2 && (v[1] == '=' || v[1] == '\\') then [v[1]] + UnescapeOnce(v[2..])
    else [v[0]] + UnescapeOnce(v[1..])
  }

  /** The values the pattern can capture. */
  predicate Accepted(v: string) {
    if v == [] then true
    else if v[0] == '\\' then |v| >= 2 && v[1] != '\n' && Accepted(v[2..])
    else v[0] != '=' && Accepted(v[1..])
  }

  lemma ReplaceSkips(c: char, s: string, a: char, b: char, r: char)
    requires c != a || s == [] || s[0] != b
    ensures Replace([c] + s, a, b, r) == [c] + Replace(s, a, b, r)
  {
    assert ([c] + s)[1..] == s;
  }

  lemma ReplaceHits(s: string, a: char, b: char, r: char)
    ensures Replace([a, b] + s, a, b, r) == [r] + Replace(s, a, b, r)
  {
    assert ([a, b] + s)[2..] == s;
  }

  /** On every value the pattern captures, the two successive replaces are one left-to-right unescape. */
  lemma {:induction false} TwoPassesAreOne(v: string)
    requires Accepted(v)
    ensures Unescape(v) == UnescapeOnce(v)
  {
    if v == [] {
    } else if v[0] == '\\' {
      var c, rest := v[1], v[2..];
      TwoPassesAreOne(rest);
      assert v == ['\\', c] + rest && v == ['\\'] + ([c] + rest);
      var first := Replace(rest, '\\', '=', '=');
      if c == '=' {
        ReplaceHits(rest, '\\', '=', '=');
        ReplaceSkips('=', first, '\\', '\\', '\\');
      } else {
        ReplaceSkips('\\', [c] + rest, '\\', '=', '=');
        ReplaceSkips(c, rest, '\\', '=', '=');
        assert Replace(v, '\\', '=', '=') == ['\\', c] + first == ['\\'] + ([c] + first);
        if c == '\\' {
          ReplaceHits(first, '\\', '\\', '\\');
        } else {
          ReplaceSkips('\\', [c] + first, '\\', '\\', '\\');
          ReplaceSkips(c, first, '\\', '\\', '\\');
          OnceSkips(c, rest);
        }
      }
    } else {
      var c, rest := v[0], v[1..];
      TwoPassesAreOne(rest);
      assert v == [c] + rest;
      ReplaceSkips(c, rest, '\\', '=', '=');
      ReplaceSkips(c, Replace(rest, '\\', '=', '='), '\\', '\\', '\\');
    }
  }

  lemma OnceSkips(c: char, rest: string)
    requires c != '=' && c != '\\'
    ensures UnescapeOnce(['\\', c] + rest) == ['\\', c] + UnescapeOnce(rest)
  {
    var v := ['\\', c] + rest;
    assert v[1..] == [c] + rest && ([c] + rest)[1..] == rest;
  }

  /** What the pattern captures is accepted. */
  lemma {:induction false} CapturedIsAccepted(u: Classes, s: string)
    requires ValueLength(u, s).Some?
    ensures Accepted(s[..ValueLength(u, s).value])
  {
    var n := ValueLength(u, s).value;
    if !AtBoundary(u, s) {
      if s[0] == '\\' {
        CapturedIsAccepted(u, s[2..]);
        assert s[..n][2..] == s[2..][..n - 2];
      } else {
        CapturedIsAccepted(u, s[1..]);
        assert s[..n][1..] == s[1..][..n - 1];
      }
    }
  }

  // ----- the parser

  function Split(s: string, c: char): (parts: seq<string>)
    ensures parts != [] && forall i :: 0 <= i < |parts| ==> Lacks(parts[i], c)
  {
    if s == [] then [""]
    else
      var rest := Split(s[1..], c);
      if s[0] == c then [""] + rest else [[s[0]] + rest[0]] + rest[1..]
  }

  /** `raw[raw.index(pat):]`, or None when `pat` does not occur. */
  function From(s: string, pat: string): (r: Option<string>) {
    if pat <= s then Some(s)
    else if s == [] then None
    else From(s[1..], pat)
  }

  datatype Header = Header(version: string, vendor: string, product: string, deviceVersion: string,
                           signatureId: string, name: string, severity: string)

  function HeaderFields(h: Header): map<string, string> {
    map["vendor" := h.vendor, "product" := h.product, "device_version" := h.deviceVersion,
        "signature_id" := h.signatureId, "name" := h.name, "severity" := h.severity]
  }

  function Store(fields: map<string, string>, matches: seq<(string, string)>): map<string, string>
    decreases |matches|
  {
    if matches == [] then fields
    else Store(fields[matches[0].0 := Unescape(matches[0].1)], matches[1..])
  }

  function Parsed(u: Classes, raw: string): Option<map<string, string>> {
    match From(raw, "CEF:")
    case None => None
    case Some(line) =>
      var parts := Split(line, '|');
      if |parts| < 8 then None
      else
        var h := Header(parts[0], parts[1], parts[2], parts[3], parts[4], parts[5], parts[6]);
        Some(Store(HeaderFields(h), Matches(u, Strip(parts[7], u.space))))
  }

  method ParseCef(u: Classes, raw: string) returns (r: Option<map<string, string>>)
    ensures r == Parsed(u, raw)
  {
    var line := From(raw, "CEF:");
    if line == None {
      return None;
    }
    var parts := Split(line.value, '|');
    if |parts| < 8 {
      return None;
    }
    var fields := HeaderFields(Header(parts[0], parts[1], parts[2], parts[3], parts[4], parts[5], parts[6]));
    ghost var header := fields;
    ghost var extension := Strip(parts[7], u.space);
    var rest := Strip(parts[7], u.space);
    while rest != []
      invariant Store(fields, Matches(u, rest)) == Store(header, Matches(u, extension))
      decreases |rest|
    {
      match TryMatch(u, rest) {
        case None =>
          rest := rest[1..];
        case Some((k, v)) =>
          var found := (rest[..k], rest[k + 1..k + 1 + v]);
          assert Matches(u, rest)[0] == found && Matches(u, rest)[1..] == Matches(u, rest[k + 1 + v..]);
          fields := fields[found.0 := Unescape(found.1)];
          rest := rest[k + 1 + v..];
      }
    }
    return Some(fields);
  }

  // ----- the printer

  /** The ArcSight CEF Implementation Standard, section "Character Encoding": in extension values a
      backslash and an equals sign are escaped with a backslash. */
  function Escape(v: string): string {
    if v == [] then []
    else (if v[0] == '\\' || v[0] == '=' then ['\\', v[0]] else [v[0]]) + Escape(v[1..])
  }

  function PrintField(f: (string, string)): string {
    f.0 + "=" + Escape(f.1)
  }

  function PrintExtension(fields: seq<(string, string)>): string {
    if fields == [] then ""
    else if |fields| == 1 then PrintField(fields[0])
    else PrintField(fields[0]) + " " + PrintExtension(fields[1..])
  }

  function PrintCef(h: Header, fields: seq<(string, string)>): string {
    Piped(HeaderParts(h), PrintExtension(fields))
  }

  function HeaderParts(h: Header): seq<string> {
    ["CEF:" + h.version, h.vendor, h.product, h.deviceVersion, h.signatureId, h.name, h.severity]
  }

  /** Each part followed by a pipe, then the last text. */
  function Piped(parts: seq<string>, last: string): string {
    if parts == [] then last else parts[0] + "|" + Piped(parts[1..], last)
  }

  predicate IsKey(u: Classes, k: string) {
    k != [] && Run(u.word, k) == |k|
  }

  function RStrip(u: Classes, v: string): string {
    StripRight(v, u.space)
  }

  // ----- escaping

  lemma {:induction false} EscapeThenUnescape(v: string)
    ensures Accepted(Escape(v)) && UnescapeOnce(Escape(v)) == v
  {
    if v != [] {
      EscapeThenUnescape(v[1..]);
      var e := Escape(v);
      if v[0] == '\\' || v[0] == '=' {
        assert e[2..] == Escape(v[1..]);
      } else {
        assert e[1..] == Escape(v[1..]);
      }
    }
  }

  lemma {:induction false} EscapeConcat(a: string, b: string)
    ensures Escape(a + b) == Escape(a) + Escape(b)
  {
    if a == [] {
      assert a + b == b;
    } else {
      assert (a + b)[1..] == a[1..] + b;
      EscapeConcat(a[1..], b);
    }
  }

  predicate AllSpace(u: Classes, v: string) {
    forall i :: 0 <= i < |v| ==> u.space(v[i])
  }

  lemma {:induction false} EscapeSpaces(u: Classes, v: string)
    requires Sound(u) && AllSpace(u, v)
    ensures Escape(v) == v
  {
    if v != [] {
      EscapeSpaces(u, v[1..]);
      assert v == [v[0]] + v[1..];
    }
  }

  /** A value is what is kept of it plus trailing whitespace. */
  lemma {:induction false} RStripSplits(u: Classes, v: string)
    ensures var r := RStrip(u, v); r <= v && AllSpace(u, v[|r|..])
  {
    if v != [] && u.space(v[|v| - 1]) {
      RStripSplits(u, v[..|v| - 1]);
    }
  }

  lemma {:induction false} RStripUnique(u: Classes, a: string, w: string)
    requires AllSpace(u, w) && (a != [] ==> !u.space(a[|a| - 1]))
    ensures RStrip(u, a + w) == a
  {
    if w == [] {
      assert a + w == a;
    } else {
      assert (a + w)[..|a + w| - 1] == a + w[..|w| - 1];
      RStripUnique(u, a, w[..|w| - 1]);
    }
  }
}
