/** Server-sent events: the framing written by api.py and the incremental reader of static/app.js.

    `dump` and `parse` stand for json.dumps and JSON.parse, `space` for what `trim()` removes. The
    decoder is the identity: json.dumps emits ASCII. */
module Sse {
  import opened Wrappers
  import opened Strings

  // ----- the writer

  datatype Frame<E> = Event(event: E) | Heartbeat

  function Body<E>(dump: E -> string, f: Frame<E>): string {
    match f
    case Event(e) => "data: " + dump(e)
    case Heartbeat => ": heartbeat"
  }

  function Encode<E>(dump: E -> string, f: Frame<E>): string {
    Body(dump, f) + "\n\n"
  }

  function EncodeAll<E>(dump: E -> string, fs: seq<Frame<E>>): string {
    if fs == [] then "" else Encode(dump, fs[0]) + EncodeAll(dump, fs[1..])
  }

  function Events<E>(fs: seq<Frame<E>>): seq<E> {
    if fs == [] then []
    else (if fs[0].Event? then [fs[0].event] else []) + Events(fs[1..])
  }

  // ----- the reader

  predicate BlankAt(s: string, i: nat) {
    i + 2 <= |s| && s[i] == '\n' && s[i + 1] == '\n'
  }

  /** The first blank line at or after `i`. */
  function FindBlank(s: string, i: nat): (r: Option<nat>)
    ensures r.Some? ==> i <= r.value && BlankAt(s, r.value)
    ensures forall j: nat :: i <= j && (r.Some? ==> j < r.value) ==> !BlankAt(s, j)
    decreases |s| - i
  {
    if i + 2 > |s| then None
    else if BlankAt(s, i) then Some(i)
    else FindBlank(s, i + 1)
  }

  /** `buffer.indexOf("\n\n")`. */
  function BlankLine(s: string): (r: Option<nat>)
    ensures r.Some? ==> BlankAt(s, r.value)
    ensures forall j: nat :: (r.Some? ==> j < r.value) ==> !BlankAt(s, j)
  {
    FindBlank(s, 0)
  }

  /** The text before each blank line, and what is left in the buffer. */
  function Raw(s: string): seq<string>
    decreases |s|
  {
    match BlankLine(s)
    case None => []
    case Some(i) => [s[..i]] + Raw(s[i + 2..])
  }

  function Rest(s: string): string
    decreases |s|
  {
    match BlankLine(s)
    case None => s
    case Some(i) => Rest(s[i + 2..])
  }

  /** What one raw event delivers: comments and unparseable data are dropped. */
  function Delivered<E>(space: char -> bool, parse: string -> Option<E>, raw: string): seq<E> {
    var text := Strip(raw, space);
    if "data: " <= text then
      match parse(text[6..])
      case None => []
      case Some(e) => [e]
    else []
  }

  function DeliveredAll<E>(space: char -> bool, parse: string -> Option<E>, raws: seq<string>): seq<E> {
    if raws == [] then [] else Delivered(space, parse, raws[0]) + DeliveredAll(space, parse, raws[1..])
  }

  class Reader<E> {
    const space: char -> bool
    const parse: string -> Option<E>
    var buffer: string
    var delivered: seq<E>

    constructor (space: char -> bool, parse: string -> Option<E>)
      ensures this.space == space && this.parse == parse && buffer == "" && delivered == []
    {
      this.space := space;
      this.parse := parse;
      buffer := "";
      delivered := [];
    }

    method OnRawEvent(raw: string)
      modifies `delivered
      ensures delivered == old(delivered) + Delivered(space, parse, raw)
    {
      var rawEvent := Strip(raw, space);
      if "data: " <= rawEvent {
        match parse(rawEvent[6..]) {
          case None =>
          case Some(e) =>
            delivered := delivered + [e];
        }
      }
    }

    /** What draining `text` would deliver. */
    function Pending(text: string): seq<E> {
      DeliveredAll(space, parse, Raw(text))
    }

    /** The body of the inner loop: cut the first event off the buffer and hand it on. */
    method TakeEvent(i: nat)
      requires BlankLine(buffer) == Some(i)
      modifies this
      ensures buffer == old(buffer)[i + 2..]
      ensures Rest(buffer) == Rest(old(buffer))
      ensures delivered + Pending(buffer) == old(delivered) + Pending(old(buffer))
    {
      var raw := buffer[..i];
      DeliverFirst(space, parse, buffer);
      buffer := buffer[i + 2..];
      OnRawEvent(raw);
      Reassociate(old(delivered), Delivered(space, parse, raw), Pending(buffer));
    }

    /** One turn of the read loop. */
    method Feed(chunk: string)
      modifies this
      ensures buffer == Rest(old(buffer) + chunk)
      ensures delivered == old(delivered) + Pending(old(buffer) + chunk)
    {
      buffer := buffer + chunk;
      ghost var text := buffer;
      var idx := BlankLine(buffer);
      while idx.Some?
        invariant idx == BlankLine(buffer)
        invariant Rest(buffer) == Rest(text)
        invariant delivered + Pending(buffer) == old(delivered) + Pending(text)
        decreases |buffer|
      {
        TakeEvent(idx.value);
        idx := BlankLine(buffer);
      }
      NothingPending(space, parse, buffer);
    }
  }

  lemma Reassociate<E>(a: seq<E>, b: seq<E>, c: seq<E>)
    ensures (a + b) + c == a + (b + c)
  {
  }

  lemma NothingPending<E>(space: char -> bool, parse: string -> Option<E>, s: string)
    requires BlankLine(s) == None
    ensures Rest(s) == s && DeliveredAll(space, parse, Raw(s)) == []
  {
  }

  lemma DrainOne(s: string)
    requires BlankLine(s).Some?
    ensures var i := BlankLine(s).value; Raw(s) == [s[..i]] + Raw(s[i + 2..]) && Rest(s) == Rest(s[i + 2..])
  {
  }

  lemma DeliverFirst<E>(space: char -> bool, parse: string -> Option<E>, s: string)
    requires BlankLine(s).Some?
    ensures var i := BlankLine(s).value;
      && Rest(s) == Rest(s[i + 2..])
      && DeliveredAll(space, parse, Raw(s)) == Delivered(space, parse, s[..i]) + DeliveredAll(space, parse, Raw(s[i + 2..]))
  {
    DrainOne(s);
    assert Raw(s)[1..] == Raw(s[BlankLine(s).value + 2..]);
  }

  // ----- chunking does not matter

  function Joined(chunks: seq<string>): string {
    if chunks == [] then "" else Joined(chunks[..|chunks| - 1]) + chunks[|chunks| - 1]
  }

  /** The buffer after feeding all chunks, and the raw events seen on the way. */
  function FedBuffer(chunks: seq<string>): string {
    if chunks == [] then "" else Rest(FedBuffer(chunks[..|chunks| - 1]) + chunks[|chunks| - 1])
  }

  function FedRaw(chunks: seq<string>): seq<string> {
    if chunks == [] then []
    else
      var n := |chunks| - 1;
      FedRaw(chunks[..n]) + Raw(FedBuffer(chunks[..n]) + chunks[n])
  }

  lemma BlankLineStays(b: string, c: string)
    requires BlankLine(b).Some?
    ensures BlankLine(b + c) == BlankLine(b)
  {
    var i := BlankLine(b).value;
    assert forall j: nat :: j <= i ==> (BlankAt(b + c, j) <==> BlankAt(b, j));
    assert BlankAt(b + c, i);
  }

  lemma DrainOneThen(b: string, c: string)
    requires BlankLine(b).Some?
    ensures var tail := b[BlankLine(b).value + 2..];
      && Raw(b + c) == [b[..BlankLine(b).value]] + Raw(tail + c)
      && Rest(b + c) == Rest(tail + c)
  {
    var i := BlankLine(b).value;
    BlankLineStays(b, c);
    assert (b + c)[..i] == b[..i] && (b + c)[i + 2..] == b[i + 2..] + c;
    DrainOne(b + c);
  }

  lemma {:induction false} RestIncrementally(b: string, c: string)
    ensures Rest(b + c) == Rest(Rest(b) + c)
    decreases |b|
  {
    if BlankLine(b).Some? {
      DrainOneThen(b, c);
      RestIncrementally(b[BlankLine(b).value + 2..], c);
    }
  }

  lemma {:induction false} RawIncrementally(b: string, c: string)
    ensures Raw(b + c) == Raw(b) + Raw(Rest(b) + c)
    decreases |b|
  {
    if BlankLine(b) == None {
      assert Raw(b) == [] && Rest(b) == b;
    } else {
      var x, tail := b[..BlankLine(b).value], b[BlankLine(b).value + 2..];
      DrainOneThen(b, c);
      RawIncrementally(tail, c);
      DrainOne(b);
      Regroup(x, Raw(tail), Raw(Rest(tail) + c));
    }
  }

  lemma Regroup(x: string, a: seq<string>, b: seq<string>)
    ensures [x] + (a + b) == ([x] + a) + b
  {
  }

  /** Draining early and draining late see the same events and leave the same buffer. */
  lemma DrainIncrementally(b: string, c: string)
    ensures Raw(b + c) == Raw(b) + Raw(Rest(b) + c)
    ensures Rest(b + c) == Rest(Rest(b) + c)
  {
    RawIncrementally(b, c);
    RestIncrementally(b, c);
  }

  /** For every text and every split of it into chunks, also inside a delimiter. */
  lemma {:induction false} ChunkingIsInvisible(chunks: seq<string>)
    ensures FedRaw(chunks) == Raw(Joined(chunks)) && FedBuffer(chunks) == Rest(Joined(chunks))
  {
    if chunks != [] {
      var n := |chunks| - 1;
      ChunkingIsInvisible(chunks[..n]);
      DrainIncrementally(Joined(chunks[..n]), chunks[n]);
    }
  }

  lemma {:induction false} DeliveredConcat<E>(space: char -> bool, parse: string -> Option<E>, a: seq<string>, b: seq<string>)
    ensures DeliveredAll(space, parse, a + b) == DeliveredAll(space, parse, a) + DeliveredAll(space, parse, b)
  {
    if a == [] {
      assert a + b == b;
    } else {
      assert (a + b)[1..] == a[1..] + b;
      DeliveredConcat(space, parse, a[1..], b);
    }
  }

  /** The whole read loop over a finite stream. */
  method ReadStream<E>(space: char -> bool, parse: string -> Option<E>, chunks: seq<string>)
      returns (delivered: seq<E>, buffer: string)
    ensures delivered == DeliveredAll(space, parse, Raw(Joined(chunks)))
    ensures buffer == Rest(Joined(chunks))
  {
    var reader := new Reader(space, parse);
    for i := 0 to |chunks|
      invariant fresh(reader) && reader.space == space && reader.parse == parse
      invariant reader.buffer == FedBuffer(chunks[..i])
      invariant reader.delivered == DeliveredAll(space, parse, FedRaw(chunks[..i]))
    {
      assert chunks[..i + 1][..i] == chunks[..i];
      DeliveredConcat(space, parse, FedRaw(chunks[..i]), Raw(FedBuffer(chunks[..i]) + chunks[i]));
      reader.Feed(chunks[i]);
    }
    assert chunks[..|chunks|] == chunks;
    ChunkingIsInvisible(chunks);
    delivered, buffer := reader.delivered, reader.buffer;
  }

  // ----- the server's output

  /** What is used of json.dumps on an event: one line, not ending in whitespace, read back by JSON.parse. */
  ghost predicate Wire<E(!new)>(space: char -> bool, dump: E -> string, parse: string -> Option<E>) {
    && !space('d') && !space(':') && !space('t')
    && forall e: E :: dump(e) != [] && Lacks(dump(e), '\n') && !space(dump(e)[|dump(e)| - 1]) && parse(dump(e)) == Some(e)
  }

  lemma BodyIsOneLine<E(!new)>(space: char -> bool, dump: E -> string, parse: string -> Option<E>, f: Frame<E>)
    requires Wire(space, dump, parse)
    ensures Lacks(Body(dump, f), '\n') && Body(dump, f) != []
    ensures Delivered(space, parse, Body(dump, f)) == Events([f])
  {
    var body := Body(dump, f);
    assert body[0] == (if f.Event? then 'd' else ':');
    assert body[|body| - 1] == if f.Event? then dump(f.event)[|dump(f.event)| - 1] else 't';
    assert Strip(body, space) == body;
    assert [f][1..] == [];
    if f.Event? {
      assert body[6..] == dump(f.event);
    }
  }

  lemma BlankLineAfterBody(body: string, more: string)
    requires Lacks(body, '\n')
    ensures BlankLine(body + "\n\n" + more) == Some(|body|)
  {
    var s := body + "\n\n" + more;
    assert BlankAt(s, |body|);
    assert forall i :: 0 <= i < |body| ==> s[i] == body[i];
    assert forall i: nat :: i < |body| ==> !BlankAt(s, i);
  }

  lemma NoBlankLineYet(body: string, p: string)
    requires Lacks(body, '\n') && p <= body + "\n\n" && |p| < |body| + 2
    ensures BlankLine(p) == None
  {
    var s := body + "\n\n";
    assert forall i :: 0 <= i < |p| ==> p[i] == s[i];
    assert forall i :: 0 <= i < |body| ==> s[i] == body[i];
    assert forall i :: 0 <= i < |p| - 1 ==> p[i] == body[i] != '\n';
  }

  /** How far a received prefix reaches: `k` whole frames and part of the next. */
  ghost predicate Reaches<E>(dump: E -> string, fs: seq<Frame<E>>, p: string, k: nat) {
    && k <= |fs|
    && EncodeAll(dump, fs[..k]) <= p
    && (k < |fs| ==> |p| < |EncodeAll(dump, fs[..k + 1])|)
  }

  lemma NothingYet<E(!new)>(space: char -> bool, dump: E -> string, parse: string -> Option<E>, fs: seq<Frame<E>>, p: string)
    requires Wire(space, dump, parse) && fs != [] && p <= EncodeAll(dump, fs) && |p| < |Encode(dump, fs[0])|
    ensures Reaches(dump, fs, p, 0) && Raw(p) == [] && Rest(p) == p
  {
    var body := Body(dump, fs[0]);
    BodyIsOneLine(space, dump, parse, fs[0]);
    FirstFrame(dump, fs);
    assert p == EncodeAll(dump, fs)[..|p|] == (body + "\n\n")[..|p|];
    NoBlankLineYet(body, p);
  }

  lemma BodyThenMore<E>(space: char -> bool, parse: string -> Option<E>, body: string, q: string)
    requires Lacks(body, '\n')
    ensures var p := body + "\n\n" + q;
      && Rest(p) == Rest(q)
      && DeliveredAll(space, parse, Raw(p)) == Delivered(space, parse, body) + DeliveredAll(space, parse, Raw(q))
  {
    var p := body + "\n\n" + q;
    BlankLineAfterBody(body, q);
    assert p[..|body|] == body && p[|body| + 2..] == q;
    DeliverFirst(space, parse, p);
  }

  lemma OneMore<E(!new)>(space: char -> bool, dump: E -> string, parse: string -> Option<E>, f: Frame<E>, q: string)
    requires Wire(space, dump, parse)
    ensures var p := Encode(dump, f) + q;
      && Rest(p) == Rest(q)
      && DeliveredAll(space, parse, Raw(p)) == Events([f]) + DeliveredAll(space, parse, Raw(q))
  {
    BodyIsOneLine(space, dump, parse, f);
    BodyThenMore(space, parse, Body(dump, f), q);
  }

  lemma PrefixSplits(a: string, b: string, p: string)
    requires p <= a + b && |p| >= |a|
    ensures p == a + p[|a|..] && p[|a|..] <= b
  {
    assert p == (a + b)[..|p|];
    assert p[|a|..] == b[..|p| - |a|];
  }

  lemma EventsUnfold<E>(fs: seq<Frame<E>>, k: nat)
    requires k < |fs|
    ensures Events(fs[..k + 1]) == Events([fs[0]]) + Events(fs[1..][..k])
  {
    assert fs[..k + 1][1..] == fs[1..][..k];
    assert [fs[0]][1..] == [];
  }

  /** At every moment, whatever prefix of the server's output has arrived in whatever chunks, the reader
      has delivered exactly the events of the frames that are complete, and holds the rest in its buffer. */
  lemma {:induction false} DeliversWhatArrived<E(!new)>(space: char -> bool, dump: E -> string, parse: string -> Option<E>,
                                                       fs: seq<Frame<E>>, p: string) returns (k: nat)
    requires Wire(space, dump, parse) && p <= EncodeAll(dump, fs)
    ensures Reaches(dump, fs, p, k)
    ensures DeliveredAll(space, parse, Raw(p)) == Events(fs[..k])
    ensures Rest(p) == p[|EncodeAll(dump, fs[..k])|..]
    decreases |fs|
  {
    if fs == [] {
      k := 0;
    } else if |p| < |Encode(dump, fs[0])| {
      k := 0;
      NothingYet(space, dump, parse, fs, p);
      FirstFrame(dump, fs);
    } else {
      var n := |Encode(dump, fs[0])|;
      var q := p[n..];
      PrefixSplits(Encode(dump, fs[0]), EncodeAll(dump, fs[1..]), p);
      var j := DeliversWhatArrived(space, dump, parse, fs[1..], q);
      k := j + 1;
      OneMore(space, dump, parse, fs[0], q);
      EventsUnfold(fs, j);
      LaterFrames(dump, fs, q, j);
      RestOfMore(Encode(dump, fs[0]), q, EncodeAll(dump, fs[1..][..j]));
    }
  }

  lemma FirstFrame<E>(dump: E -> string, fs: seq<Frame<E>>)
    requires fs != []
    ensures EncodeAll(dump, fs[..1]) == Encode(dump, fs[0]) && EncodeAll(dump, fs[..0]) == ""
  {
    assert fs[..1][1..] == [];
  }

  lemma RestOfMore(a: string, q: string, e: string)
    requires e <= q
    ensures (a + q)[|a + e|..] == q[|e|..]
  {
  }

  lemma LaterFrames<E>(dump: E -> string, fs: seq<Frame<E>>, q: string, j: nat)
    requires fs != [] && Reaches(dump, fs[1..], q, j)
    ensures Reaches(dump, fs, Encode(dump, fs[0]) + q, j + 1)
    ensures EncodeAll(dump, fs[..j + 1]) == Encode(dump, fs[0]) + EncodeAll(dump, fs[1..][..j])
  {
    assert fs[..j + 1][1..] == fs[1..][..j];
    if j + 1 < |fs| {
      assert fs[..j + 2][1..] == fs[1..][..j + 1];
    }
  }

  /** For every list of frames and every split of the server's output into chunks, the reader delivers
      exactly the events sent, in order, and ends with an empty buffer; heartbeats are invisible. */
  lemma EveryEventOnceInOrder<E(!new)>(space: char -> bool, dump: E -> string, parse: string -> Option<E>,
                                      fs: seq<Frame<E>>, chunks: seq<string>)
    requires Wire(space, dump, parse) && Joined(chunks) == EncodeAll(dump, fs)
    ensures DeliveredAll(space, parse, FedRaw(chunks)) == Events(fs) && FedBuffer(chunks) == ""
  {
    ChunkingIsInvisible(chunks);
    var k := DeliversWhatArrived(space, dump, parse, fs, Joined(chunks));
    if k < |fs| {
      EncodePrefix(dump, fs, k + 1);
    }
    assert fs[..k] == fs;
  }

  lemma {:induction false} EncodePrefix<E>(dump: E -> string, fs: seq<Frame<E>>, k: nat)
    requires k <= |fs|
    ensures |EncodeAll(dump, fs[..k])| <= |EncodeAll(dump, fs)|
  {
    if k > 0 {
      EncodePrefix(dump, fs[1..], k - 1);
      assert fs[..k][1..] == fs[1..][..k - 1];
    }
  }

  // ----- how a buffer is cut, whatever it holds

  predicate TwoNewlines(s: string, i: nat) {
    i + 2 <= |s| && s[i..i + 2] == "\n\n"
  }

  ghost predicate NoBlankLine(s: string) {
    forall i: nat :: !TwoNewlines(s, i)
  }

  /** The raw events, each followed by its blank line. */
  function Rejoined(raws: seq<string>): string {
    if raws == [] then "" else raws[0] + "\n\n" + Rejoined(raws[1..])
  }

  lemma BlankIsTwoNewlines(s: string, i: nat)
    ensures BlankAt(s, i) <==> TwoNewlines(s, i)
  {
  }

  lemma NoBlankBefore(s: string, i: nat)
    requires i <= |s| && forall j: nat :: j < i ==> !BlankAt(s, j)
    requires i == |s| || BlankAt(s, i)
    ensures NoBlankLine(if i == |s| then s else s[..i + 1])
  {
    var t := if i == |s| then s else s[..i + 1];
    forall j: nat
      ensures !TwoNewlines(t, j)
    {
      if j + 2 <= |t| {
        BlankIsTwoNewlines(s, j);
        assert t[j..j + 2] == s[j..j + 2];
      }
    }
  }

  /** Any text is cut at its blank lines, the first one first: the raw events with their blank lines and the rest are the
      text, and no blank line is left in either, nor begins in an event and ends after it. */
  lemma {:induction false} CutAtBlankLines(s: string)
    ensures s == Rejoined(Raw(s)) + Rest(s) && NoBlankLine(Rest(s))
    ensures forall raw :: raw in Raw(s) ==> NoBlankLine(raw + "\n")
    decreases |s|
  {
    match BlankLine(s)
    case None => NoBlankBefore(s, |s|);
    case Some(i) =>
      CutAtBlankLines(s[i + 2..]);
      NoBlankBefore(s, i);
      BlankIsTwoNewlines(s, i);
      FirstCut(s, i, Raw(s[i + 2..]), Rest(s[i + 2..]));
  }

  lemma FirstCut(s: string, i: nat, raws: seq<string>, rest: string)
    requires i + 2 <= |s| && s[i..i + 2] == "\n\n" && s[i + 2..] == Rejoined(raws) + rest
    ensures s == Rejoined([s[..i]] + raws) + rest && s[..i + 1] == s[..i] + "\n"
  {
    assert ([s[..i]] + raws)[1..] == raws;
    assert s == s[..i] + s[i..i + 2] + s[i + 2..];
    assert s[i..i + 2][0] == '\n';
  }
}
