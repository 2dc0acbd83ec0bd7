/** The tamper-evident ledger (utils/audit_chain.py) on top of the rotating log.

    `sha` stands for "SHA-256 of the UTF-8 encoding, as hex": an arbitrary function from
    strings to strings of which only the shape of the digest is ever used. */
module AuditChain {
  import opened Wrappers
  import opened LogRotation

  const GENESIS := "cavendex-audit-chain-v1"

  // ----- the fold hash

  function Link(running: string, entry: string): string {
    running + "\n" + entry
  }

  function ChainHash(sha: string -> string, entries: seq<string>): string {
    if entries == [] then GENESIS
    else sha(Link(ChainHash(sha, entries[..|entries| - 1]), entries[|entries| - 1]))
  }

  method ComputeChainHash(sha: string -> string, entries: seq<string>) returns (running: string)
    ensures running == ChainHash(sha, entries)
  {
    running := GENESIS;
    for i := 0 to |entries|
      invariant running == ChainHash(sha, entries[..i])
    {
      assert entries[..i + 1][..i] == entries[..i];
      running := sha(Link(running, entries[i]));
    }
    assert entries[..|entries|] == entries;
  }

  predicate HexDigit(c: char) {
    '0' <= c <= '9' || 'a' <= c <= 'f'
  }

  /** `hexdigest()` is 64 lower-case hex digits (256 bits, section 6.2 of FIPS 180-4). */
  ghost predicate DigestShaped(sha: string -> string) {
    forall x: string :: |sha(x)| == 64 && forall i :: 0 <= i < 64 ==> HexDigit(sha(x)[i])
  }

  predicate OneLine(s: string) {
    forall i :: 0 <= i < |s| ==> s[i] != '\n'
  }

  lemma ChainHashOneLine(sha: string -> string, entries: seq<string>)
    requires DigestShaped(sha)
    ensures OneLine(ChainHash(sha, entries))
  {
    if entries != [] {
      var x := Link(ChainHash(sha, entries[..|entries| - 1]), entries[|entries| - 1]);
      assert |sha(x)| == 64;
    }
  }

  /** The framing is injective as long as the running hash holds no newline. */
  lemma LinkInjective(r1: string, e1: string, r2: string, e2: string)
    requires OneLine(r1) && OneLine(r2) && Link(r1, e1) == Link(r2, e2)
    ensures r1 == r2 && e1 == e2
  {
    FirstNewline(r1, e1);
    FirstNewline(r2, e2);
    var x := Link(r1, e1);
    assert |r1| == |r2|;
    assert r1 == x[..|r1|] && r2 == x[..|r2|];
    assert e1 == x[|r1| + 1..] && e2 == x[|r2| + 1..];
  }

  lemma FirstNewline(r: string, e: string)
    requires OneLine(r)
    ensures Link(r, e)[|r|] == '\n' && forall i :: 0 <= i < |r| ==> Link(r, e)[i] != '\n'
  {
    assert forall i :: 0 <= i < |r| ==> Link(r, e)[i] == r[i];
  }

  /** Two different audit logs with one chain hash hand over two different inputs on which
      SHA-256 agrees. The logs may have different lengths. */
  function FindCollision(sha: string -> string, a: seq<string>, b: seq<string>): (p: (string, string))
    requires DigestShaped(sha)
    requires a != b && ChainHash(sha, a) == ChainHash(sha, b)
    ensures p.0 != p.1 && sha(p.0) == sha(p.1)
    decreases |a|
  {
    GenesisIsNoDigest(sha, a, b);
    var ra, rb := ChainHash(sha, a[..|a| - 1]), ChainHash(sha, b[..|b| - 1]);
    var ea, eb := a[|a| - 1], b[|b| - 1];
    if Link(ra, ea) != Link(rb, eb) then (Link(ra, ea), Link(rb, eb))
    else
      ChainHashOneLine(sha, a[..|a| - 1]);
      ChainHashOneLine(sha, b[..|b| - 1]);
      LinkInjective(ra, ea, rb, eb);
      assert a == a[..|a| - 1] + [ea] && b == b[..|b| - 1] + [eb];
      FindCollision(sha, a[..|a| - 1], b[..|b| - 1])
  }

  lemma ChainHashLength(sha: string -> string, entries: seq<string>)
    requires DigestShaped(sha)
    ensures |ChainHash(sha, entries)| == if entries == [] then 23 else 64
  {
    assert |GENESIS| == 23;
  }

  lemma GenesisIsNoDigest(sha: string -> string, a: seq<string>, b: seq<string>)
    requires DigestShaped(sha)
    requires a != b && ChainHash(sha, a) == ChainHash(sha, b)
    ensures a != [] && b != []
  {
    ChainHashLength(sha, a);
    ChainHashLength(sha, b);
  }

  // ----- the ledger

  datatype Entry = Entry(timestamp: string, threadId: string, auditLogLength: nat, chainHash: string)

  /** One line of the ledger file: blank, not parseable as JSON, or a recorded entry. */
  datatype LedgerLine = Blank | Garbled | Recorded(entry: Entry)

  /** The last entry for `threadId`, scanning forward and overwriting. */
  function LatestIn(lines: seq<LedgerLine>, threadId: string): Option<Entry> {
    if lines == [] then None
    else
      var last := lines[|lines| - 1];
      if last.Recorded? && last.entry.threadId == threadId then Some(last.entry)
      else LatestIn(lines[..|lines| - 1], threadId)
  }

  method RecordChain(ledger: RotatingLog<LedgerLine>, s: Settings, sha: string -> string,
                     threadId: string, auditLog: seq<string>, timestamp: string)
    modifies ledger
    ensures ledger.files ==
      Appended(ledger.width, old(ledger.files), s, LineFor(sha, Recording(s, threadId, auditLog, timestamp)))
    ensures ledger.clobbered == old(ledger.clobbered)
  {
    var chainHash := ComputeChainHash(sha, auditLog);
    ledger.AppendLine(s, Recorded(Entry(timestamp, threadId, |auditLog|, chainHash)));
  }

  method LatestRecordedEntry(ledger: RotatingLog<LedgerLine>, threadId: string) returns (latest: Option<Entry>)
    ensures latest == LatestIn(Retained(ledger.files), threadId)
  {
    latest := None;
    var paths := ledger.PathsOldestFirst();
    var files := ledger.files;
    assert paths[..0] == [];
    for p := 0 to |paths|
      invariant latest == LatestIn(Cat(files, paths[..p]), threadId)
    {
      var before := Cat(files, paths[..p]);
      var lines := files[paths[p]];
      CatSplit(files, paths[..p], [paths[p]]);
      assert Cat(files, [paths[p]]) == lines by { assert [paths[p]][1..] == []; }
      assert paths[..p + 1] == paths[..p] + [paths[p]];
      assert before + lines[..0] == before;
      for i := 0 to |lines|
        invariant latest == LatestIn(before + lines[..i], threadId)
      {
        assert (before + lines[..i + 1])[..|before| + i] == before + lines[..i];
        match lines[i]
        case Blank =>
        case Garbled =>
        case Recorded(entry) =>
          if entry.threadId == threadId {
            latest := Some(entry);
          }
      }
      assert lines[..|lines|] == lines;
    }
    assert paths[..|paths|] == paths;
  }

  datatype Verdict = NoRecord | Verified | Mismatch

  function Verify(lines: seq<LedgerLine>, sha: string -> string, threadId: string, auditLog: seq<string>): Verdict {
    match LatestIn(lines, threadId)
    case None => NoRecord
    case Some(e) =>
      if ChainHash(sha, auditLog) == e.chainHash && |auditLog| == e.auditLogLength then Verified else Mismatch
  }

  method VerifyIncidentAuditLog(ledger: RotatingLog<LedgerLine>, sha: string -> string,
                                threadId: string, auditLog: seq<string>) returns (v: Verdict)
    ensures v == Verify(Retained(ledger.files), sha, threadId, auditLog)
  {
    var recorded := LatestRecordedEntry(ledger, threadId);
    match recorded
    case None =>
      v := NoRecord;
    case Some(e) =>
      var currentHash := ComputeChainHash(sha, auditLog);
      v := if currentHash == e.chainHash && |auditLog| == e.auditLogLength then Verified else Mismatch;
  }

  // ----- whole runs: any interleaving of incidents, any rotations

  /** One call of `record_chain`, with the rotation settings it found in the environment. */
  datatype Recording = Recording(settings: Settings, threadId: string, auditLog: seq<string>, timestamp: string)

  function LineFor(sha: string -> string, r: Recording): LedgerLine {
    Recorded(Entry(r.timestamp, r.threadId, |r.auditLog|, ChainHash(sha, r.auditLog)))
  }

  function Writes(sha: string -> string, rs: seq<Recording>): (ws: seq<Write<LedgerLine>>)
    ensures |ws| == |rs|
    ensures forall i :: 0 <= i < |rs| ==> ws[i] == Write(rs[i].settings, LineFor(sha, rs[i]))
  {
    seq(|rs|, i requires 0 <= i < |rs| => Write(rs[i].settings, LineFor(sha, rs[i])))
  }

  /** Position `i` is the last call made for `threadId`. */
  ghost predicate LastCallFor(rs: seq<Recording>, threadId: string, i: nat) {
    && i < |rs| && rs[i].threadId == threadId
    && forall j :: i < j < |rs| ==> rs[j].threadId != threadId
  }

  /** Scanning a tail of the recorded lines finds the last call if the tail reaches back to it. */
  lemma {:induction false} LatestInTail(sha: string -> string, rs: seq<Recording>, threadId: string, i: nat,
                                        tail: seq<LedgerLine>)
    requires LastCallFor(rs, threadId, i)
    requires |tail| <= |rs|
    requires forall k :: 0 <= k < |tail| ==> tail[k] == LineFor(sha, rs[|rs| - |tail| + k])
    ensures LatestIn(tail, threadId) ==
      if |rs| - |tail| <= i then Some(LineFor(sha, rs[i]).entry) else None
    decreases |rs|
  {
    if tail != [] && i < |rs| - 1 {
      LatestInTail(sha, rs[..|rs| - 1], threadId, i, tail[..|tail| - 1]);
    }
  }

  /** No false alarm. After any run of recordings in which no rotation finds more backups than
      configured, the audit log last recorded for an incident verifies, unless its entry has been
      rotated out, and then the answer is "no record". It is never a mismatch. */
  lemma NoFalseAlarm(width: LedgerLine -> nat, sha: string -> string, rs: seq<Recording>, threadId: string, i: nat)
    requires SafeRun(width, Writes(sha, rs))
    requires LastCallFor(rs, threadId, i)
    ensures var lines := Retained(Run(width, Writes(sha, rs)));
      && |lines| <= |rs|
      && Verify(lines, sha, threadId, rs[i].auditLog) == (if i < |rs| - |lines| then NoRecord else Verified)
  {
    RunReads(width, Writes(sha, rs));
    TailVerdict(sha, rs, threadId, i, Retained(Run(width, Writes(sha, rs))));
  }

  lemma TailVerdict(sha: string -> string, rs: seq<Recording>, threadId: string, i: nat, lines: seq<LedgerLine>)
    requires LastCallFor(rs, threadId, i)
    requires EndsWithLines(Writes(sha, rs), lines)
    ensures Verify(lines, sha, threadId, rs[i].auditLog) == (if i < |rs| - |lines| then NoRecord else Verified)
  {
    LatestInTail(sha, rs, threadId, i, lines);
  }

  /** The same for the deployment the settings describe: a constant backup count. */
  lemma NoFalseAlarmConstantCount(width: LedgerLine -> nat, sha: string -> string, rs: seq<Recording>,
                                  threadId: string, i: nat)
    requires forall a, b :: 0 <= a < |rs| && 0 <= b < |rs| ==>
               rs[a].settings.backupCount == rs[b].settings.backupCount
    requires LastCallFor(rs, threadId, i)
    ensures Verify(Retained(Run(width, Writes(sha, rs))), sha, threadId, rs[i].auditLog) != Mismatch
    ensures i == |rs| - 1 ==> Verify(Retained(Run(width, Writes(sha, rs))), sha, threadId, rs[i].auditLog) == Verified
  {
    NeverLoweredIsSafe(width, Writes(sha, rs));
    NoFalseAlarm(width, sha, rs, threadId, i);
    RunRetainsNewest(width, Writes(sha, rs));
  }

  lemma RunRetainsNewest<T(!new)>(width: T -> nat, ws: seq<Write<T>>)
    requires SafeRun(width, ws) && ws != []
    ensures Retained(Run(width, ws)) != []
  {
    var n := |ws| - 1;
    PrefixRuns(width, ws, n);
    RunRetainsSuffix(width, ws[..n]);
    var files := Run(width, ws[..n]);
    assert SafeAt(width, ws, n);
    SafeAppend(width, files, ws[n].settings, ws[n].line);
  }

  /** A changed log that still verifies has forced a SHA-256 collision. */
  lemma TamperingNeedsCollision(width: LedgerLine -> nat, sha: string -> string, rs: seq<Recording>,
                                threadId: string, i: nat, shown: seq<string>)
      returns (p: (string, string))
    requires DigestShaped(sha)
    requires SafeRun(width, Writes(sha, rs)) && LastCallFor(rs, threadId, i)
    requires shown != rs[i].auditLog
    requires Verify(Retained(Run(width, Writes(sha, rs))), sha, threadId, shown) == Verified
    ensures |shown| == |rs[i].auditLog|
    ensures p.0 != p.1 && sha(p.0) == sha(p.1)
  {
    NoFalseAlarm(width, sha, rs, threadId, i);
    assert ChainHash(sha, shown) == ChainHash(sha, rs[i].auditLog);
    p := FindCollision(sha, shown, rs[i].auditLog);
  }

  /** Lowering the backup count mid-run raises a false alarm: with one backup of one line each, a
      count that drops to 0 deletes the newest entry of "t" and leaves the stale one readable. */
  lemma LoweredCountFalseAlarm(sha: string -> string)
    ensures exists rs: seq<Recording>, i: nat ::
      && LastCallFor(rs, "t", i)
      && Verify(Retained(Run(OneByte, Writes(sha, rs))), sha, "t", rs[i].auditLog) == Mismatch
  {
    var one, none := Settings(1, 1), Settings(1, 0);
    var rs := [Recording(one, "t", ["a"], "1"), Recording(one, "t", ["a", "b"], "2"), Recording(none, "u", [], "3")];
    var ws := Writes(sha, rs);
    assert ws == [ws[0], ws[1], ws[2]];
    LoweredCountGap(ws[0], ws[1], ws[2]);
    StaleEntryRead(sha, ws[0].line, ws[2].line);
    assert LastCallFor(rs, "t", 1);
  }

  lemma StaleEntryRead(sha: string -> string, l0: LedgerLine, l2: LedgerLine)
    requires l0.Recorded? && l0.entry.threadId == "t" && l0.entry.auditLogLength == 1
    requires l2.Recorded? && l2.entry.threadId == "u"
    ensures Verify([l0, l2], sha, "t", ["a", "b"]) == Mismatch
  {
    assert [l0, l2][..1] == [l0];
    assert LatestIn([l0], "t") == Some(l0.entry);
    assert LatestIn([l0, l2], "t") == Some(l0.entry);
  }

  // ----- exactly when an append raises a false alarm

  lemma {:induction false} LatestInConcat(a: seq<LedgerLine>, b: seq<LedgerLine>, threadId: string)
    ensures LatestIn(a + b, threadId) == if LatestIn(b, threadId).Some? then LatestIn(b, threadId) else LatestIn(a, threadId)
  {
    if b == [] {
      assert a + b == a;
    } else {
      assert (a + b)[..|a + b| - 1] == a + b[..|b| - 1];
      LatestInConcat(a, b[..|b| - 1], threadId);
    }
  }

  lemma {:induction false} FoundIsRecorded(lines: seq<LedgerLine>, threadId: string) returns (k: nat)
    requires LatestIn(lines, threadId).Some?
    ensures k < |lines| && lines[k] == Recorded(LatestIn(lines, threadId).value) && lines[k].entry.threadId == threadId
  {
    var n := |lines| - 1;
    if lines[n].Recorded? && lines[n].entry.threadId == threadId {
      k := n;
    } else {
      k := FoundIsRecorded(lines[..n], threadId);
    }
  }

  lemma {:induction false} HasLastCall(rs: seq<Recording>, threadId: string, k: nat) returns (i: nat)
    requires k < |rs| && rs[k].threadId == threadId
    ensures LastCallFor(rs, threadId, i)
    decreases |rs| - k
  {
    i := k;
    if j :| k < j < |rs| && rs[j].threadId == threadId {
      i := HasLastCall(rs, threadId, j);
    }
  }

  /** Some log last recorded for the incident is reported as altered. */
  ghost predicate FalseAlarm(lines: seq<LedgerLine>, sha: string -> string, rs: seq<Recording>, threadId: string) {
    exists i: nat :: LastCallFor(rs, threadId, i) && Verify(lines, sha, threadId, rs[i].auditLog) == Mismatch
  }

  predicate SameLog(a: Entry, b: Entry) {
    a.chainHash == b.chainHash && a.auditLogLength == b.auditLogLength
  }

  /** The incident's newest entry is in the part that is lost, and an older part holds an entry of another log. */
  predicate Uncovers(older: seq<LedgerLine>, lost: seq<LedgerLine>, newer: seq<LedgerLine>, threadId: string) {
    && LatestIn(newer, threadId) == None
    && LatestIn(lost, threadId).Some? && LatestIn(older, threadId).Some?
    && !SameLog(LatestIn(lost, threadId).value, LatestIn(older, threadId).value)
  }

  /** The newest entry of the incident lies in the backup `.n`, and the backups beyond it hold an older entry with
      another hash or length. */
  ghost predicate Stale(files: Files<LedgerLine>, n: nat, threadId: string) {
    && Contiguous(files) && n in files
    && Uncovers(Older(files, n + 1), files[n], Newer(files, n, 0), threadId)
  }

  lemma WritesSnoc(sha: string -> string, rs: seq<Recording>, r: Recording)
    ensures Writes(sha, rs + [r]) == Writes(sha, rs) + [Write(r.settings, LineFor(sha, r))]
  {
  }

  lemma LastCallSnoc(rs: seq<Recording>, r: Recording, threadId: string, i: nat)
    ensures LastCallFor(rs + [r], threadId, i) <==>
      if r.threadId == threadId then i == |rs| else LastCallFor(rs, threadId, i)
  {
    var all := rs + [r];
    assert all[|rs|] == r;
    assert forall j :: 0 <= j < |rs| ==> all[j] == rs[j];
  }

  /** Reading with the middle lost goes wrong exactly if the newest entry was in the middle and an older one, of
      another log, is in front of it. */
  lemma LostMiddle(older: seq<LedgerLine>, lost: seq<LedgerLine>, newer: seq<LedgerLine>, line: LedgerLine, threadId: string)
    requires line.Recorded? && line.entry.threadId != threadId
    ensures LatestIn(older + lost + newer, threadId) ==
      if LatestIn(newer, threadId).Some? then LatestIn(newer, threadId)
      else if LatestIn(lost, threadId).Some? then LatestIn(lost, threadId)
      else LatestIn(older, threadId)
    ensures LatestIn(older + newer + [line], threadId) ==
      if LatestIn(newer, threadId).Some? then LatestIn(newer, threadId) else LatestIn(older, threadId)
  {
    LatestInConcat(older + lost, newer, threadId);
    LatestInConcat(older, lost, threadId);
    LatestInConcat(older + newer, [line], threadId);
    LatestInConcat(older, newer, threadId);
    assert [line][..0] == [];
  }

  lemma VerdictOn(lines: seq<LedgerLine>, sha: string -> string, r: Recording, threadId: string)
    ensures Verify(lines, sha, threadId, r.auditLog) == Mismatch <==>
      LatestIn(lines, threadId).Some? && !SameLog(LineFor(sha, r).entry, LatestIn(lines, threadId).value)
  {
  }

  /** Every line records a call. */
  ghost predicate FromCalls(lines: seq<LedgerLine>, rs: seq<Recording>) {
    forall line :: line in lines ==> line.Recorded? && exists k :: 0 <= k < |rs| && rs[k].threadId == line.entry.threadId
  }

  lemma FromCallsStep(sha: string -> string, rs: seq<Recording>, r: Recording, older: seq<LedgerLine>, lost: seq<LedgerLine>,
                      newer: seq<LedgerLine>)
    requires FromCalls(older + lost + newer, rs)
    ensures FromCalls(older + newer + [LineFor(sha, r)], rs + [r])
  {
    forall line | line in older + newer + [LineFor(sha, r)]
      ensures line.Recorded? && exists k :: 0 <= k < |rs + [r]| && (rs + [r])[k].threadId == line.entry.threadId
    {
      if line == LineFor(sha, r) {
        assert (rs + [r])[|rs|].threadId == line.entry.threadId;
      } else {
        assert line in older + lost + newer;
        var k :| 0 <= k < |rs| && rs[k].threadId == line.entry.threadId;
        assert (rs + [r])[k] == rs[k];
      }
    }
  }

  /** What any run keeps, safe or not. */
  lemma {:induction false} RunIsReadable(width: LedgerLine -> nat, sha: string -> string, rs: seq<Recording>)
    ensures Contiguous(Run(width, Writes(sha, rs))) && FromCalls(Retained(Run(width, Writes(sha, rs))), rs)
  {
    if rs != [] {
      var n := |rs| - 1;
      RunIsReadable(width, sha, rs[..n]);
      assert rs == rs[..n] + [rs[n]];
      WritesSnoc(sha, rs[..n], rs[n]);
      RunOne(width, Writes(sha, rs[..n]), Write(rs[n].settings, LineFor(sha, rs[n])));
      var older, lost, newer :=
        AnyAppendReads(width, Run(width, Writes(sha, rs[..n])), rs[n].settings, LineFor(sha, rs[n]));
      AppendedStaysContiguous(width, Run(width, Writes(sha, rs[..n])), rs[n].settings, LineFor(sha, rs[n]));
      FromCallsStep(sha, rs[..n], rs[n], older, lost, newer);
    }
  }

  lemma FoundHasCall(rs: seq<Recording>, threadId: string, lines: seq<LedgerLine>) returns (i: nat)
    requires FromCalls(lines, rs) && LatestIn(lines, threadId).Some?
    ensures LastCallFor(rs, threadId, i)
  {
    var n := FoundIsRecorded(lines, threadId);
    var k :| 0 <= k < |rs| && rs[k].threadId == lines[n].entry.threadId;
    i := HasLastCall(rs, threadId, k);
  }

  /** If `before` raised no alarm, `after` does exactly if it shows an entry of another log. */
  lemma AlarmIffChanged(sha: string -> string, rs: seq<Recording>, threadId: string, before: seq<LedgerLine>, after: seq<LedgerLine>)
    requires FromCalls(before, rs) && !FalseAlarm(before, sha, rs, threadId)
    requires LatestIn(after, threadId).Some? ==> LatestIn(before, threadId).Some?
    ensures FalseAlarm(after, sha, rs, threadId) <==>
      LatestIn(after, threadId).Some? && !SameLog(LatestIn(before, threadId).value, LatestIn(after, threadId).value)
  {
    forall i: nat | LastCallFor(rs, threadId, i)
      ensures LatestIn(before, threadId).Some? ==> SameLog(LineFor(sha, rs[i]).entry, LatestIn(before, threadId).value)
    {
      VerdictOn(before, sha, rs[i], threadId);
    }
    if i: nat :| LastCallFor(rs, threadId, i) && Verify(after, sha, threadId, rs[i].auditLog) == Mismatch {
      VerdictOn(after, sha, rs[i], threadId);
    }
    if LatestIn(after, threadId).Some? {
      var i := FoundHasCall(rs, threadId, before);
      VerdictOn(after, sha, rs[i], threadId);
    }
  }

  /** An append, for an incident it does not record. */
  lemma LossAlarms(sha: string -> string, rs: seq<Recording>, line: LedgerLine, threadId: string,
                   older: seq<LedgerLine>, lost: seq<LedgerLine>, newer: seq<LedgerLine>)
    requires line.Recorded? && line.entry.threadId != threadId
    requires FromCalls(older + lost + newer, rs) && !FalseAlarm(older + lost + newer, sha, rs, threadId)
    ensures FalseAlarm(older + newer + [line], sha, rs, threadId) <==> Uncovers(older, lost, newer, threadId)
  {
    LostMiddle(older, lost, newer, line, threadId);
    AlarmIffChanged(sha, rs, threadId, older + lost + newer, older + newer + [line]);
  }

  lemma AlarmSnoc(lines: seq<LedgerLine>, sha: string -> string, rs: seq<Recording>, r: Recording, threadId: string)
    requires threadId != r.threadId
    ensures FalseAlarm(lines, sha, rs + [r], threadId) <==> FalseAlarm(lines, sha, rs, threadId)
  {
    forall i: nat
      ensures LastCallFor(rs + [r], threadId, i) <==> LastCallFor(rs, threadId, i)
      ensures LastCallFor(rs, threadId, i) ==> (rs + [r])[i] == rs[i]
    {
      LastCallSnoc(rs, r, threadId, i);
    }
  }

  /** The guard on the files before an append: its rotation overruns the backup count, the incident is another one
      than the one recorded, its newest entry is in the backup `.n` that the rotation drops, and an entry of another log
      is left in the backups beyond. */
  ghost predicate Exposes(width: LedgerLine -> nat, files: Files<LedgerLine>, r: Recording, threadId: string) {
    !Safe(width, files, r.settings) && threadId != r.threadId && Stale(files, r.settings.Backups(), threadId)
  }

  lemma AppendAlarmExactly(width: LedgerLine -> nat, sha: string -> string, rs: seq<Recording>, r: Recording, threadId: string,
                           files: Files<LedgerLine>)
    requires Contiguous(files) && FromCalls(Retained(files), rs) && !FalseAlarm(Retained(files), sha, rs, threadId)
    ensures FalseAlarm(Retained(Appended(width, files, r.settings, LineFor(sha, r))), sha, rs + [r], threadId)
       <==> Exposes(width, files, r, threadId)
  {
    var older, lost, newer := AnyAppendReads(width, files, r.settings, LineFor(sha, r));
    if threadId == r.threadId {
      OwnLogVerifies(sha, rs, r, older + newer + [LineFor(sha, r)]);
    } else {
      AlarmSnoc(older + newer + [LineFor(sha, r)], sha, rs, r, threadId);
      LossAlarms(sha, rs, LineFor(sha, r), threadId, older, lost, newer);
    }
  }

  ghost predicate AlarmAfter(width: LedgerLine -> nat, sha: string -> string, rs: seq<Recording>, threadId: string) {
    FalseAlarm(Retained(Run(width, Writes(sha, rs))), sha, rs, threadId)
  }

  /** After any run at all, also one whose rotations overran the count before: if the untouched log of an incident did
      not report MISMATCH so far, the next recording makes it do so if and only if the files before it expose an older
      entry of that incident. */
  lemma FalseAlarmExactly(width: LedgerLine -> nat, sha: string -> string, rs: seq<Recording>, r: Recording, threadId: string)
    requires !AlarmAfter(width, sha, rs, threadId)
    ensures AlarmAfter(width, sha, rs + [r], threadId) <==> Exposes(width, Run(width, Writes(sha, rs)), r, threadId)
  {
    WritesSnoc(sha, rs, r);
    RunOne(width, Writes(sha, rs), Write(r.settings, LineFor(sha, r)));
    RunIsReadable(width, sha, rs);
    AppendAlarmExactly(width, sha, rs, r, threadId, Run(width, Writes(sha, rs)));
  }

  /** A MISMATCH after the first `i` recordings. */
  ghost predicate AlarmedAt(width: LedgerLine -> nat, sha: string -> string, rs: seq<Recording>, threadId: string, i: nat)
    requires i <= |rs|
  {
    AlarmAfter(width, sha, rs[..i], threadId)
  }

  ghost predicate ExposedAt(width: LedgerLine -> nat, sha: string -> string, rs: seq<Recording>, threadId: string, i: nat)
    requires i < |rs|
  {
    Exposes(width, Run(width, Writes(sha, rs[..i])), rs[i], threadId)
  }

  lemma NoAlarmAtFirst(width: LedgerLine -> nat, sha: string -> string, rs: seq<Recording>, threadId: string)
    ensures !AlarmedAt(width, sha, rs, threadId, 0)
  {
    assert rs[..0] == [];
    assert Retained(Run(width, Writes(sha, rs[..0]))) == [];
  }

  lemma AlarmStep(width: LedgerLine -> nat, sha: string -> string, rs: seq<Recording>, threadId: string, i: nat)
    requires i < |rs| && !AlarmedAt(width, sha, rs, threadId, i)
    ensures AlarmedAt(width, sha, rs, threadId, i + 1) <==> ExposedAt(width, sha, rs, threadId, i)
  {
    assert rs[..i + 1] == rs[..i] + [rs[i]];
    FalseAlarmExactly(width, sha, rs[..i], rs[i], threadId);
  }

  lemma {:induction false} UnexposedNeverAlarms(width: LedgerLine -> nat, sha: string -> string, rs: seq<Recording>,
                                                threadId: string, n: nat)
    requires n <= |rs| && forall i :: 0 <= i < n ==> !ExposedAt(width, sha, rs, threadId, i)
    ensures !AlarmedAt(width, sha, rs, threadId, n)
  {
    if n == 0 {
      NoAlarmAtFirst(width, sha, rs, threadId);
    } else {
      UnexposedNeverAlarms(width, sha, rs, threadId, n - 1);
      AlarmStep(width, sha, rs, threadId, n - 1);
    }
  }

  /** Over whole runs: the untouched log of an incident never reports MISMATCH, after no recording of the run, if and
      only if no recording met files that expose an older entry of that incident. */
  lemma NeverAlarmsExactly(width: LedgerLine -> nat, sha: string -> string, rs: seq<Recording>, threadId: string)
    ensures (forall i :: 0 <= i <= |rs| ==> !AlarmedAt(width, sha, rs, threadId, i))
       <==> (forall i :: 0 <= i < |rs| ==> !ExposedAt(width, sha, rs, threadId, i))
  {
    if forall i :: 0 <= i < |rs| ==> !ExposedAt(width, sha, rs, threadId, i) {
      forall i | 0 <= i <= |rs|
        ensures !AlarmedAt(width, sha, rs, threadId, i)
      {
        UnexposedNeverAlarms(width, sha, rs, threadId, i);
      }
    }
    if forall i :: 0 <= i <= |rs| ==> !AlarmedAt(width, sha, rs, threadId, i) {
      forall i | 0 <= i < |rs|
        ensures !ExposedAt(width, sha, rs, threadId, i)
      {
        AlarmStep(width, sha, rs, threadId, i);
      }
    }
  }

  lemma OwnLogVerifies(sha: string -> string, rs: seq<Recording>, r: Recording, lines: seq<LedgerLine>)
    requires lines != [] && lines[|lines| - 1] == LineFor(sha, r)
    ensures !FalseAlarm(lines, sha, rs + [r], r.threadId)
  {
    forall i: nat | LastCallFor(rs + [r], r.threadId, i)
      ensures Verify(lines, sha, r.threadId, (rs + [r])[i].auditLog) != Mismatch
    {
      LastCallSnoc(rs, r, r.threadId, i);
    }
  }
}
