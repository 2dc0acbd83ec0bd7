/** Size-based rotation of an append-only log (utils/log_rotation.py).

    A log is a family of files: index 0 is the active file, index k > 0 the
    backup `path.k`. A file is the sequence of lines written to it, and `width`
    gives the number of bytes one written line occupies. */
module LogRotation {

  type Files<T> = map<nat, seq<T>>

  /** The two environment settings, read afresh by every append. */
  datatype Settings = Settings(maxBytes: int, backupCount: int)
  {
    /** `_backup_count` clamps at zero. */
    function Backups(): nat {
      if backupCount < 0 then 0 else backupCount
    }
  }

  /** A negative count keeps no backups, any other as many as it says. */
  lemma CountClamps(s: Settings)
    ensures s.backupCount >= 0 ==> s.Backups() == s.backupCount
    ensures s.backupCount < 0 ==> s.Backups() == 0
  {
  }

  function Size<T>(width: T -> nat, lines: seq<T>): nat {
    if lines == [] then 0 else Size(width, lines[..|lines| - 1]) + width(lines[|lines| - 1])
  }

  function Active<T>(files: Files<T>): seq<T> {
    if 0 in files then files[0] else []
  }

  function From<T>(files: Files<T>, n: nat): set<nat> {
    set k | k in files && k >= n
  }

  lemma FromShrinks<T>(files: Files<T>, n: nat)
    requires n in files
    ensures From(files, n + 1) < From(files, n)
  {
    assert n in From(files, n) && n !in From(files, n + 1);
  }

  /** What the backups `.n`, `.n+1`, ... up to the first missing one hold, oldest line first. */
  function Older<T>(files: Files<T>, n: nat): seq<T>
    decreases From(files, n)
  {
    if n in files then
      FromShrinks(files, n);
      Older(files, n + 1) + files[n]
    else []
  }

  lemma OlderUnfold<T>(files: Files<T>, n: nat)
    requires n in files
    ensures Older(files, n) == Older(files, n + 1) + files[n]
  {
  }

  /** What a reader that walks the backups oldest first, then the active file, sees. */
  function Retained<T>(files: Files<T>): seq<T> {
    Older(files, 1) + Active(files)
  }

  predicate IsSuffix<T(==)>(s: seq<T>, whole: seq<T>) {
    |s| <= |whole| && whole[|whole| - |s|..] == s
  }

  // ----- what one append does, in closed form

  predicate Rotates<T>(width: T -> nat, files: Files<T>, s: Settings) {
    s.maxBytes > 0 && 0 in files && Size(width, files[0]) >= s.maxBytes
  }

  /** The indices that a file may have after one move up. */
  function Slots<T>(files: Files<T>): (r: set<nat>)
    ensures forall k: nat {:trigger k in r} :: k in r <==> k in files || (k >= 1 && k - 1 in files)
  {
    var up := set j: nat | j in files :: j + 1;
    assert forall k: nat {:trigger k in up} :: k >= 1 && k - 1 in files ==> (k - 1) + 1 in up;
    files.Keys + up
  }

  /** Rotation part-way through its renames: `.n` is gone, backups above `i` have
      moved up one place, and the slot `i + 1` is free. */
  function Shifted<T>(files: Files<T>, n: nat, i: nat): Files<T> {
    map k: nat | k in Slots(files)
              && (if k > n || k <= i then k in files else k >= i + 2 && k - 1 in files)
             :: if k > n || k <= i then files[k] else files[k - 1]
  }

  /** Files `0 .. n-1` become `1 .. n`, the old `.n` is lost, files above `n` stay. */
  function Rotated<T>(files: Files<T>, n: nat): Files<T> {
    map k: nat | k in Slots(files)
              && (if k > n then k in files else k >= 1 && k - 1 in files)
             :: if k > n then files[k] else files[k - 1]
  }

  lemma ShiftBegins<T>(files: Files<T>, n: nat)
    requires n >= 1 && n !in files
    ensures files == Shifted(files, n, n - 1)
  {
  }

  lemma ShiftStep<T>(files: Files<T>, n: nat, i: nat)
    requires 1 <= i < n
    ensures i in Shifted(files, n, i) <==> i in files
    ensures i + 1 !in Shifted(files, n, i)
    ensures Shifted(files, n, i - 1) ==
      if i in files then (Shifted(files, n, i) - {i})[i + 1 := files[i]] else Shifted(files, n, i)
  {
  }

  lemma ShiftEnds<T>(files: Files<T>, n: nat)
    requires n >= 1 && 0 in files
    ensures 0 in Shifted(files, n, 0) && 1 !in Shifted(files, n, 0)
    ensures (Shifted(files, n, 0) - {0})[1 := files[0]] == Rotated(files, n)
  {
  }

  lemma RotatedIgnoresLast<T>(files: Files<T>, whole: Files<T>, n: nat)
    requires files == whole - {n}
    ensures Rotated(files, n) == Rotated(whole, n)
  {
  }

  function Appended<T>(width: T -> nat, files: Files<T>, s: Settings, line: T): Files<T> {
    var f := if Rotates(width, files, s) then Rotated(files, s.Backups()) else files;
    f[0 := Active(f) + [line]]
  }

  class RotatingLog<T> {
    const width: T -> nat
    var files: Files<T>
    /** How many renames so far replaced a file that existed. */
    ghost var clobbered: nat

    constructor (width: T -> nat)
      ensures this.width == width && files == map[] && clobbered == 0
    {
      this.width := width;
      files := map[];
      clobbered := 0;
    }

    method Remove(k: nat)
      modifies `files
      ensures files == old(files) - {k}
    {
      files := files - {k};
    }

    /** `os.rename` on POSIX: silently replaces the destination. */
    method Rename(src: nat, dst: nat)
      requires src in files && src != dst
      modifies this
      ensures files == (old(files) - {src})[dst := old(files)[src]]
      ensures clobbered == old(clobbered) + if dst in old(files) then 1 else 0
    {
      if dst in files {
        clobbered := clobbered + 1;
      }
      files := (files - {src})[dst := files[src]];
    }

    /** The descending chain of renames. */
    method ShiftBackups(n: nat)
      requires n >= 1 && 0 in files
      requires n !in files
      modifies this
      ensures files == Rotated(old(files), n)
      ensures clobbered == old(clobbered)
    {
      ShiftBegins(files, n);
      var i := n - 1;
      while i > 0
        invariant 0 <= i < n
        invariant files == Shifted(old(files), n, i)
        invariant clobbered == old(clobbered)
      {
        ShiftStep(old(files), n, i);
        if i in files {
          Rename(i, i + 1);
        }
        i := i - 1;
      }
      ShiftEnds(old(files), n);
      Rename(0, 1);
    }

    method RotateIfNeeded(s: Settings)
      modifies this
      ensures files == if Rotates(width, old(files), s) then Rotated(old(files), s.Backups()) else old(files)
      ensures clobbered == old(clobbered)
    {
      if s.maxBytes <= 0 {
        return;
      }
      if 0 !in files || Size(width, files[0]) < s.maxBytes {
        return;
      }
      var n := s.Backups();
      if n <= 0 {
        Remove(0);
        return;
      }
      if n in files {
        Remove(n);
      }
      RotatedIgnoresLast(files, old(files), n);
      ShiftBackups(n);
    }

    method AppendLine(s: Settings, line: T)
      modifies this
      ensures files == Appended(width, old(files), s, line)
      ensures clobbered == old(clobbered)
    {
      RotateIfNeeded(s);
      files := files[0 := Active(files) + [line]];
    }

    /** The loop of `_ledger_paths_oldest_first`: probe `.1`, `.2`, ... until one is missing. */
    method PathsOldestFirst() returns (paths: seq<nat>)
      ensures forall p :: p in paths ==> p in files
      ensures Cat(files, paths) == Retained(files)
    {
      paths := [];
      var n := 1;
      while n in files
        invariant n >= 1
        invariant forall p :: p in paths ==> p in files
        invariant Older(files, n) + Cat(files, paths) == Older(files, 1)
        decreases From(files, n)
      {
        FromShrinks(files, n);
        CatSplit(files, [n], paths);
        assert Cat(files, [n]) == files[n] by { assert [n][1..] == []; }
        assert Older(files, n + 1) + (files[n] + Cat(files, paths)) == Older(files, n) + Cat(files, paths);
        paths := [n] + paths;
        n := n + 1;
      }
      if 0 in files {
        CatSplit(files, paths, [0]);
        assert Cat(files, [0]) == files[0] by { assert [0][1..] == []; }
        paths := paths + [0];
      }
    }
  }

  /** The lines of the listed files, in the order listed. */
  function Cat<T>(files: Files<T>, paths: seq<nat>): seq<T>
    requires forall p :: p in paths ==> p in files
  {
    if paths == [] then [] else files[paths[0]] + Cat(files, paths[1..])
  }

  lemma {:induction false} CatSplit<T>(files: Files<T>, a: seq<nat>, b: seq<nat>)
    requires forall p :: p in a + b ==> p in files
    ensures forall p :: p in a || p in b ==> p in files
    ensures Cat(files, a + b) == Cat(files, a) + Cat(files, b)
  {
    assert forall p :: p in a || p in b ==> p in a + b;
    if a == [] {
      assert a + b == b;
    } else {
      assert (a + b)[1..] == a[1..] + b;
      CatSplit(files, a[1..], b);
    }
  }

  // ----- one append, seen by a reader

  /** No hole below an existing file. */
  ghost predicate Contiguous<T>(files: Files<T>) {
    forall a: nat, b: nat :: a < b && b in files ==> a in files
  }

  /** Every file was rotated with something in it. */
  ghost predicate NoEmptyFile<T>(files: Files<T>) {
    forall k :: k in files ==> files[k] != []
  }

  /** The guard a caller can check before appending: a rotation must not find backups
      beyond the configured count. */
  predicate Safe<T>(width: T -> nat, files: Files<T>, s: Settings) {
    Rotates(width, files, s) ==> forall k | k in files :: k <= s.Backups()
  }

  ghost predicate UpTo<T>(files: Files<T>, n: nat) {
    forall k :: k in files ==> k <= n
  }

  lemma Regroup<T>(a: seq<T>, b: seq<T>, c: seq<T>)
    ensures (a + b) + c == a + (b + c)
  {
  }

  /** The file that a rotation drops. */
  function LostBy<T>(files: Files<T>, n: nat): seq<T> {
    if n in files then files[n] else []
  }

  /** Where a rotation puts the file `.i`. */
  lemma RotatedAt<T>(files: Files<T>, n: nat, i: nat)
    requires i < n
    ensures i + 1 in Rotated(files, n) <==> i in files
    ensures i in files ==> Rotated(files, n)[i + 1] == files[i]
  {
  }

  lemma RotatedOlderStep<T>(files: Files<T>, n: nat, i: nat, lost: seq<T>)
    requires i < n && i in files
    requires Older(files, i + 1) == lost + Older(Rotated(files, n), i + 2)
    ensures Older(files, i) == lost + Older(Rotated(files, n), i + 1)
  {
    RotatedAt(files, n, i);
    OlderUnfold(files, i);
    OlderUnfold(Rotated(files, n), i + 1);
    Regroup(lost, Older(Rotated(files, n), i + 2), files[i]);
  }

  lemma RotatedOlderEnd<T>(files: Files<T>, n: nat)
    requires UpTo(files, n)
    ensures Older(files, n) == LostBy(files, n) + Older(Rotated(files, n), n + 1)
  {
    assert n + 1 !in files && n + 1 !in Rotated(files, n);
    if n in files {
      OlderUnfold(files, n);
    }
  }

  lemma RotatedOlderGap<T>(files: Files<T>, n: nat, i: nat)
    requires Contiguous(files) && i < n && i !in files
    ensures LostBy(files, n) == [] && Older(files, i) == [] && Older(Rotated(files, n), i + 1) == []
  {
    RotatedAt(files, n, i);
  }

  /** Rotation with room for every backup loses exactly the file `.n`. */
  lemma {:induction false} RotatedOlder<T>(files: Files<T>, n: nat, i: nat)
    requires Contiguous(files) && UpTo(files, n) && i <= n
    ensures Older(files, i) == LostBy(files, n) + Older(Rotated(files, n), i + 1)
    decreases n - i
  {
    if i == n {
      RotatedOlderEnd(files, n);
    } else if i in files {
      RotatedOlder(files, n, i + 1);
      RotatedOlderStep(files, n, i, LostBy(files, n));
    } else {
      RotatedOlderGap(files, n, i);
    }
  }

  /** Files above the configured count are never touched by a rotation. */
  lemma {:induction false} OlderUntouched<T>(files: Files<T>, n: nat, j: nat)
    requires Contiguous(files) && j > n
    ensures Older(Rotated(files, n), j) == Older(files, j)
    decreases From(files, j)
  {
    if j in files {
      FromShrinks(files, j);
      OlderUntouched(files, n, j + 1);
    }
  }

  /** What a rotation that overruns the count leaves readable: the lines newer than the lost file `.n`. */
  function Newer<T>(files: Files<T>, n: nat, j: nat): seq<T>
    requires Contiguous(files) && n in files && j <= n
    decreases n - j
  {
    if j == n then [] else Newer(files, n, j + 1) + files[j]
  }

  lemma {:induction false} OlderAroundLost<T>(files: Files<T>, n: nat, i: nat)
    requires Contiguous(files) && n in files && i <= n
    ensures Older(files, i) == Older(files, n + 1) + files[n] + Newer(files, n, i)
    decreases n - i
  {
    OlderUnfold(files, i);
    if i < n {
      OlderAroundLost(files, n, i + 1);
      Regroup(Older(files, n + 1) + files[n], Newer(files, n, i + 1), files[i]);
    }
  }

  /** In `after` every file below `.n` is one place up, and the files beyond `.n` are as they were. */
  ghost predicate MovedUp<T>(files: Files<T>, n: nat, after: Files<T>) {
    && (forall i: nat :: i < n && i in files ==> i + 1 in after && after[i + 1] == files[i])
    && Older(after, n + 1) == Older(files, n + 1)
  }

  lemma RotatedMovesUp<T>(files: Files<T>, n: nat)
    requires Contiguous(files)
    ensures MovedUp(files, n, Rotated(files, n))
  {
    OlderUntouched(files, n, n + 1);
  }

  lemma WithoutLostStep<T>(files: Files<T>, n: nat, i: nat, after: Files<T>, older: seq<T>)
    requires Contiguous(files) && n in files && i < n && MovedUp(files, n, after)
    requires Older(after, i + 2) == older + Newer(files, n, i + 1)
    ensures Older(after, i + 1) == older + Newer(files, n, i)
  {
    assert i in files;
    OlderUnfold(after, i + 1);
    Regroup(older, Newer(files, n, i + 1), files[i]);
  }

  lemma {:induction false} OlderWithoutLost<T>(files: Files<T>, n: nat, i: nat, after: Files<T>)
    requires Contiguous(files) && n in files && i <= n && MovedUp(files, n, after)
    ensures Older(after, i + 1) == Older(files, n + 1) + Newer(files, n, i)
    decreases n - i
  {
    if i < n {
      OlderWithoutLost(files, n, i + 1, after);
      WithoutLostStep(files, n, i, after, Older(files, n + 1));
    }
  }

  /** Such a rotation drops the file `.n` out of the middle. */
  lemma RotatedOlderUnsafe<T>(files: Files<T>, n: nat)
    requires Contiguous(files) && n in files
    ensures Older(files, 0) == Older(files, n + 1) + files[n] + Newer(files, n, 0)
    ensures Older(Rotated(files, n), 1) == Older(files, n + 1) + Newer(files, n, 0)
  {
    OlderAroundLost(files, n, 0);
    RotatedMovesUp(files, n);
    OlderWithoutLost(files, n, 0, Rotated(files, n));
  }

  lemma OlderFromActive<T>(files: Files<T>)
    requires 0 in files
    ensures Older(files, 0) == Retained(files)
  {
  }

  lemma OlderIgnoresActive<T>(files: Files<T>, lines: seq<T>, n: nat)
    requires n >= 1
    ensures Older(files[0 := lines], n) == Older(files, n)
    decreases From(files, n)
  {
    if n in files {
      FromShrinks(files, n);
      OlderIgnoresActive(files, lines, n + 1);
    }
  }

  lemma SuffixAfterLoss<T>(lost: seq<T>, kept: seq<T>, line: T)
    ensures IsSuffix(kept + [line], lost + kept + [line])
  {
    assert lost + kept + [line] == lost + (kept + [line]);
  }

  lemma AppendShape<T>(width: T -> nat, files: Files<T>, s: Settings, line: T)
    requires Contiguous(files) && NoEmptyFile(files) && Safe(width, files, s)
    ensures Contiguous(Appended(width, files, s, line)) && NoEmptyFile(Appended(width, files, s, line))
  {
  }

  lemma AppendReads<T>(width: T -> nat, files: Files<T>, s: Settings, line: T)
    ensures Retained(Appended(width, files, s, line)) ==
      if Rotates(width, files, s) then Older(Rotated(files, s.Backups()), 1) + [line] else Retained(files) + [line]
  {
    if Rotates(width, files, s) {
      var f := Rotated(files, s.Backups());
      OlderIgnoresActive(f, [line], 1);
      assert Active(f) + [line] == [line];
    } else {
      OlderIgnoresActive(files, Active(files) + [line], 1);
    }
  }

  /** A safe append keeps the files contiguous and non-empty and only ever loses the oldest lines. */
  lemma SafeAppend<T>(width: T -> nat, files: Files<T>, s: Settings, line: T)
    requires Contiguous(files) && NoEmptyFile(files) && Safe(width, files, s)
    ensures var after := Appended(width, files, s, line);
      && Contiguous(after) && NoEmptyFile(after)
      && IsSuffix(Retained(after), Retained(files) + [line])
      && Retained(after) != [] && Retained(after)[|Retained(after)| - 1] == line
  {
    AppendShape(width, files, s, line);
    AppendReads(width, files, s, line);
    var n := s.Backups();
    if Rotates(width, files, s) {
      RotatedOlder(files, n, 0);
      OlderFromActive(files);
      SuffixAfterLoss(LostBy(files, n), Older(Rotated(files, n), 1), line);
    }
  }

  ghost predicate Distinct<T(!new)>(s: seq<T>) {
    forall i, j :: 0 <= i < j < |s| ==> s[i] != s[j]
  }

  lemma GapIsNoSuffix<T(!new)>(a: seq<T>, lost: seq<T>, b: seq<T>)
    requires Distinct(a + lost + b) && a != [] && lost != []
    ensures !IsSuffix(a + b, a + lost + b)
  {
    var whole := a + lost + b;
    assert whole[0] != whole[|lost|];
    assert whole[0] == a[0] == (a + b)[0];
    assert whole[|whole| - |a + b|..][0] == whole[|lost|];
  }

  /** What an unsafe append leaves readable: everything but the file `.n`, which was not the oldest. */
  lemma UnsafeAppendReads<T>(width: T -> nat, files: Files<T>, s: Settings, line: T)
    requires Contiguous(files) && !Safe(width, files, s)
    ensures s.Backups() in files && s.Backups() + 1 in files
    ensures var n := s.Backups();
      && Retained(files) == Older(files, n + 1) + files[n] + Newer(files, n, 0)
      && Retained(Appended(width, files, s, line)) == Older(files, n + 1) + Newer(files, n, 0) + [line]
  {
    var n := s.Backups();
    var k :| k in files && k > n;
    assert n + 1 in files;
    RotatedOlderUnsafe(files, n);
    OlderFromActive(files);
    AppendReads(width, files, s, line);
  }

  lemma RotatedStaysContiguous<T>(files: Files<T>, n: nat)
    requires Contiguous(files) && 0 in files
    ensures forall a: nat, b: nat :: 0 < a < b && b in Rotated(files, n) ==> a in Rotated(files, n)
  {
  }

  lemma AppendedStaysContiguous<T>(width: T -> nat, files: Files<T>, s: Settings, line: T)
    requires Contiguous(files)
    ensures Contiguous(Appended(width, files, s, line))
  {
    if Rotates(width, files, s) {
      RotatedStaysContiguous(files, s.Backups());
    }
  }

  lemma SafeAppendReads<T>(width: T -> nat, files: Files<T>, s: Settings, line: T) returns (lost: seq<T>, newer: seq<T>)
    requires Contiguous(files) && Safe(width, files, s)
    ensures Retained(files) == lost + newer
    ensures Retained(Appended(width, files, s, line)) == newer + [line]
  {
    AppendReads(width, files, s, line);
    if Rotates(width, files, s) {
      RotatedOlder(files, s.Backups(), 0);
      OlderFromActive(files);
      lost, newer := LostBy(files, s.Backups()), Older(Rotated(files, s.Backups()), 1);
    } else {
      lost, newer := [], Retained(files);
    }
  }

  /** Any append at all: what it leaves readable is what was there, less one stretch of lines, and the new line. */
  lemma AnyAppendReads<T>(width: T -> nat, files: Files<T>, s: Settings, line: T)
      returns (older: seq<T>, lost: seq<T>, newer: seq<T>)
    requires Contiguous(files)
    ensures Retained(files) == older + lost + newer
    ensures Retained(Appended(width, files, s, line)) == older + newer + [line]
    ensures if Safe(width, files, s) then older == [] else
      s.Backups() in files && older == Older(files, s.Backups() + 1) && lost == files[s.Backups()] && newer == Newer(files, s.Backups(), 0)
  {
    if Safe(width, files, s) {
      lost, newer := SafeAppendReads(width, files, s, line);
      older := [];
    } else {
      UnsafeAppendReads(width, files, s, line);
      older, lost, newer := Older(files, s.Backups() + 1), files[s.Backups()], Newer(files, s.Backups(), 0);
    }
  }

  lemma OlderNotEmpty<T>(files: Files<T>, n: nat)
    requires n in files && files[n] != []
    ensures Older(files, n) != []
  {
  }

  /** Exactly when one append leaves a reader with a gap-free tail of the history: when its rotation
      finds no backup beyond the configured count. Lines are told apart, as timestamps do. */
  lemma SuffixIffSafe<T(!new)>(width: T -> nat, files: Files<T>, s: Settings, line: T)
    requires Contiguous(files) && NoEmptyFile(files) && Distinct(Retained(files) + [line])
    ensures IsSuffix(Retained(Appended(width, files, s, line)), Retained(files) + [line])
        <==> Safe(width, files, s)
  {
    if Safe(width, files, s) {
      SafeAppend(width, files, s, line);
    } else {
      var n := s.Backups();
      UnsafeAppendReads(width, files, s, line);
      OlderNotEmpty(files, n + 1);
      Regroup(Older(files, n + 1) + files[n], Newer(files, n, 0), [line]);
      Regroup(Older(files, n + 1), Newer(files, n, 0), [line]);
      GapIsNoSuffix(Older(files, n + 1), files[n], Newer(files, n, 0) + [line]);
    }
  }

  // ----- whole runs

  datatype Write<T> = Write(settings: Settings, line: T)

  function Run<T>(width: T -> nat, writes: seq<Write<T>>): Files<T> {
    if writes == [] then map[]
    else
      var w := writes[|writes| - 1];
      Appended(width, Run(width, writes[..|writes| - 1]), w.settings, w.line)
  }

  /** Everything ever appended, oldest first. */
  function History<T>(writes: seq<Write<T>>): (h: seq<T>)
    ensures |h| == |writes|
  {
    if writes == [] then []
    else History(writes[..|writes| - 1]) + [writes[|writes| - 1].line]
  }

  ghost predicate SafeAt<T>(width: T -> nat, writes: seq<Write<T>>, i: nat)
    requires i < |writes|
  {
    Safe(width, Run(width, writes[..i]), writes[i].settings)
  }

  /** Every rotation of the run finds room for the backups that exist. */
  ghost predicate SafeRun<T>(width: T -> nat, writes: seq<Write<T>>) {
    forall i :: 0 <= i < |writes| ==> SafeAt(width, writes, i)
  }

  lemma PrefixRuns<T>(width: T -> nat, writes: seq<Write<T>>, n: nat)
    requires n <= |writes| && SafeRun(width, writes)
    ensures SafeRun(width, writes[..n])
  {
    forall i | 0 <= i < n
      ensures SafeAt(width, writes[..n], i)
    {
      assert writes[..n][..i] == writes[..i];
      assert SafeAt(width, writes, i);
    }
  }

  lemma SuffixTrans<T>(a: seq<T>, b: seq<T>, c: seq<T>, x: T)
    requires IsSuffix(a, b + [x]) && IsSuffix(b, c)
    ensures IsSuffix(a, c + [x])
  {
    assert (c + [x])[|c| - |b|..] == b + [x];
    assert (c + [x])[|c| + 1 - |a|..] == (c + [x])[|c| - |b|..][|b| + 1 - |a|..];
  }

  /** What every safe append keeps, against the history of everything appended. */
  ghost predicate Keeps<T(!new)>(files: Files<T>, history: seq<T>) {
    Contiguous(files) && NoEmptyFile(files) && IsSuffix(Retained(files), history)
  }

  lemma KeepsStep<T(!new)>(width: T -> nat, files: Files<T>, history: seq<T>, s: Settings, line: T)
    requires Keeps(files, history) && Safe(width, files, s)
    ensures Keeps(Appended(width, files, s, line), history + [line])
  {
    SafeAppend(width, files, s, line);
    SuffixTrans(Retained(Appended(width, files, s, line)), Retained(files), history, line);
  }

  /** What a reader finds after any safe run is exactly a suffix of everything ever appended. */
  lemma {:induction false} RunRetainsSuffix<T(!new)>(width: T -> nat, writes: seq<Write<T>>)
    requires SafeRun(width, writes)
    ensures Keeps(Run(width, writes), History(writes))
  {
    if writes != [] {
      var n := |writes| - 1;
      PrefixRuns(width, writes, n);
      RunRetainsSuffix(width, writes[..n]);
      var files, history := Run(width, writes[..n]), History(writes[..n]);
      assert SafeAt(width, writes, n);
      KeepsStep(width, files, history, writes[n].settings, writes[n].line);
    }
  }

  lemma {:induction false} HistoryAt<T>(writes: seq<Write<T>>, i: nat)
    requires i < |writes|
    ensures History(writes)[i] == writes[i].line
  {
    if i < |writes| - 1 {
      HistoryAt(writes[..|writes| - 1], i);
    }
  }

  /** The k-th line read is the k-th of the last so many lines appended. */
  ghost predicate EndsWithLines<T>(writes: seq<Write<T>>, kept: seq<T>) {
    |kept| <= |writes| && forall k :: 0 <= k < |kept| ==> kept[k] == writes[|writes| - |kept| + k].line
  }

  lemma SuffixReads<T>(writes: seq<Write<T>>, kept: seq<T>)
    requires IsSuffix(kept, History(writes))
    ensures EndsWithLines(writes, kept)
  {
    forall k | 0 <= k < |kept|
      ensures kept[k] == writes[|writes| - |kept| + k].line
    {
      HistoryAt(writes, |writes| - |kept| + k);
      assert kept[k] == History(writes)[|writes| - |kept|..][k];
    }
  }

  /** The retained suffix, line by line. */
  lemma RunReads<T(!new)>(width: T -> nat, writes: seq<Write<T>>)
    requires SafeRun(width, writes)
    ensures EndsWithLines(writes, Retained(Run(width, writes)))
  {
    RunRetainsSuffix(width, writes);
    SuffixReads(writes, Retained(Run(width, writes)));
  }

  /** The backup count is never lowered during the run; constant settings are the common case. */
  ghost predicate CountNeverLowered<T>(writes: seq<Write<T>>) {
    forall i, j :: 0 <= i <= j < |writes| ==> writes[i].settings.Backups() <= writes[j].settings.Backups()
  }

  lemma UpToStep<T>(width: T -> nat, files: Files<T>, s: Settings, line: T)
    requires UpTo(files, s.Backups())
    ensures UpTo(Appended(width, files, s, line), s.Backups())
  {
  }

  /** The backups configured by the last of the first `n` writes. */
  function LastCount<T>(writes: seq<Write<T>>, n: nat): nat
    requires n <= |writes|
  {
    if n == 0 then 0 else writes[n - 1].settings.Backups()
  }

  lemma RunNext<T>(width: T -> nat, writes: seq<Write<T>>, n: nat)
    requires n < |writes|
    ensures Run(width, writes[..n + 1]) == Appended(width, Run(width, writes[..n]), writes[n].settings, writes[n].line)
  {
    assert writes[..n + 1][..n] == writes[..n];
  }

  lemma UpToMore<T>(width: T -> nat, files: Files<T>, n: nat, s: Settings)
    requires UpTo(files, n) && n <= s.Backups()
    ensures UpTo(files, s.Backups()) && Safe(width, files, s)
  {
  }

  lemma CountGrows<T>(writes: seq<Write<T>>, n: nat)
    requires CountNeverLowered(writes) && n < |writes|
    ensures LastCount(writes, n) <= writes[n].settings.Backups()
  {
  }

  lemma RunUpToNext<T>(width: T -> nat, writes: seq<Write<T>>, n: nat, last: nat)
    requires n < |writes| && UpTo(Run(width, writes[..n]), last) && last <= writes[n].settings.Backups()
    ensures UpTo(Run(width, writes[..n + 1]), writes[n].settings.Backups())
  {
    RunNext(width, writes, n);
    UpToMore(width, Run(width, writes[..n]), last, writes[n].settings);
    UpToStep(width, Run(width, writes[..n]), writes[n].settings, writes[n].line);
  }

  lemma {:induction false} RunUpTo<T>(width: T -> nat, writes: seq<Write<T>>, n: nat)
    requires CountNeverLowered(writes) && n <= |writes|
    ensures UpTo(Run(width, writes[..n]), LastCount(writes, n))
  {
    if n > 0 {
      RunUpTo(width, writes, n - 1);
      CountGrows(writes, n - 1);
      RunUpToNext(width, writes, n - 1, LastCount(writes, n - 1));
    }
  }

  /** A run whose backup count is never lowered is safe, and never keeps more backups than configured. */
  lemma NeverLoweredIsSafe<T>(width: T -> nat, writes: seq<Write<T>>)
    requires CountNeverLowered(writes)
    ensures SafeRun(width, writes)
    ensures UpTo(Run(width, writes), LastCount(writes, |writes|))
  {
    forall n | 0 <= n < |writes|
      ensures SafeAt(width, writes, n)
    {
      RunUpTo(width, writes, n);
      CountGrows(writes, n);
      UpToMore(width, Run(width, writes[..n]), LastCount(writes, n), writes[n].settings);
    }
    RunUpTo(width, writes, |writes|);
    assert writes[..|writes|] == writes;
  }

  // ----- a lowered count, by example

  function OneByte<T>(line: T): nat { 1 }

  /** With one-byte lines and a one-byte limit every append to an existing file rotates it. */
  lemma OneLineAppend<T>(files: Files<T>, s: Settings, line: T)
    requires s.maxBytes == 1 && 0 in files && |files[0]| == 1
    ensures Appended(OneByte, files, s, line) == Rotated(files, s.Backups())[0 := [line]]
  {
    assert files[0][..0] == [];
    assert Size(OneByte, files[0]) == 1;
    assert Active(Rotated(files, s.Backups())) + [line] == [line];
  }

  lemma RunOne<T>(width: T -> nat, writes: seq<Write<T>>, w: Write<T>)
    ensures Run(width, writes + [w]) == Appended(width, Run(width, writes), w.settings, w.line)
  {
    assert (writes + [w])[..|writes|] == writes;
  }

  lemma FirstWrite<T>(w: Write<T>)
    ensures Run(OneByte, [w]) == map[0 := [w.line]]
  {
    RunOne(OneByte, [], w);
    assert [] + [w] == [w] && [] + [w.line] == [w.line];
  }

  lemma SecondWrite<T>(w0: Write<T>, w1: Write<T>)
    requires w1.settings == Settings(1, 1)
    ensures Run(OneByte, [w0, w1]) == map[0 := [w1.line], 1 := [w0.line]]
  {
    FirstWrite(w0);
    RunOne(OneByte, [w0], w1);
    assert [w0] + [w1] == [w0, w1];
    OneLineAppend(map[0 := [w0.line]], w1.settings, w1.line);
  }

  lemma ThirdWrite<T>(w0: Write<T>, w1: Write<T>, w2: Write<T>)
    requires w1.settings == Settings(1, 1) && w2.settings == Settings(1, 0)
    ensures Run(OneByte, [w0, w1, w2]) == map[0 := [w2.line], 1 := [w0.line]]
  {
    SecondWrite(w0, w1);
    RunOne(OneByte, [w0, w1], w2);
    assert [w0, w1] + [w2] == [w0, w1, w2];
    OneLineAppend(map[0 := [w1.line], 1 := [w0.line]], w2.settings, w2.line);
  }

  /** One backup is kept, then the count drops to zero: the active file is deleted, its older backup
      stays readable. */
  lemma LoweredCountGap<T>(w0: Write<T>, w1: Write<T>, w2: Write<T>)
    requires w1.settings == Settings(1, 1) && w2.settings == Settings(1, 0)
    ensures Retained(Run(OneByte, [w0, w1, w2])) == [w0.line, w2.line]
  {
    ThirdWrite(w0, w1, w2);
    ReadTwo([w2.line], [w0.line]);
  }

  lemma ReadTwo<T>(a: seq<T>, b: seq<T>)
    ensures Retained(map[0 := a, 1 := b]) == b + a
  {
    var f: Files<T> := map[0 := a, 1 := b];
    assert Older(f, 2) == [];
    assert Older(f, 1) == b;
  }

  // ----- how much is kept under constant settings

  ghost predicate Constant<T>(writes: seq<Write<T>>, s: Settings) {
    forall i :: 0 <= i < |writes| ==> writes[i].settings == s
  }

  /** Each file is below `maxBytes` before its last line; each backup reached `maxBytes`; and either
      nothing was ever dropped or every backup slot is full. */
  ghost predicate WellFilled<T>(width: T -> nat, files: Files<T>, s: Settings, history: seq<T>) {
    && Bounded(width, files, s)
    && (Retained(files) == history || Full(files, s.Backups()))
  }

  /** Below the limit before its last line. */
  predicate WithinOneLine<T>(width: T -> nat, lines: seq<T>, s: Settings) {
    lines != [] ==> Size(width, lines[..|lines| - 1]) < s.maxBytes
  }

  ghost predicate Bounded<T>(width: T -> nat, files: Files<T>, s: Settings) {
    && (forall k :: k in files ==> WithinOneLine(width, files[k], s))
    && (forall k :: k in files && k >= 1 ==> Size(width, files[k]) >= s.maxBytes)
  }

  predicate Full<T>(files: Files<T>, n: nat) {
    forall k: nat | 1 <= k <= n :: k in files
  }

  lemma FileAfter<T>(width: T -> nat, files: Files<T>, s: Settings, line: T, k: nat)
    requires k in Appended(width, files, s, line) && UpTo(files, s.Backups())
    ensures var after := Appended(width, files, s, line);
      if k == 0 then after[0] == (if Rotates(width, files, s) then [line] else Active(files) + [line])
      else if Rotates(width, files, s) then k - 1 in files && after[k] == files[k - 1]
      else k in files && after[k] == files[k]
  {
  }

  lemma ActiveStaysBounded<T>(width: T -> nat, files: Files<T>, s: Settings, line: T)
    requires s.maxBytes > 0
    ensures WithinOneLine(width, if Rotates(width, files, s) then [line] else Active(files) + [line], s)
  {
    assert [line][..0] == [];
    assert (Active(files) + [line])[..|Active(files)|] == Active(files);
  }

  lemma BoundedStep<T>(width: T -> nat, files: Files<T>, s: Settings, line: T)
    requires s.maxBytes > 0 && UpTo(files, s.Backups()) && Bounded(width, files, s)
    ensures Bounded(width, Appended(width, files, s, line), s)
  {
    var after := Appended(width, files, s, line);
    ActiveStaysBounded(width, files, s, line);
    forall k | k in after
      ensures WithinOneLine(width, after[k], s) && (k >= 1 ==> Size(width, after[k]) >= s.maxBytes)
    {
      FileAfter(width, files, s, line, k);
    }
  }

  lemma SlotsStayFull<T>(width: T -> nat, files: Files<T>, s: Settings, line: T)
    requires Contiguous(files) && 0 in files
    requires Full(files, s.Backups())
    ensures Full(Appended(width, files, s, line), s.Backups())
  {
    forall k: nat | 1 <= k <= s.Backups()
      ensures k in Appended(width, files, s, line)
    {
      assert k - 1 in files;
    }
  }

  lemma NothingLostYet<T>(width: T -> nat, files: Files<T>, s: Settings, line: T)
    requires Contiguous(files) && UpTo(files, s.Backups())
    requires s.Backups() !in files
    ensures Retained(Appended(width, files, s, line)) == Retained(files) + [line]
  {
    AppendReads(width, files, s, line);
    if Rotates(width, files, s) {
      RotatedOlder(files, s.Backups(), 0);
      OlderFromActive(files);
    }
  }

  lemma WellFilledStep<T(!new)>(width: T -> nat, files: Files<T>, s: Settings, history: seq<T>, line: T)
    requires s.maxBytes > 0 && UpTo(files, s.Backups()) && Contiguous(files)
    requires WellFilled(width, files, s, history)
    ensures WellFilled(width, Appended(width, files, s, line), s, history + [line])
  {
    BoundedStep(width, files, s, line);
    var n := s.Backups();
    if n in files {
      assert Full(files, n);
      SlotsStayFull(width, files, s, line);
    } else {
      NothingLostYet(width, files, s, line);
    }
  }

  lemma {:induction false} ConstantRunWellFilled<T(!new)>(width: T -> nat, writes: seq<Write<T>>, s: Settings)
    requires s.maxBytes > 0 && Constant(writes, s)
    ensures WellFilled(width, Run(width, writes), s, History(writes))
    ensures UpTo(Run(width, writes), s.Backups())
  {
    NeverLoweredIsSafe(width, writes);
    if writes != [] {
      var n := |writes| - 1;
      ConstantRunWellFilled(width, writes[..n], s);
      PrefixRuns(width, writes, n);
      RunRetainsSuffix(width, writes[..n]);
      WellFilledStep(width, Run(width, writes[..n]), s, History(writes[..n]), writes[n].line);
      assert History(writes) == History(writes[..n]) + [writes[n].line];
    }
  }

  lemma {:induction false} SizeConcat<T>(width: T -> nat, a: seq<T>, b: seq<T>)
    ensures Size(width, a + b) == Size(width, a) + Size(width, b)
  {
    if b == [] {
      assert a + b == a;
    } else {
      assert (a + b)[..|a + b| - 1] == a + b[..|b| - 1];
      SizeConcat(width, a, b[..|b| - 1]);
    }
  }

  /** `slots` files of at least `bytes` bytes each. */
  function Bytes(slots: nat, bytes: nat): nat {
    if slots == 0 then 0 else Bytes(slots - 1, bytes) + bytes
  }

  lemma {:induction false} BytesIsProduct(slots: nat, bytes: nat)
    ensures Bytes(slots, bytes) == slots * bytes
  {
    if slots > 0 {
      BytesIsProduct(slots - 1, bytes);
    }
  }

  lemma OlderSizeStep<T>(width: T -> nat, files: Files<T>, j: nat)
    requires j in files
    ensures Size(width, Older(files, j)) == Size(width, Older(files, j + 1)) + Size(width, files[j])
  {
    OlderUnfold(files, j);
    SizeConcat(width, Older(files, j + 1), files[j]);
  }

  ghost predicate Filled<T>(width: T -> nat, files: Files<T>, n: nat, bytes: nat) {
    forall k: nat | 1 <= k <= n :: k in files && Size(width, files[k]) >= bytes
  }

  lemma {:induction false} OlderSize<T>(width: T -> nat, files: Files<T>, n: nat, slots: nat, bytes: nat)
    requires slots <= n && Filled(width, files, n, bytes)
    ensures Size(width, Older(files, n + 1 - slots)) >= Bytes(slots, bytes)
  {
    if slots > 0 {
      OlderSize(width, files, n, slots - 1, bytes);
      OlderSizeStep(width, files, n + 1 - slots);
    }
  }

  /** What full backups hold. */
  lemma FullBackupsHold<T>(width: T -> nat, files: Files<T>, s: Settings)
    requires s.maxBytes > 0 && Bounded(width, files, s) && Full(files, s.Backups())
    ensures Size(width, Retained(files)) >= s.Backups() * s.maxBytes
  {
    OlderSize(width, files, s.Backups(), s.Backups(), s.maxBytes);
    BytesIsProduct(s.Backups(), s.maxBytes);
    SizeConcat(width, Older(files, 1), Active(files));
  }

  /** The promise of the two settings: once anything has been dropped, at least
      `backupCount * maxBytes` bytes of the most recent history are still there. */
  lemma RetentionFloor<T(!new)>(width: T -> nat, writes: seq<Write<T>>, s: Settings)
    requires s.maxBytes > 0 && Constant(writes, s)
    ensures var kept := Retained(Run(width, writes));
      && IsSuffix(kept, History(writes))
      && (kept != History(writes) ==> Size(width, kept) >= s.Backups() * s.maxBytes)
  {
    var files := Run(width, writes);
    NeverLoweredIsSafe(width, writes);
    RunRetainsSuffix(width, writes);
    ConstantRunWellFilled(width, writes, s);
    if Retained(files) != History(writes) {
      FullBackupsHold(width, files, s);
    }
  }

  // ----- rotation turned off

  lemma UnrotatedStep<T>(width: T -> nat, files: Files<T>, s: Settings, line: T)
    requires s.maxBytes <= 0 && forall k :: k in files ==> k == 0
    ensures var after := Appended(width, files, s, line);
      (forall k :: k in after ==> k == 0) && Retained(after) == Retained(files) + [line]
  {
    assert Older(files, 1) == [] && Older(Appended(width, files, s, line), 1) == [];
  }

  /** With a size of zero or less nothing is ever rotated: there is one file, and it holds the whole history. */
  lemma {:induction false} DisabledKeepsAll<T>(width: T -> nat, writes: seq<Write<T>>)
    requires forall i :: 0 <= i < |writes| ==> writes[i].settings.maxBytes <= 0
    ensures (forall k :: k in Run(width, writes) ==> k == 0) && Retained(Run(width, writes)) == History(writes)
  {
    if writes != [] {
      var n := |writes| - 1;
      DisabledKeepsAll(width, writes[..n]);
      UnrotatedStep(width, Run(width, writes[..n]), writes[n].settings, writes[n].line);
    }
  }
}
