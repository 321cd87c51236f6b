/** Installation with its journal, rollback and removal. Copies and unlinks fail
    as a `Faults` value says, for every such value. */
module Transactions {
  import opened Options
  import opened Buffers
  import opened Packages

  /** What a copy leaves at its target: the source's content, or anything at all. */
  datatype Copy = Copied | Broken(leftover: Option<Content>)

  /** Which steps fail: opening the manifest, opening and reopening the log, and
      the copies and unlinks of each loop, by position. Writes to the log are not
      checked: `kept` characters of it reach the disk. */
  datatype Faults = Faults(
    manifestOpens: bool, logOpens: bool, logReopens: bool, kept: nat,
    backup: nat -> bool, install: nat -> Copy,
    restore: nat -> Copy, unlink: nat -> bool,
    records: bool, commits: bool)

  /** A transaction directory. */
  datatype Transaction = Transaction(log: Option<string>, backup: Files, committed: bool)

  function Put(files: Files, path: Path, content: Option<Content>): Files {
    match content
    case None => files - {path}
    case Some(c) => files[path := c]
  }

  function Get(files: Files, path: Path): Option<Content> {
    if path in files then Some(files[path]) else None
  }

  // ----- First loop: the journal -----

  datatype Journal = Journal(paths: seq<Path>, backup: Files, failed: bool)

  /** A manifest line that names a path to install. */
  function Accepted(line: string): Option<Path> {
    match ManifestPath(line)
    case None => None
    case Some(rel) => if Critical(rel) then None else Some(rel)
  }

  /** What the manifest lines ask for, one by one: a safe path, or nothing acceptable. */
  type Steps = steps: seq<Option<Path>> | forall i :: 0 <= i < |steps| ==> SafeStep(steps[i]) witness []

  predicate SafeStep(step: Option<Path>) {
    step.Some? ==> SafeRel(step.value, false) && Loggable(step.value)
  }

  function StepsOf(lines: seq<string>): (steps: Steps)
    ensures |steps| == |lines| && forall i :: 0 <= i < |lines| ==> steps[i] == Accepted(lines[i])
  {
    seq(|lines|, i requires 0 <= i < |lines| => AcceptedSafe(lines[i]); Accepted(lines[i]))
  }

  lemma AcceptedSafe(line: string)
    ensures SafeStep(Accepted(line))
  {
    if Accepted(line).Some? {
      SafeIsLoggable(Accepted(line).value);
    }
  }

  /** One turn: the path is logged first, then its present content is saved. */
  function Log(j: Journal, rel: Path, files: Files, saved: bool): Journal {
    var logged := j.(paths := j.paths + [rel]);
    if rel !in files then logged
    else if saved then logged.(backup := j.backup[rel := files[rel]])
    else logged.(failed := true)
  }

  function Turn(j: Journal, step: Option<Path>, files: Files, saved: bool): Journal {
    if j.failed then j
    else
      match step
      case None => j.(failed := true)
      case Some(rel) => Log(j, rel, files, saved)
  }

  /** The journal after the first `n` lines; it stops at the first failure. */
  function JournalAfter(steps: Steps, files: Files, backup: Files, f: Faults, n: nat): Journal
    requires n <= |steps|
  {
    if n == 0 then Journal([], backup, false)
    else
      Turn(JournalAfter(steps, files, backup, f, n - 1), steps[n - 1], files, f.backup(n - 1))
  }

  // ----- Second loop: the copies -----

  datatype Progress = Progress(files: Files, failed: bool)

  function CopyIn(files: Files, payload: Files, rel: Path, copy: Copy): Progress {
    match copy
    case Copied => if rel in payload then Progress(files[rel := payload[rel]], false) else Progress(files, true)
    case Broken(left) => Progress(Put(files, rel, left), true)
  }

  function InstallAfter(paths: seq<Path>, payload: Files, files: Files, f: Faults, n: nat): Progress
    requires n <= |paths|
  {
    if n == 0 then Progress(files, false)
    else
      var p := InstallAfter(paths, payload, files, f, n - 1);
      if p.failed then p else CopyIn(p.files, payload, paths[n - 1], f.install(n - 1))
  }

  // ----- Rollback -----

  function Undo(files: Files, backup: Files, rel: Path, restore: Copy, unlinked: bool): Progress {
    if rel in backup then
      match restore
      case Copied => Progress(files[rel := backup[rel]], false)
      case Broken(left) => Progress(Put(files, rel, left), true)
    else if rel !in files then Progress(files, false)
    else if unlinked then Progress(files - {rel}, false)
    else Progress(files, true)
  }

  /** The files after undoing the first `n` logged paths, and whether a step failed. */
  function UndoAfter(paths: seq<Path>, backup: Files, files: Files, f: Faults, n: nat): Progress
    requires n <= |paths|
  {
    if n == 0 then Progress(files, false)
    else
      var p := UndoAfter(paths, backup, files, f, n - 1);
      if !SafeRel(paths[n - 1], false) then p
      else
        var u := Undo(p.files, backup, paths[n - 1], f.restore(n - 1), f.unlink(n - 1));
        Progress(u.files, p.failed || u.failed)
  }

  /** Removal unlinks the listed paths. */
  function RemoveAfter(paths: seq<Path>, files: Files, f: Faults, n: nat): Progress
    requires n <= |paths|
  {
    if n == 0 then Progress(files, false)
    else
      var p := RemoveAfter(paths, files, f, n - 1);
      var rel := paths[n - 1];
      if !SafeRel(rel, false) || rel !in p.files then p
      else if f.unlink(n - 1) then Progress(p.files - {rel}, p.failed)
      else Progress(p.files, true)
  }

  // ----- An installation -----

  /** What `install_package` has done when its loops are over: the log and the
      backup in the transaction directory, the files, and whether it failed. */
  datatype Attempt = Attempt(log: Option<string>, backup: Files, files: Files, failed: bool)

  /** The paths that the log names. */
  function Named(log: Option<string>): seq<string> {
    match log
    case None => []
    case Some(text) => ReadLines(text, 0)
  }

  /** Both loops, in a transaction directory that may have been used before. When
      the log cannot be reopened the second loop does nothing. */
  function Attempted(steps: Steps, payload: Files, files: Files, tx: Transaction, f: Faults): Attempt {
    if !f.manifestOpens || !f.logOpens then Attempt(tx.log, tx.backup, files, true)
    else
      var j := JournalAfter(steps, files, tx.backup, f, |steps|);
      var log := Some(Take(WriteLines(j.paths), f.kept));
      if j.failed || !f.logReopens then Attempt(log, j.backup, files, j.failed)
      else
        var named := Named(log);
        var p := InstallAfter(named, payload, files, f, |named|);
        Attempt(log, j.backup, p.files, p.failed)
  }

  /** `rollback_tx`: the files it leaves and its status, 2 without a log, 1 when a step failed, else 0. */
  function RolledBack(log: Option<string>, backup: Files, files: Files, f: Faults): (Files, int) {
    if log.None? then (files, 2)
    else
      var u := UndoAfter(Named(log), backup, files, f, |Named(log)|);
      (u.files, if u.failed then 1 else 0)
  }

  // ----- What they mean -----

  /** `after` is `before` with every safe listed path as the backup has it, absent where it has nothing. */
  ghost predicate Restores(before: Files, after: Files, paths: seq<Path>, backup: Files) {
    forall p: Path :: Get(after, p) ==
                      if p in paths && SafeRel(p, false) then Get(backup, p) else Get(before, p)
  }

  /** A rollback in which no step fails restores every logged path from the backup. */
  lemma {:induction false} UndoRestores(paths: seq<Path>, backup: Files, files: Files, f: Faults, n: nat)
    requires n <= |paths| && !UndoAfter(paths, backup, files, f, n).failed
    ensures Restores(files, UndoAfter(paths, backup, files, f, n).files, paths[..n], backup)
  {
    if n > 0 {
      UndoRestores(paths, backup, files, f, n - 1);
      assert paths[..n] == paths[..n - 1] + [paths[n - 1]];
    }
  }

  lemma SameFiles(a: Files, b: Files)
    requires forall p: Path :: Get(a, p) == Get(b, p)
    ensures a == b
  {
    forall p: Path ensures p in a <==> p in b {
      assert Get(a, p) == Get(b, p);
    }
    forall p: Path | p in a ensures a[p] == b[p] {
      assert Get(a, p) == Get(b, p);
    }
  }

  /** The loops stop at their first failure. */
  lemma {:induction false} JournalStops(steps: Steps, files: Files, backup: Files, f: Faults, i: nat, n: nat)
    requires i <= n <= |steps| && JournalAfter(steps, files, backup, f, i).failed
    ensures JournalAfter(steps, files, backup, f, n) == JournalAfter(steps, files, backup, f, i)
  {
    if i < n {
      JournalStops(steps, files, backup, f, i, n - 1);
    }
  }

  lemma {:induction false} InstallStops(paths: seq<Path>, payload: Files, files: Files, f: Faults, i: nat, n: nat)
    requires i <= n <= |paths| && InstallAfter(paths, payload, files, f, i).failed
    ensures InstallAfter(paths, payload, files, f, n) == InstallAfter(paths, payload, files, f, i)
  {
    if i < n {
      InstallStops(paths, payload, files, f, i, n - 1);
    }
  }

  /** The copies touch only logged paths, whatever an interrupted one leaves. */
  lemma {:induction false} InstallTouches(paths: seq<Path>, payload: Files, files: Files, f: Faults, n: nat)
    requires n <= |paths|
    ensures forall p: Path :: p !in paths ==> Get(InstallAfter(paths, payload, files, f, n).files, p) == Get(files, p)
  {
    if n > 0 {
      InstallTouches(paths, payload, files, f, n - 1);
    }
  }

  /** Without a failure every logged path holds the payload's content. */
  lemma {:induction false} InstallPuts(paths: seq<Path>, payload: Files, files: Files, f: Faults, n: nat)
    requires n <= |paths| && !InstallAfter(paths, payload, files, f, n).failed
    ensures forall p :: p in paths[..n] ==>
              p in payload && Get(InstallAfter(paths, payload, files, f, n).files, p) == Get(payload, p)
  {
    if n > 0 {
      InstallPuts(paths, payload, files, f, n - 1);
      assert paths[..n] == paths[..n - 1] + [paths[n - 1]];
    }
  }

  /** No step of a rollback fails. */
  ghost predicate Works(f: Faults) {
    forall i: nat :: f.restore(i).Copied? && f.unlink(i)
  }

  /** Then the rollback does not fail. */
  lemma {:induction false} WorkingUndo(paths: seq<Path>, backup: Files, files: Files, f: Faults, n: nat)
    requires n <= |paths| && Works(f)
    ensures !UndoAfter(paths, backup, files, f, n).failed
  {
    if n > 0 {
      WorkingUndo(paths, backup, files, f, n - 1);
      assert f.restore(n - 1).Copied? && f.unlink(n - 1);
    }
  }

  // ----- When a rollback restores the files -----

  /** Line `i` is reached and the present content of its path `p` is copied. */
  predicate CopiesAt(steps: Steps, files: Files, saved: Files, f: Faults, i: nat, p: Path)
    requires i < |steps|
  {
    !JournalAfter(steps, files, saved, f, i).failed && steps[i] == Some(p) && p in files && f.backup(i)
  }

  /** One of the first `n` lines copies `p`. */
  predicate CopyMade(steps: Steps, files: Files, saved: Files, f: Faults, n: nat, p: Path)
    requires n <= |steps|
    ensures CopyMade(steps, files, saved, f, n, p) ==> p in files
  {
    n > 0 && (CopyMade(steps, files, saved, f, n - 1, p) || CopiesAt(steps, files, saved, f, n - 1, p))
  }

  /** The path holds a file of which the directory has no copy: none was made, and
      an earlier transaction left none that is equal. */
  predicate Lost(steps: Steps, files: Files, saved: Files, f: Faults, p: Path) {
    p in files && !CopyMade(steps, files, saved, f, |steps|, p) && Get(saved, p) != Get(files, p)
  }

  /** The path holds no file, but an earlier transaction left a copy of one. */
  predicate Stale(files: Files, saved: Files, p: Path) {
    p !in files && p in saved
  }

  /** The backup directory after the journal: what was copied, else what was there before. */
  lemma {:induction false} BackupIs(steps: Steps, files: Files, saved: Files, f: Faults, n: nat, p: Path)
    requires n <= |steps|
    ensures Get(JournalAfter(steps, files, saved, f, n).backup, p) ==
            if CopyMade(steps, files, saved, f, n, p) then Get(files, p) else Get(saved, p)
  {
    if n > 0 {
      BackupIs(steps, files, saved, f, n - 1, p);
      TurnStep(JournalAfter(steps, files, saved, f, n - 1), steps[n - 1], files, f.backup(n - 1), p);
    }
  }

  /** What one line adds to the journal. */
  lemma TurnStep(j: Journal, step: Option<Path>, files: Files, copied: bool, p: Path)
    ensures var next := Turn(j, step, files, copied);
            && Get(next.backup, p) ==
               (if !j.failed && step == Some(p) && p in files && copied then Get(files, p) else Get(j.backup, p))
            && (p in next.paths <==> p in j.paths || (!j.failed && step == Some(p)))
  {
  }

  /** So the directory has what the files have at `p` exactly if `p` is neither lost nor stale. */
  lemma BackupMatches(steps: Steps, files: Files, saved: Files, f: Faults, p: Path)
    ensures Get(JournalAfter(steps, files, saved, f, |steps|).backup, p) == Get(files, p) <==>
            !Lost(steps, files, saved, f, p) && !Stale(files, saved, p)
  {
    BackupIs(steps, files, saved, f, |steps|, p);
  }

  /** No path that the log names is lost or stale. */
  ghost predicate Recoverable(steps: Steps, files: Files, saved: Files, f: Faults, named: seq<string>) {
    forall p :: p in named ==> !Lost(steps, files, saved, f, p) && !Stale(files, saved, p)
  }

  /** Undoing any state that differs from the original at most in the named paths
      gives the original back exactly when none of them is lost or stale. */
  lemma RestoredIff(steps: Steps, files: Files, saved: Files, f: Faults, named: seq<string>, mid: Files, after: Files)
    requires forall p :: p in named ==> SafeRel(p, false)
    requires forall p: Path :: p !in named ==> Get(mid, p) == Get(files, p)
    requires Restores(mid, after, named, JournalAfter(steps, files, saved, f, |steps|).backup)
    ensures after == files <==> Recoverable(steps, files, saved, f, named)
  {
    var backup := JournalAfter(steps, files, saved, f, |steps|).backup;
    forall p | p in named
      ensures Get(after, p) == Get(files, p) <==> !Lost(steps, files, saved, f, p) && !Stale(files, saved, p)
    {
      BackupMatches(steps, files, saved, f, p);
    }
    if Recoverable(steps, files, saved, f, named) {
      forall p: Path ensures Get(after, p) == Get(files, p) {
      }
      SameFiles(after, files);
    } else {
      var p :| p in named && !(!Lost(steps, files, saved, f, p) && !Stale(files, saved, p));
      assert Get(after, p) != Get(files, p);
    }
  }

  // ----- What the log names -----

  lemma {:induction false} JournalSafe(steps: Steps, files: Files, saved: Files, f: Faults, n: nat, j: Journal)
    requires n <= |steps| && j == JournalAfter(steps, files, saved, f, n)
    ensures forall p :: p in j.paths ==> SafeRel(p, false) && Loggable(p)
  {
    if n > 0 {
      var before := JournalAfter(steps, files, saved, f, n - 1);
      JournalSafe(steps, files, saved, f, n - 1, before);
      forall p | p in j.paths ensures SafeRel(p, false) && Loggable(p) {
        TurnStep(before, steps[n - 1], files, f.backup(n - 1), p);
      }
    }
  }

  /** The log names safe paths: those that were logged, as far as it reached the disk. */
  lemma LogNames(steps: Steps, files: Files, saved: Files, f: Faults)
    ensures var paths := JournalAfter(steps, files, saved, f, |steps|).paths;
            && Named(Some(Take(WriteLines(paths), f.kept))) == CutPaths(paths, f.kept)
            && (forall p :: p in CutPaths(paths, f.kept) ==> SafeRel(p, false))
            && (f.kept >= |WriteLines(paths)| ==> CutPaths(paths, f.kept) == paths)
  {
    var paths := JournalAfter(steps, files, saved, f, |steps|).paths;
    var text := Take(WriteLines(paths), f.kept);
    JournalSafe(steps, files, saved, f, |steps|, JournalAfter(steps, files, saved, f, |steps|));
    assert text[0..] == text;
    CutIsTake(paths, f.kept);
    CutRead(text, 0, paths, f.kept, ReadLines(text, 0));
    CutSafe(paths, f.kept);
    if f.kept >= |WriteLines(paths)| {
      WholeLog(paths, f.kept);
    }
  }

  /** The transaction directory is new, the log reaches the disk, and every backup copy is made. */
  ghost predicate Orderly(steps: Steps, files: Files, tx: Transaction, f: Faults) {
    && tx.backup == map[]
    && f.kept >= |WriteLines(JournalAfter(steps, files, tx.backup, f, |steps|).paths)|
    && forall i: nat :: f.backup(i)
  }

  lemma {:induction false} JournalCopies(steps: Steps, files: Files, saved: Files, f: Faults, n: nat, p: Path,
                                         paths: seq<Path>)
    requires n <= |steps| && (forall i: nat :: f.backup(i)) && p in files
    requires paths == JournalAfter(steps, files, saved, f, n).paths && p in paths
    ensures CopyMade(steps, files, saved, f, n, p)
  {
    if n > 0 {
      var before := JournalAfter(steps, files, saved, f, n - 1);
      TurnStep(before, steps[n - 1], files, f.backup(n - 1), p);
      if p in before.paths {
        JournalCopies(steps, files, saved, f, n - 1, p, before.paths);
      } else {
        assert f.backup(n - 1) && CopiesAt(steps, files, saved, f, n - 1, p);
      }
    }
  }

  /** Then nothing is lost or stale. */
  lemma OrderlyUndoable(steps: Steps, files: Files, tx: Transaction, f: Faults)
    requires f.manifestOpens && f.logOpens && Orderly(steps, files, tx, f)
    ensures Undoable(steps, files, tx, f)
  {
    var paths := JournalAfter(steps, files, tx.backup, f, |steps|).paths;
    LogNames(steps, files, tx.backup, f);
    forall p | p in paths ensures !Lost(steps, files, tx.backup, f, p) {
      if p in files {
        JournalCopies(steps, files, tx.backup, f, |steps|, p, paths);
      }
    }
  }

  /** A log cut inside a line names another path: what stands there is lost unless it was copied under its own name. */
  lemma CutLogLoses(steps: Steps, files: Files, f: Faults)
    requires steps == [Some("etc/passwd-new")] && f.kept == 10
    requires "etc/passwd" in files && "etc/passwd-new" !in files
    ensures var paths := JournalAfter(steps, files, map[], f, 1).paths;
            paths == ["etc/passwd-new"] && CutPaths(paths, f.kept) == ["etc/passwd"]
    ensures Lost(steps, files, map[], f, "etc/passwd")
  {
    var path := "etc/passwd-new";
    assert JournalAfter(steps, files, map[], f, 0) == Journal([], map[], false);
    assert path[..10] == "etc/passwd";
  }

  // ----- What a success installs -----

  /** The journal of a manifest that passed is the manifest: every line names a path, and all are logged in order. */
  lemma {:induction false} JournalIsManifest(steps: Steps, files: Files, saved: Files, f: Faults, n: nat,
                                             paths: seq<Path>)
    requires n <= |steps| && !JournalAfter(steps, files, saved, f, n).failed
    requires paths == JournalAfter(steps, files, saved, f, n).paths
    ensures |paths| == n && forall i :: 0 <= i < n ==> steps[i] == Some(paths[i])
  {
    if n > 0 {
      JournalIsManifest(steps, files, saved, f, n - 1, JournalAfter(steps, files, saved, f, n - 1).paths);
    }
  }

  /** What the second loop copies: the paths that the log on disk names, if it can be reopened. */
  function CopiedPaths(steps: Steps, files: Files, tx: Transaction, f: Faults): seq<Path> {
    if f.logReopens then CutPaths(JournalAfter(steps, files, tx.backup, f, |steps|).paths, f.kept) else []
  }

  /** After a success every copied path has the payload's content, every other path what it had. */
  lemma SuccessFiles(steps: Steps, payload: Files, files: Files, tx: Transaction, f: Faults)
    requires !Attempted(steps, payload, files, tx, f).failed
    ensures var a, copied := Attempted(steps, payload, files, tx, f), CopiedPaths(steps, files, tx, f);
            && (forall p :: p in copied ==> p in payload)
            && forall p: Path :: Get(a.files, p) == if p in copied then Get(payload, p) else Get(files, p)
  {
    LogNames(steps, files, tx.backup, f);
    var named := Named(Attempted(steps, payload, files, tx, f).log);
    if f.logReopens {
      InstallTouches(named, payload, files, f, |named|);
      InstallPuts(named, payload, files, f, |named|);
      assert named[..|named|] == named;
    }
  }

  /** Every path of the manifest holds the payload's content. */
  ghost predicate Installed(steps: Steps, payload: Files, files: Files) {
    forall p: Path :: Some(p) in steps ==> p in payload && Get(files, p) == Get(payload, p)
  }

  /** Every path of the manifest that is not copied holds it already. */
  ghost predicate Complete(steps: Steps, payload: Files, files: Files, tx: Transaction, f: Faults) {
    forall p: Path :: Some(p) in steps && p !in CopiedPaths(steps, files, tx, f) ==>
      p in payload && Get(files, p) == Get(payload, p)
  }

  /** When an installation that reports success has installed its package. */
  lemma InstalledIff(steps: Steps, payload: Files, files: Files, tx: Transaction, f: Faults)
    requires !Attempted(steps, payload, files, tx, f).failed
    ensures Installed(steps, payload, Attempted(steps, payload, files, tx, f).files) <==>
            Complete(steps, payload, files, tx, f)
  {
    SuccessFiles(steps, payload, files, tx, f);
    var after := Attempted(steps, payload, files, tx, f).files;
    if Installed(steps, payload, after) {
      forall p: Path | Some(p) in steps && p !in CopiedPaths(steps, files, tx, f)
        ensures p in payload && Get(files, p) == Get(payload, p)
      {
        assert Get(after, p) == Get(files, p);
      }
    }
    if Complete(steps, payload, files, tx, f) {
      forall p: Path | Some(p) in steps ensures p in payload && Get(after, p) == Get(payload, p) {
        assert Get(after, p) == if p in CopiedPaths(steps, files, tx, f) then Get(payload, p) else Get(files, p);
      }
    }
  }

  lemma LoggedAll(steps: Steps, paths: seq<Path>)
    requires |paths| == |steps| && forall i :: 0 <= i < |steps| ==> steps[i] == Some(paths[i])
    ensures forall p: Path :: Some(p) in steps <==> p in paths
  {
    forall p: Path | p in paths ensures Some(p) in steps {
      var i :| 0 <= i < |paths| && paths[i] == p;
      assert steps[i] == Some(p);
    }
  }

  lemma WholeLogCopies(steps: Steps, files: Files, tx: Transaction, f: Faults)
    requires !JournalAfter(steps, files, tx.backup, f, |steps|).failed && f.logReopens
    requires f.kept >= |WriteLines(JournalAfter(steps, files, tx.backup, f, |steps|).paths)|
    ensures forall p: Path :: Some(p) in steps ==> p in CopiedPaths(steps, files, tx, f)
  {
    var paths := JournalAfter(steps, files, tx.backup, f, |steps|).paths;
    LogNames(steps, files, tx.backup, f);
    JournalIsManifest(steps, files, tx.backup, f, |steps|, paths);
    LoggedAll(steps, paths);
  }

  /** With a log that reaches the disk and is reopened a success always has. */
  lemma WholeLogInstalls(steps: Steps, payload: Files, files: Files, tx: Transaction, f: Faults)
    requires !Attempted(steps, payload, files, tx, f).failed && f.logReopens
    requires f.kept >= |WriteLines(JournalAfter(steps, files, tx.backup, f, |steps|).paths)|
    ensures Installed(steps, payload, Attempted(steps, payload, files, tx, f).files)
  {
    WholeLogCopies(steps, files, tx, f);
    InstalledIff(steps, payload, files, tx, f);
  }

  /** A log that cannot be reopened: success, and no file has changed. */
  lemma UnreadLogInstallsNothing(steps: Steps, payload: Files, files: Files, tx: Transaction, f: Faults)
    requires f.manifestOpens && f.logOpens && !f.logReopens
    requires !JournalAfter(steps, files, tx.backup, f, |steps|).failed
    ensures var a := Attempted(steps, payload, files, tx, f); !a.failed && a.files == files
    ensures Installed(steps, payload, files) <==> Complete(steps, payload, files, tx, f)
  {
    InstalledIff(steps, payload, files, tx, f);
  }

  /** A log cut at a line break: success, and the second of two new files is missing. */
  lemma CutLogInstallsLess(steps: Steps, payload: Files, f: Faults)
    requires steps == [Some("a"), Some("b")] && "a" in payload && "b" in payload
    requires f.manifestOpens && f.logOpens && f.logReopens && f.kept == 2 && f.install(0).Copied?
    ensures var a := Attempted(steps, payload, map[], Transaction(None, map[], false), f);
            && !a.failed && a.files == map["a" := payload["a"]] && a.log == Some("a\n")
            && !Installed(steps, payload, a.files)
  {
    var tx, none: Files := Transaction(None, map[], false), map[];
    TwoNewPaths(steps, none, f);
    LogNames(steps, none, none, f);
    var a := Attempted(steps, payload, none, tx, f);
    assert Named(a.log) == ["a"];
    OneCopy(payload, none, f);
    assert steps[1] == Some("b") && "b" !in a.files;
  }

  lemma TwoNewPaths(steps: Steps, files: Files, f: Faults)
    requires steps == [Some("a"), Some("b")] && files == map[]
    ensures JournalAfter(steps, files, map[], f, 2) == Journal(["a", "b"], map[], false)
    ensures Take(WriteLines(["a", "b"]), 2) == "a\n" && CutPaths(["a", "b"], 2) == ["a"]
  {
    var one := JournalAfter(steps, files, map[], f, 1);
    assert JournalAfter(steps, files, map[], f, 0) == Journal([], map[], false);
    assert one == Turn(Journal([], map[], false), Some("a"), files, f.backup(0)) == Journal(["a"], map[], false);
    assert Turn(one, Some("b"), files, f.backup(1)) == Journal(["a", "b"], map[], false);
    TwoLines();
  }

  lemma TwoLines()
    ensures WriteLines(["a", "b"]) == "a\n" + "b\n" && CutPaths(["a", "b"], 2) == ["a"]
  {
    assert ["a", "b"][..1] == ["a"] && ["a"][..0] == [] && ["a", "b"][1..] == ["b"];
    assert WriteLines(["a"]) == WriteLines([]) + "a" + "\n" == "a\n";
  }

  lemma OneCopy(payload: Files, files: Files, f: Faults)
    requires "a" in payload && f.install(0).Copied?
    ensures InstallAfter(["a"], payload, files, f, 1) == Progress(files["a" := payload["a"]], false)
  {
    assert InstallAfter(["a"], payload, files, f, 0) == Progress(files, false);
  }

  // ----- Atomicity -----

  /** An installation changes nothing but the paths that its log names. */
  lemma AttemptTouches(steps: Steps, payload: Files, files: Files, tx: Transaction, f: Faults)
    ensures var a := Attempted(steps, payload, files, tx, f);
            forall p: Path :: p !in Named(a.log) || !SafeRel(p, false) ==> Get(a.files, p) == Get(files, p)
  {
    var a := Attempted(steps, payload, files, tx, f);
    LogNames(steps, files, tx.backup, f);
    InstallTouches(Named(a.log), payload, files, f, |Named(a.log)|);
  }

  lemma UndoAll(paths: seq<Path>, backup: Files, files: Files, f: Faults)
    requires !UndoAfter(paths, backup, files, f, |paths|).failed
    ensures Restores(files, UndoAfter(paths, backup, files, f, |paths|).files, paths, backup)
  {
    UndoRestores(paths, backup, files, f, |paths|);
    assert paths[..|paths|] == paths;
  }

  /** Rolling back twice is rolling back once, whatever fails in other rollbacks. */
  lemma RollsBackTwice(log: Option<string>, backup: Files, files: Files, f: Faults, again: Faults)
    requires RolledBack(log, backup, files, f).1 == 0
    requires RolledBack(log, backup, RolledBack(log, backup, files, f).0, again).1 == 0
    ensures RolledBack(log, backup, RolledBack(log, backup, files, f).0, again) == RolledBack(log, backup, files, f)
  {
    var once := RolledBack(log, backup, files, f).0;
    var twice := RolledBack(log, backup, once, again).0;
    UndoAll(Named(log), backup, files, f);
    UndoAll(Named(log), backup, once, again);
    forall p: Path ensures Get(once, p) == Get(twice, p) {
    }
    SameFiles(once, twice);
  }

  /** When a rollback that follows an installation restores the files: no named
      path is lost or stale. If the manifest or the log did not open, the log is that
      of an earlier transaction, which must have nothing left to restore. */
  ghost predicate Undoable(steps: Steps, files: Files, tx: Transaction, f: Faults) {
    if f.manifestOpens && f.logOpens then
      Recoverable(steps, files, tx.backup, f, CutPaths(JournalAfter(steps, files, tx.backup, f, |steps|).paths, f.kept))
    else
      forall p :: p in Named(tx.log) && SafeRel(p, false) ==> Get(tx.backup, p) == Get(files, p)
  }

  /** The exact condition, for the files that the installation left and for any
      others that differ from them in the named paths alone. */
  lemma RollbackIff(steps: Steps, payload: Files, files: Files, tx: Transaction, f: Faults,
                    mid: Files, after: Files)
    requires var a := Attempted(steps, payload, files, tx, f);
             && (forall p: Path :: p !in Named(a.log) || !SafeRel(p, false) ==> Get(mid, p) == Get(files, p))
             && Restores(mid, after, Named(a.log), a.backup)
    ensures after == files <==> Undoable(steps, files, tx, f)
  {
    var a := Attempted(steps, payload, files, tx, f);
    if f.manifestOpens && f.logOpens {
      LogNames(steps, files, tx.backup, f);
      RestoredIff(steps, files, tx.backup, f, Named(a.log), mid, after);
    } else if Undoable(steps, files, tx, f) {
      forall p: Path ensures Get(after, p) == Get(files, p) {
      }
      SameFiles(after, files);
    } else {
      var p :| p in Named(tx.log) && SafeRel(p, false) && Get(tx.backup, p) != Get(files, p);
      assert Get(after, p) == Get(tx.backup, p);
    }
  }

  /** So a rollback of an installation in which no step fails restores the files
      exactly when the installation can be undone. */
  lemma RestoredExactly(steps: Steps, payload: Files, files: Files, tx: Transaction, f: Faults, undo: Faults)
    requires var a := Attempted(steps, payload, files, tx, f); RolledBack(a.log, a.backup, a.files, undo).1 == 0
    ensures var a := Attempted(steps, payload, files, tx, f);
            RolledBack(a.log, a.backup, a.files, undo).0 == files <==> Undoable(steps, files, tx, f)
  {
    var a := Attempted(steps, payload, files, tx, f);
    UndoAll(Named(a.log), a.backup, a.files, undo);
    AttemptTouches(steps, payload, files, tx, f);
    RollbackIff(steps, payload, files, tx, f, a.files, RolledBack(a.log, a.backup, a.files, undo).0);
  }

  /** A rollback all of whose steps work reports success. */
  lemma WorkingRollback(log: Option<string>, backup: Files, files: Files, f: Faults)
    requires log.Some? && Works(f)
    ensures RolledBack(log, backup, files, f).1 == 0
  {
    WorkingUndo(Named(log), backup, files, f, |Named(log)|);
  }

  /** Atomicity: in an orderly transaction directory, a working rollback restores
      the files, wherever the loops stopped and whatever a broken copy left. */
  lemma Atomic(steps: Steps, payload: Files, files: Files, tx: Transaction, f: Faults, undo: Faults)
    requires f.manifestOpens && f.logOpens && Orderly(steps, files, tx, f) && Works(undo)
    ensures var a := Attempted(steps, payload, files, tx, f); RolledBack(a.log, a.backup, a.files, undo) == (files, 0)
  {
    var a := Attempted(steps, payload, files, tx, f);
    WorkingRollback(a.log, a.backup, a.files, undo);
    OrderlyUndoable(steps, files, tx, f);
    RestoredExactly(steps, payload, files, tx, f, undo);
  }

  /** The files and the rollback's status after an attempt that is rolled back if it failed. */
  function Finished(a: Attempt, undo: Faults): (Files, int) {
    if a.failed then RolledBack(a.log, a.backup, a.files, undo) else (a.files, 0)
  }

  /** A failed installation with its rollback: undone exactly when it can be, if the
      rollback succeeds, and always with working steps in an orderly directory. */
  lemma FailureUndone(steps: Steps, payload: Files, files: Files, tx: Transaction, f: Faults, undo: Faults)
    ensures var a := Attempted(steps, payload, files, tx, f);
            var (after, status) := RolledBack(a.log, a.backup, a.files, undo);
            && (status == 0 ==> (after == files <==> Undoable(steps, files, tx, f)))
            && (f.manifestOpens && f.logOpens && Works(undo) && Orderly(steps, files, tx, f) ==>
                  (after, status) == (files, 0))
  {
    var a := Attempted(steps, payload, files, tx, f);
    if RolledBack(a.log, a.backup, a.files, undo).1 == 0 {
      RestoredExactly(steps, payload, files, tx, f, undo);
    }
    if f.manifestOpens && f.logOpens && Works(undo) && Orderly(steps, files, tx, f) {
      Atomic(steps, payload, files, tx, f, undo);
    }
  }

  /** A stale copy makes a rollback create a file that was never there. */
  lemma StaleBackupResurrects(steps: Steps, payload: Files, files: Files, tx: Transaction, f: Faults,
                              undo: Faults, p: Path)
    requires f.manifestOpens && f.logOpens && Works(undo)
    requires p in Named(Attempted(steps, payload, files, tx, f).log) && Stale(files, tx.backup, p)
    ensures var a := Attempted(steps, payload, files, tx, f);
            Get(RolledBack(a.log, a.backup, a.files, undo).0, p) == Some(tx.backup[p])
  {
    var a := Attempted(steps, payload, files, tx, f);
    WorkingRollback(a.log, a.backup, a.files, undo);
    UndoAll(Named(a.log), a.backup, a.files, undo);
    LogNames(steps, files, tx.backup, f);
    BackupIs(steps, files, tx.backup, f, |steps|, p);
    assert Get(a.backup, p) == Some(tx.backup[p]) && SafeRel(p, false);
  }

  // ----- Removal -----

  /** A removal in which no step fails is a restoration from an empty backup. */
  lemma {:induction false} RemovalClears(paths: seq<Path>, files: Files, f: Faults, n: nat)
    requires n <= |paths| && !RemoveAfter(paths, files, f, n).failed
    ensures Restores(files, RemoveAfter(paths, files, f, n).files, paths[..n], map[])
  {
    if n > 0 {
      RemovalClears(paths, files, f, n - 1);
      assert paths[..n] == paths[..n - 1] + [paths[n - 1]];
    }
  }

  /** So removing an installed package, unlike rolling it back, gives the original
      files back exactly when it replaced none. */
  lemma RemovalAfterInstall(steps: Steps, payload: Files, files: Files, tx: Transaction, f: Faults, undo: Faults)
    requires var a := Attempted(steps, payload, files, tx, f);
             && f.manifestOpens && f.logOpens
             && !RemoveAfter(Named(a.log), a.files, undo, |Named(a.log)|).failed
    ensures var a := Attempted(steps, payload, files, tx, f);
            RemoveAfter(Named(a.log), a.files, undo, |Named(a.log)|).files == files <==>
            forall p :: p in Named(a.log) ==> p !in files
  {
    var a := Attempted(steps, payload, files, tx, f);
    var named := Named(a.log);
    var after := RemoveAfter(named, a.files, undo, |named|).files;
    LogNames(steps, files, tx.backup, f);
    AttemptTouches(steps, payload, files, tx, f);
    RemovalClears(named, a.files, undo, |named|);
    assert named[..|named|] == named;
    if forall p :: p in named ==> p !in files {
      forall p: Path ensures Get(after, p) == Get(files, p) {
      }
      SameFiles(after, files);
    } else {
      var p :| p in named && p in files;
      assert Get(after, p) == None;
    }
  }
}
