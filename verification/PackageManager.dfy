/** The package manager of a host: it changes the files, the transaction
    directories and the package database step by step. */
module PackageManager {
  import opened Options
  import opened Buffers
  import opened Packages
  import opened Transactions

  const NEW: Transaction := Transaction(None, map[], false)

  /** The transaction directory of a process, as an earlier one of that number left it. */
  function Opened(transactions: map<string, Transaction>, id: string): Transaction {
    if id in transactions then transactions[id] else NEW
  }

  /** The database after an installation that did not fail, if it could record it. */
  function Recorded(packages: map<string, string>, name: string, a: Attempt, f: Faults): map<string, string> {
    if !a.failed && f.records && a.log.Some? then packages[name := a.log.value] else packages
  }

  class Host {
    var files: Files
    var transactions: map<string, Transaction>
    var packages: map<string, string>

    /** `rollback_tx`. */
    method Rollback(id: string, f: Faults) returns (code: int)
      modifies this`files
      ensures var tx := Opened(transactions, id); (files, code) == RolledBack(tx.log, tx.backup, old(files), f)
    {
      if id !in transactions || transactions[id].log.None? {
        return 2;
      }
      var rels, backup := ReadLines(transactions[id].log.value, 0), transactions[id].backup;
      code := 0;
      for i := 0 to |rels|
        invariant var u := UndoAfter(rels, backup, old(files), f, i);
                  files == u.files && code == if u.failed then 1 else 0
      {
        var rel := rels[i];
        if SafeRel(rel, false) {
          if rel in backup {
            files := files - {rel};
            match f.restore(i) {
              case Copied => files := files[rel := backup[rel]];
              case Broken(left) => files, code := Put(files, rel, left), 1;
            }
          } else if rel in files {
            if f.unlink(i) {
              files := files - {rel};
            } else {
              code := 1;
            }
          }
        }
      }
    }

    /** The first loop of `install_package`: log every path, then save its content. */
    method WriteJournal(lines: seq<string>, saved: Files, f: Faults)
      returns (log: string, backup: Files, failed: bool)
      ensures var j := JournalAfter(StepsOf(lines), files, saved, f, |lines|);
              log == WriteLines(j.paths) && backup == j.backup && failed == j.failed
    {
      ghost var steps := StepsOf(lines);
      ghost var paths: seq<Path> := [];
      log, backup, failed := "", saved, false;
      var i := 0;
      while !failed && i < |lines|
        invariant i <= |lines|
        invariant Journal(paths, backup, failed) == JournalAfter(steps, files, saved, f, i)
        invariant log == WriteLines(paths)
      {
        assert steps[i] == Accepted(lines[i]);
        var rel := ManifestPath(lines[i]);
        if rel.None? || Critical(rel.value) {
          failed := true;
        } else {
          log := log + rel.value + "\n";
          paths := paths + [rel.value];
          if rel.value in files {
            if f.backup(i) {
              backup := backup[rel.value := files[rel.value]];
            } else {
              failed := true;
            }
          }
        }
        i := i + 1;
      }
      if failed {
        JournalStops(steps, files, saved, f, i, |lines|);
      }
    }

    /** The second loop: copy the payload of every logged path. */
    method CopyPayload(rels: seq<Path>, payload: Files, f: Faults) returns (failed: bool)
      modifies this`files
      ensures Progress(files, failed) == InstallAfter(rels, payload, old(files), f, |rels|)
    {
      failed := false;
      var i := 0;
      while !failed && i < |rels|
        invariant i <= |rels|
        invariant Progress(files, failed) == InstallAfter(rels, payload, old(files), f, i)
      {
        var rel := rels[i];
        match f.install(i) {
          case Copied =>
            if rel in payload {
              files := files[rel := payload[rel]];
            } else {
              failed := true;
            }
          case Broken(left) => files, failed := Put(files, rel, left), true;
        }
        i := i + 1;
      }
      if failed {
        InstallStops(rels, payload, old(files), f, i, |rels|);
      }
    }

    /** Both loops of `install_package`, in the transaction directory of the process `id`. */
    method Attempt(lines: seq<string>, payload: Files, id: string, f: Faults) returns (failed: bool)
      modifies this`files, this`transactions
      ensures var tx := Opened(old(transactions), id);
              var a := Attempted(StepsOf(lines), payload, old(files), tx, f);
              && failed == a.failed && files == a.files
              && transactions == old(transactions)[id := Transaction(a.log, a.backup, tx.committed)]
    {
      var tx := Opened(transactions, id);
      if !f.manifestOpens || !f.logOpens {
        transactions := transactions[id := tx];
        return true;
      }
      var log, backup;
      log, backup, failed := WriteJournal(lines, tx.backup, f);
      log := Take(log, f.kept);
      transactions := transactions[id := Transaction(Some(log), backup, tx.committed)];
      if !failed && f.logReopens {
        failed := CopyPayload(ReadLines(log, 0), payload, f);
      }
    }

    /** `install_package` after verification, for the process `id`; `undo` is the
        status of the rollback it applies when it fails. */
    method Install(lines: seq<string>, payload: Files, name: string, id: string, f: Faults)
      returns (code: int, undo: int)
      modifies this
      ensures var tx := Opened(old(transactions), id);
              var a := Attempted(StepsOf(lines), payload, old(files), tx, f);
              && code == (if a.failed then 1 else 0)
              && transactions ==
                 old(transactions)[id := Transaction(a.log, a.backup, tx.committed || (!a.failed && f.commits))]
              && packages == Recorded(old(packages), name, a, f)
              && (files, undo) == Finished(a, f)
      // A success has installed the package exactly when the log on disk let it ...
      ensures code == 0 ==>
                (Installed(StepsOf(lines), payload, files) <==>
                 Complete(StepsOf(lines), payload, old(files), Opened(old(transactions), id), f))
      // ... a failure whose rollback succeeds is undone exactly when it can be ...
      ensures code == 1 && undo == 0 ==>
                (files == old(files) <==> Undoable(StepsOf(lines), old(files), Opened(old(transactions), id), f))
      // ... and a failure in an orderly directory is undone whenever the rollback's own steps work.
      ensures (code == 1 && f.manifestOpens && f.logOpens && Works(f) &&
               Orderly(StepsOf(lines), old(files), Opened(old(transactions), id), f)) ==>
                undo == 0 && files == old(files)
    {
      ghost var steps, was, tx := StepsOf(lines), files, Opened(transactions, id);
      code, undo := Carry(lines, payload, name, id, f);
      if code == 0 {
        InstalledIff(steps, payload, was, tx, f);
      } else {
        FailureUndone(steps, payload, was, tx, f, f);
      }
    }

    /** The steps of `install_package`: both loops, then the rollback or the record of the success. */
    method Carry(lines: seq<string>, payload: Files, name: string, id: string, f: Faults)
      returns (code: int, undo: int)
      modifies this
      ensures var tx := Opened(old(transactions), id);
              var a := Attempted(StepsOf(lines), payload, old(files), tx, f);
              && code == (if a.failed then 1 else 0)
              && transactions ==
                 old(transactions)[id := Transaction(a.log, a.backup, tx.committed || (!a.failed && f.commits))]
              && packages == Recorded(old(packages), name, a, f)
              && (files, undo) == Finished(a, f)
    {
      ghost var tx := Opened(transactions, id);
      ghost var a := Attempted(StepsOf(lines), payload, files, tx, f);
      var failed := Attempt(lines, payload, id, f);
      code, undo := Conclude(failed, name, id, f, a);
    }

    /** What follows the loops: the rollback of a failure, or the record of a success. */
    method Conclude(failed: bool, name: string, id: string, f: Faults, ghost a: Attempt)
      returns (code: int, undo: int)
      requires failed == a.failed && files == a.files && (!failed ==> a.log.Some?)
      requires id in transactions && transactions[id].log == a.log && transactions[id].backup == a.backup
      modifies this
      ensures code == (if a.failed then 1 else 0) && (files, undo) == Finished(a, f)
      ensures packages == Recorded(old(packages), name, a, f)
      ensures var tx := old(transactions)[id];
              transactions == old(transactions)[id := tx.(committed := tx.committed || (!a.failed && f.commits))]
    {
      if failed {
        code := 1;
        undo := Rollback(id, f);
      } else {
        code, undo := 0, 0;
        Commit(name, id, f);
      }
    }

    /** What follows a success: the list goes to the database, and the transaction is marked. */
    method Commit(name: string, id: string, f: Faults)
      requires id in transactions && transactions[id].log.Some?
      modifies this`transactions, this`packages
      ensures packages == if f.records then old(packages)[name := old(transactions)[id].log.value] else old(packages)
      ensures var tx := old(transactions)[id];
              transactions == old(transactions)[id := tx.(committed := tx.committed || f.commits)]
    {
      var tx := transactions[id];
      if f.records {
        packages := packages[name := tx.log.value];
      }
      if f.commits {
        tx := tx.(committed := true);
      }
      transactions := transactions[id := tx];
    }

    /** `remove_package`, for root: the listed files go, and the list with them. */
    method Remove(name: string, f: Faults) returns (code: int)
      modifies this`files, this`packages
      ensures !SafeRel(name, true) || name !in old(packages) ==>
                code == 2 && files == old(files) && packages == old(packages)
      ensures SafeRel(name, true) && name in old(packages) ==>
                var paths := ReadLines(old(packages)[name], 0);
                var p := RemoveAfter(paths, old(files), f, |paths|);
                && packages == old(packages) - {name}
                && files == p.files && code == (if p.failed then 1 else 0)
                && (code == 0 ==> Restores(old(files), files, paths, map[]))
    {
      if !SafeRel(name, true) || name !in packages {
        return 2;
      }
      code := 0;
      var rels := ReadLines(packages[name], 0);
      for i := 0 to |rels|
        invariant packages == old(packages)
        invariant Progress(files, code == 1) == RemoveAfter(rels, old(files), f, i) && code in {0, 1}
      {
        if SafeRel(rels[i], false) && rels[i] in files {
          if f.unlink(i) {
            files := files - {rels[i]};
          } else {
            code := 1;
          }
        }
      }
      packages := packages - {name};
      if code == 0 {
        RemovalClears(rels, old(files), f, |rels|);
        assert rels[..|rels|] == rels;
      }
    }

    /** Installing packages one after the other, each in a new transaction directory. */
    method InstallAll(todo: seq<Package>, installs: seq<Faults>, ghost all: seq<Attempt>) returns (ok: bool)
      requires |installs| == |todo| && all == AttemptsOf(todo, installs, files)
      requires forall i :: 0 <= i < |todo| ==> todo[i].id !in transactions
      requires forall i, k :: 0 <= i < k < |todo| ==> todo[i].id != todo[k].id
      modifies this
      ensures ok <==> Succeed(all, |todo|)
      ensures ok ==> files == FilesAt(all, old(files), |todo|) && Logged(todo, all, transactions, |todo|)
    {
      ghost var was := files;
      for i := 0 to |todo|
        invariant files == FilesAt(all, was, i)
        invariant Pending(todo, transactions, i) && Logged(todo, all, transactions, i)
        invariant Succeed(all, i)
      {
        AttemptAt(todo, installs, was, i, all);
        ghost var before := transactions;
        var installed := InstallNext(todo[i], installs[i], all[i]);
        if !installed {
          SucceedAt(all, |todo|, i);
          return false;
        }
        LoggedStep(todo, all, before, transactions, i);
      }
      return true;
    }

    method InstallNext(p: Package, f: Faults, ghost a: Attempt) returns (ok: bool)
      requires p.id !in transactions && a == AttemptFor(p, files, f)
      modifies this
      ensures ok <==> !a.failed
      ensures ok ==> files == a.files
      ensures p.id in transactions && LoggedAs(a, transactions[p.id])
      ensures Untouched(p.id, old(transactions), transactions)
    {
      var code, _ := Install(p.lines, p.payload, p.name, p.id, f);
      return code == 0;
    }

    /** Rolling them back in reverse order. */
    method UnwindAll(todo: seq<Package>, undos: seq<Faults>, ghost installs: seq<Faults>, ghost all: seq<Attempt>,
                     ghost was: Files)
      returns (ok: bool)
      requires |installs| == |undos| == |todo| && all == AttemptsOf(todo, installs, was)
      requires files == FilesAt(all, was, |todo|) && Logged(todo, all, transactions, |todo|)
      modifies this`files
      ensures AllUndoable(todo, installs, all, was) ==>
                && (ok ==> files == was)
                && (ok <==> UndosWork(all, undos, 0))
    {
      ghost var sound := AllUndoable(todo, installs, all, was);
      var i: nat := |todo|;
      while i > 0
        invariant i <= |todo|
        invariant sound ==> files == FilesAt(all, was, i)
        invariant sound ==> UndosWork(all, undos, i)
      {
        i := i - 1;
        if sound {
          AttemptAt(todo, installs, was, i, all);
          assert CanUndo(todo, installs, all, was, i);
        }
        var undone := UndoNext(todo[i], undos[i], installs[i], all[i], FilesAt(all, was, i), sound);
        if !undone {
          if sound {
            UndosWorkAt(all, undos, 0, i);
          }
          return false;
        }
      }
      return true;
    }

    method UndoNext(p: Package, undo: Faults, ghost f: Faults, ghost a: Attempt, ghost before: Files, ghost sound: bool)
      returns (ok: bool)
      requires p.id in transactions && LoggedAs(a, transactions[p.id])
      requires sound ==> a == AttemptFor(p, before, f) && files == a.files
      requires sound ==> Undoable(StepsOf(p.lines), before, NEW, f)
      modifies this`files
      ensures sound ==> (ok <==> UndoWorks(a, undo)) && (ok ==> files == before)
    {
      var code := Rollback(p.id, undo);
      if code == 0 && sound {
        RestoredExactly(StepsOf(p.lines), p.payload, before, NEW, f, undo);
      }
      return code == 0;
    }

    /** Installing packages and rolling the transactions back in reverse order
        restores the files, if each installation can be undone; and it is carried
        through exactly when every installation succeeds and no step of a rollback fails. */
    method InstallThenUnwind(todo: seq<Package>, installs: seq<Faults>, undos: seq<Faults>) returns (ok: bool)
      requires |installs| == |undos| == |todo|
      requires forall i :: 0 <= i < |todo| ==> todo[i].id !in transactions
      requires forall i, k :: 0 <= i < k < |todo| ==> todo[i].id != todo[k].id
      modifies this
      ensures var all := AttemptsOf(todo, installs, old(files));
              AllUndoable(todo, installs, all, old(files)) ==>
                && (ok ==> files == old(files))
                && (ok <==> Succeed(all, |todo|) && UndosWork(all, undos, 0))
    {
      ghost var was, all := files, AttemptsOf(todo, installs, files);
      ok := InstallAll(todo, installs, all);
      if ok {
        ok := UnwindAll(todo, undos, installs, all, was);
      }
    }
  }

  /** A verified package and the process that installs it. */
  datatype Package = Package(lines: seq<string>, payload: Files, name: string, id: string)

  /** The transaction directory holds what the attempt left there. */
  ghost predicate LoggedAs(a: Attempt, tx: Transaction) {
    tx.log == a.log && tx.backup == a.backup
  }

  ghost predicate Logged(todo: seq<Package>, all: seq<Attempt>, transactions: map<string, Transaction>, n: nat)
    requires n <= |todo| == |all|
  {
    forall k :: 0 <= k < n ==> todo[k].id in transactions && LoggedAs(all[k], transactions[todo[k].id])
  }

  /** No other transaction directory changed. */
  ghost predicate Untouched(id: string, before: map<string, Transaction>, after: map<string, Transaction>) {
    forall other :: other != id ==>
      (other in after <==> other in before) && (other in after ==> after[other] == before[other])
  }

  /** No transaction directory of a package from the `i`-th on exists. */
  ghost predicate Pending(todo: seq<Package>, transactions: map<string, Transaction>, i: nat) {
    forall k :: i <= k < |todo| ==> todo[k].id !in transactions
  }

  lemma LoggedStep(todo: seq<Package>, all: seq<Attempt>, before: map<string, Transaction>,
                   after: map<string, Transaction>, i: nat)
    requires i < |todo| == |all| && Logged(todo, all, before, i) && Pending(todo, before, i)
    requires forall k, l :: 0 <= k < l < |todo| ==> todo[k].id != todo[l].id
    requires todo[i].id in after && LoggedAs(all[i], after[todo[i].id]) && Untouched(todo[i].id, before, after)
    ensures Logged(todo, all, after, i + 1) && Pending(todo, after, i + 1)
  {
    forall k | 0 <= k < i ensures todo[k].id in after && LoggedAs(all[k], after[todo[k].id]) {
      assert todo[k].id != todo[i].id;
    }
    forall k | i < k < |todo| ensures todo[k].id !in after {
      assert todo[i].id != todo[k].id;
    }
  }

  /** The files before the `i`-th attempt. */
  function FilesAt(all: seq<Attempt>, files: Files, i: nat): Files
    requires i <= |all|
  {
    if i == 0 then files else all[i - 1].files
  }

  /** An installation in a new transaction directory. */
  function AttemptFor(p: Package, files: Files, f: Faults): Attempt {
    Attempted(StepsOf(p.lines), p.payload, files, NEW, f)
  }

  /** The `i`-th installation, each in a new transaction directory. */
  function Installer(todo: seq<Package>, installs: seq<Faults>): (nat, Files) -> Attempt
    requires |todo| == |installs|
  {
    (i: nat, files: Files) =>
      if i < |todo| then AttemptFor(todo[i], files, installs[i]) else Attempt(None, map[], files, true)
  }

  /** `n` attempts, each on the files that the one before it left. */
  function Iterated(attempt: (nat, Files) -> Attempt, files: Files, n: nat): (r: seq<Attempt>)
    ensures |r| == n
  {
    if n == 0 then []
    else
      var front := Iterated(attempt, files, n - 1);
      front + [attempt(n - 1, FilesAt(front, files, n - 1))]
  }

  lemma {:induction false} IteratedAt(attempt: (nat, Files) -> Attempt, files: Files, n: nat, i: nat, all: seq<Attempt>)
    requires i < n && all == Iterated(attempt, files, n)
    ensures all[i] == attempt(i, FilesAt(all, files, i))
  {
    var front := Iterated(attempt, files, n - 1);
    assert FilesAt(all, files, i) == FilesAt(front, files, i);
    if i < n - 1 {
      IteratedAt(attempt, files, n - 1, i, front);
    }
  }

  function AttemptsOf(todo: seq<Package>, installs: seq<Faults>, files: Files): (r: seq<Attempt>)
    requires |todo| == |installs|
    ensures |r| == |todo|
  {
    Iterated(Installer(todo, installs), files, |todo|)
  }

  lemma AttemptAt(todo: seq<Package>, installs: seq<Faults>, files: Files, i: nat, all: seq<Attempt>)
    requires i < |todo| == |installs| && all == AttemptsOf(todo, installs, files)
    ensures all[i] == AttemptFor(todo[i], FilesAt(all, files, i), installs[i])
  {
    IteratedAt(Installer(todo, installs), files, |todo|, i, all);
  }

  /** The `i`-th installation can be undone where it is made. */
  ghost predicate CanUndo(todo: seq<Package>, installs: seq<Faults>, all: seq<Attempt>, files: Files, i: nat)
    requires i < |todo| == |installs| == |all|
  {
    Undoable(StepsOf(todo[i].lines), FilesAt(all, files, i), NEW, installs[i])
  }

  ghost predicate AllUndoable(todo: seq<Package>, installs: seq<Faults>, all: seq<Attempt>, files: Files)
    requires |todo| == |installs| == |all|
  {
    forall i :: 0 <= i < |todo| ==> CanUndo(todo, installs, all, files, i)
  }

  /** No step of undoing the attempt fails. */
  predicate UndoWorks(a: Attempt, undo: Faults) {
    RolledBack(a.log, a.backup, a.files, undo).1 == 0
  }

  /** The first `n` attempts succeed. */
  predicate Succeed(all: seq<Attempt>, n: nat)
    requires n <= |all|
  {
    n == 0 || (Succeed(all, n - 1) && !all[n - 1].failed)
  }

  lemma {:induction false} SucceedAt(all: seq<Attempt>, n: nat, k: nat)
    requires k < n <= |all|
    ensures Succeed(all, n) ==> !all[k].failed
  {
    if k < n - 1 {
      SucceedAt(all, n - 1, k);
    }
  }

  /** No step of undoing the attempts from the `i`-th on fails. */
  predicate UndosWork(all: seq<Attempt>, undos: seq<Faults>, i: nat)
    requires i <= |all| == |undos|
    decreases |all| - i
  {
    i == |all| || (UndoWorks(all[i], undos[i]) && UndosWork(all, undos, i + 1))
  }

  lemma {:induction false} UndosWorkAt(all: seq<Attempt>, undos: seq<Faults>, i: nat, k: nat)
    requires i <= k < |all| == |undos|
    ensures UndosWork(all, undos, i) ==> UndoWorks(all[k], undos[k])
    decreases k - i
  {
    if i < k {
      UndosWorkAt(all, undos, i + 1, k);
    }
  }

  lemma {:induction false} UndosWorkAll(all: seq<Attempt>, undos: seq<Faults>, i: nat)
    requires i <= |all| == |undos| && forall k :: i <= k < |all| ==> UndoWorks(all[k], undos[k])
    ensures UndosWork(all, undos, i)
    decreases |all| - i
  {
    if i < |all| {
      UndosWorkAll(all, undos, i + 1);
    }
  }

  /** Orderly transactions can be undone, and working rollbacks undo them. */
  lemma OrderlyUnwinds(todo: seq<Package>, installs: seq<Faults>, undos: seq<Faults>, files: Files)
    requires |todo| == |installs| == |undos|
    requires var all := AttemptsOf(todo, installs, files);
             forall i :: 0 <= i < |todo| ==>
               && installs[i].manifestOpens && installs[i].logOpens && Works(undos[i])
               && Orderly(StepsOf(todo[i].lines), FilesAt(all, files, i), NEW, installs[i])
    ensures var all := AttemptsOf(todo, installs, files);
            AllUndoable(todo, installs, all, files) && UndosWork(all, undos, 0)
  {
    var all := AttemptsOf(todo, installs, files);
    forall i | 0 <= i < |todo| ensures CanUndo(todo, installs, all, files, i) && UndoWorks(all[i], undos[i]) {
      var before := FilesAt(all, files, i);
      AttemptAt(todo, installs, files, i, all);
      OrderlyUndoable(StepsOf(todo[i].lines), before, NEW, installs[i]);
      Atomic(StepsOf(todo[i].lines), todo[i].payload, before, NEW, installs[i], undos[i]);
    }
    UndosWorkAll(all, undos, 0);
  }
}
