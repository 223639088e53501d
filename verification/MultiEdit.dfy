/** Multi-file edits of `multi_edit.rs`: planned in memory, committed with rollback, recorded for
    undo only as a whole. */
module MultiEdit {
  import opened Wrappers
  import HistoryStore
  import Seqs
  import Transactions
  import ViewCache

  /** A file in the middle of a transaction. Keys stand for canonical paths. */
  datatype File = File(key: string, firstEdit: nat, before: string, after: string, hasPermissions: bool)

  datatype Edit = Edit(key: string, oldText: string, newText: string, replaceAll: bool)

  datatype CommitError =
    | AllRestored(firstEdit: nat)
    | RollbackFailed(firstEdit: nat, failures: seq<string>)

  /** The files named as not restored. */
  function FailuresOf(error: CommitError): seq<string>
  {
    match error
    case AllRestored(_) => []
    case RollbackFailed(_, failures) => failures
  }

  // ----- the files outside

  /** How a write ends. A failed one leaves the file as it was, or with anything in it. */
  datatype Outcome = Done | Failed(left: Option<string>)

  /** What happens to a transaction from outside, file by file: whether reading works when the files are
      loaded and again when they are restored, how writes end when they are committed and when they are
      restored, whether a file is local, and whether its permissions can be set. */
  datatype Faults = Faults(loads: string -> bool, writes: string -> Outcome, rereads: string -> bool,
                           restores: string -> Outcome, local: string -> bool, permissions: string -> bool)

  /** What a write of the content leaves in the file. */
  function Attempt(key: string, content: string, outcome: Outcome): seq<Transactions.Write>
  {
    match outcome
    case Done => [Transactions.Write(key, Some(content))]
    case Failed(None) => []
    case Failed(Some(garbage)) => [Transactions.Write(key, Some(garbage))]
  }

  /** The files outside, with a record of what was left in them. */
  class Disk {
    var contents: map<string, string>
    ghost var log: seq<Transactions.Write> // what writes left in their files, oldest first

    constructor (contents: map<string, string>)
      ensures this.contents == contents && log == []
    {
      this.contents := contents;
      log := [];
    }

    method Read(key: string, works: bool) returns (r: Result<string, ()>)
      ensures r == if works && key in contents then Ok(contents[key]) else Err(())
    {
      if works && key in contents {
        return Ok(contents[key]);
      }
      r := Err(());
    }

    method AtomicWrite(key: string, content: string, outcome: Outcome) returns (written: bool)
      modifies this
      ensures written <==> outcome.Done?
      ensures log == old(log) + Attempt(key, content, outcome)
      ensures OthersKept(old(contents), contents, {key})
      ensures written ==> key in contents && contents[key] == content
      ensures outcome.Failed? ==>
                contents == if outcome.left.Some? then old(contents)[key := outcome.left.value] else old(contents)
      ensures Wrote(old(contents), old(log), contents, log, {key}, 1)
    {
      written := outcome.Done?;
      var left := if written then Some(content) else outcome.left;
      if left.None? {
        WroteNone(contents, log, {key}, 1);
      } else {
        WroteOne(contents, log, key, left.value);
        contents := contents[key := left.value];
      }
      log := log + Attempt(key, content, outcome);
    }

    method Remove(key: string) returns (removed: bool)
      modifies this`contents
      ensures OthersKept(old(contents), contents, {key})
      ensures removed ==> key !in contents
    {
      removed := *;
      if removed {
        contents := contents - {key};
      }
    }
  }

  /** The log grew by at most so many writes, all to the given files, and they account for the change. */
  ghost predicate Wrote(before: map<string, string>, log0: seq<Transactions.Write>, after: map<string, string>,
                        log: seq<Transactions.Write>, keys: set<string>, most: nat)
  {
    && |log0| <= |log| <= |log0| + most && log[..|log0|] == log0
    && (forall i | |log0| <= i < |log| :: log[i].key in keys)
    && after == Transactions.PutAll(before, log[|log0|..])
  }

  lemma WroteOne(before: map<string, string>, log: seq<Transactions.Write>, key: string, left: string)
    ensures Wrote(before, log, before[key := left], log + [Transactions.Write(key, Some(left))], {key}, 1)
  {
    var w := Transactions.Write(key, Some(left));
    assert (log + [w])[|log|..] == [w] && [w][..0] == [];
    assert Transactions.PutAll(before, []) == before;
  }

  lemma WroteNone(before: map<string, string>, log: seq<Transactions.Write>, keys: set<string>, most: nat)
    ensures Wrote(before, log, before, log, keys, most)
  {
    assert log[|log|..] == [];
  }

  /** Two stretches of writes, one after the other. */
  lemma WroteThen(c0: map<string, string>, l0: seq<Transactions.Write>, c1: map<string, string>,
                  l1: seq<Transactions.Write>, c2: map<string, string>, l2: seq<Transactions.Write>,
                  j: set<string>, k: set<string>, keys: set<string>, m: nat, n: nat)
    requires Wrote(c0, l0, c1, l1, j, m) && Wrote(c1, l1, c2, l2, k, n) && j <= keys && k <= keys
    ensures Wrote(c0, l0, c2, l2, keys, m + n)
  {
    assert l2[|l0|..] == l1[|l0|..] + l2[|l1|..];
    Transactions.PutAllAppend(c0, l1[|l0|..], l2[|l1|..]);
    forall i | |l0| <= i < |l2|
      ensures l2[i].key in keys
    {
      if i < |l1| {
        assert l2[i] == l2[..|l1|][i] == l1[i];
      }
    }
    assert l2[..|l0|] == l2[..|l1|][..|l0|];
  }

  /** Outside the given keys the files are the same. */
  ghost predicate OthersKept(before: map<string, string>, after: map<string, string>, keys: set<string>)
  {
    forall k | k !in keys :: (k in before <==> k in after) && (k in before ==> before[k] == after[k])
  }

  ghost predicate Holds(contents: map<string, string>, key: string, text: string)
  {
    key in contents && contents[key] == text
  }

  /** The file holds its earlier content, unless it is named as not restored. */
  ghost predicate IsRestored(contents: map<string, string>, file: File, failures: seq<string>)
  {
    file.key in failures || Holds(contents, file.key, file.before)
  }

  ghost predicate Ascending(indices: seq<nat>, bound: nat)
  {
    && (forall j | 0 <= j < |indices| :: indices[j] < bound)
    && forall j, l | 0 <= j < l < |indices| :: indices[j] < indices[l]
  }

  ghost predicate DistinctKeys(files: seq<File>)
  {
    forall i, j | 0 <= i < j < |files| :: files[i].key != files[j].key
  }

  /** What restoring a file whose current content is given leaves in it. */
  function RestoreWrites(file: File, current: string, faults: Faults): seq<Transactions.Write>
  {
    if faults.rereads(file.key) && current == file.before then []
    else Attempt(file.key, file.before, faults.restores(file.key))
  }

  /** A file can be brought back exactly if it is read again and holds its earlier content, or is written
      again and given its permissions. */
  predicate CanRestore(file: File, current: string, faults: Faults)
  {
    || (faults.rereads(file.key) && current == file.before)
    || (faults.restores(file.key).Done? && (!file.hasPermissions || faults.permissions(file.key)))
  }

  /** Brings a file back to its content before the transaction. */
  method Restore(disk: Disk, file: File, faults: Faults, ghost current: string) returns (restored: bool)
    requires Holds(disk.contents, file.key, current)
    modifies disk
    ensures disk.log == old(disk.log) + RestoreWrites(file, current, faults)
    ensures OthersKept(old(disk.contents), disk.contents, {file.key})
    ensures restored ==> Holds(disk.contents, file.key, file.before)
    ensures restored <==> CanRestore(file, current, faults)
    ensures Wrote(old(disk.contents), old(disk.log), disk.contents, disk.log, {file.key}, 1)
  {
    WroteNone(disk.contents, disk.log, {file.key}, 1);
    var read := disk.Read(file.key, faults.rereads(file.key));
    if read.Ok? && read.value == file.before {
      return true;
    }
    var written := disk.AtomicWrite(file.key, file.before, faults.restores(file.key));
    if !written {
      return false;
    }
    restored := !file.hasPermissions || faults.permissions(file.key);
  }

  /** The files with the given indices. */
  ghost function KeysAt(files: seq<File>, indices: seq<nat>): set<string>
    requires Ascending(indices, |files|)
  {
    set i | i in indices :: files[i].key
  }

  /** The content of a file after the attempt to commit it. */
  function ContentAfter(file: File, faults: Faults): string
  {
    match faults.writes(file.key)
    case Done => file.after
    case Failed(None) => file.before
    case Failed(Some(garbage)) => garbage
  }

  /** What restoring the first n of the attempted files, the last of them first, leaves in them. */
  function BackWrites(files: seq<File>, faults: Faults, attempted: seq<nat>, n: nat): seq<Transactions.Write>
    requires n <= |attempted| && forall i | i in attempted :: i < |files|
  {
    if n == 0 then [] else
      assert attempted[n - 1] in attempted;
      var file := files[attempted[n - 1]];
      RestoreWrites(file, ContentAfter(file, faults), faults) + BackWrites(files, faults, attempted, n - 1)
  }

  /** The first n of the attempted files hold what the attempt left in them. */
  ghost predicate AsAttempted(contents: map<string, string>, files: seq<File>, faults: Faults, attempted: seq<nat>,
                              n: nat)
    requires n <= |attempted| && Ascending(attempted, |files|)
  {
    forall j | 0 <= j < n :: Holds(contents, files[attempted[j]].key, ContentAfter(files[attempted[j]], faults))
  }

  lemma OthersAsAttempted(before: map<string, string>, after: map<string, string>, files: seq<File>, faults: Faults,
                          attempted: seq<nat>, n: nat)
    requires n < |attempted| && Ascending(attempted, |files|) && DistinctKeys(files)
    requires AsAttempted(before, files, faults, attempted, n)
    requires OthersKept(before, after, {files[attempted[n]].key})
    ensures AsAttempted(after, files, faults, attempted, n)
  {
    forall j | 0 <= j < n
      ensures Holds(after, files[attempted[j]].key, ContentAfter(files[attempted[j]], faults))
    {
      assert Holds(before, files[attempted[j]].key, ContentAfter(files[attempted[j]], faults));
      assert attempted[j] < attempted[n];
    }
  }

  /** The keys of the attempted files from the n-th on that cannot be brought back, the last of them first. */
  function LostFrom(files: seq<File>, faults: Faults, attempted: seq<nat>, n: nat): seq<string>
    requires n <= |attempted| && forall i | i in attempted :: i < |files|
    decreases |attempted| - n
  {
    if n == |attempted| then [] else
      assert attempted[n] in attempted;
      var file := files[attempted[n]];
      LostFrom(files, faults, attempted, n + 1)
      + if CanRestore(file, ContentAfter(file, faults), faults) then [] else [file.key]
  }

  /** The file has this key and cannot be brought back from what the attempt to commit it left. */
  ghost predicate IsLost(file: File, key: string, faults: Faults)
  {
    file.key == key && !CanRestore(file, ContentAfter(file, faults), faults)
  }

  /** Exactly the attempted files that cannot be brought back are among them. */
  lemma {:induction false} LostExactly(files: seq<File>, faults: Faults, attempted: seq<nat>, n: nat, key: string)
    requires n <= |attempted| && Ascending(attempted, |files|)
    ensures key in LostFrom(files, faults, attempted, n) <==>
            exists j :: n <= j < |attempted| && IsLost(files[attempted[j]], key, faults)
    decreases |attempted| - n
  {
    if n < |attempted| {
      LostExactly(files, faults, attempted, n + 1, key);
    }
  }

  /** Restores every attempted file, the last one first, and names those that could not be. */
  method RollBack(disk: Disk, files: seq<File>, attempted: seq<nat>, faults: Faults) returns (failures: seq<string>)
    requires DistinctKeys(files) && Ascending(attempted, |files|)
    requires AsAttempted(disk.contents, files, faults, attempted, |attempted|)
    modifies disk
    ensures disk.log == old(disk.log) + BackWrites(files, faults, attempted, |attempted|)
    ensures failures == LostFrom(files, faults, attempted, 0)
    ensures forall f | f in failures :: f in KeysAt(files, attempted)
    ensures forall i | i in attempted :: IsRestored(disk.contents, files[i], failures)
    ensures OthersKept(old(disk.contents), disk.contents, KeysAt(files, attempted))
    ensures Wrote(old(disk.contents), old(disk.log), disk.contents, disk.log, KeysAt(files, attempted), |attempted|)
  {
    failures := [];
    ghost var contents0, log0 := disk.contents, disk.log;
    RollStart(contents0, log0, files, faults, attempted);
    var n := |attempted|;
    while n > 0
      invariant 0 <= n <= |attempted|
      invariant RolledTo(contents0, log0, disk.contents, disk.log, files, faults, attempted, failures, n)
      invariant failures == LostFrom(files, faults, attempted, n)
    {
      n := n - 1;
      var restored := RestoreNext(disk, files, attempted, faults, n, contents0, log0, failures);
      if !restored {
        failures := failures + [files[attempted[n]].key];
      }
    }
    RollEnd(contents0, log0, disk.contents, disk.log, files, faults, attempted, failures);
  }

  method RestoreNext(disk: Disk, files: seq<File>, attempted: seq<nat>, faults: Faults, n: nat,
                     ghost contents0: map<string, string>, ghost log0: seq<Transactions.Write>,
                     ghost failures: seq<string>)
    returns (restored: bool)
    requires n < |attempted| && Ascending(attempted, |files|) && DistinctKeys(files)
    requires RolledTo(contents0, log0, disk.contents, disk.log, files, faults, attempted, failures, n + 1)
    modifies disk
    ensures RolledTo(contents0, log0, disk.contents, disk.log, files, faults, attempted,
                     if restored then failures else failures + [files[attempted[n]].key], n)
    ensures restored <==> CanRestore(files[attempted[n]], ContentAfter(files[attempted[n]], faults), faults)
  {
    var file := files[attempted[n]];
    ghost var contents, log := disk.contents, disk.log;
    assert Holds(contents, file.key, ContentAfter(file, faults));
    restored := Restore(disk, file, faults, ContentAfter(file, faults));
    RolledNext(contents0, log0, contents, log, disk.contents, disk.log, files, faults, attempted, failures, n,
               restored);
  }

  lemma RollStart(contents: map<string, string>, log: seq<Transactions.Write>, files: seq<File>, faults: Faults,
                  attempted: seq<nat>)
    requires Ascending(attempted, |files|) && AsAttempted(contents, files, faults, attempted, |attempted|)
    ensures RolledTo(contents, log, contents, log, files, faults, attempted, [], |attempted|)
  {
    WroteNone(contents, log, KeysAt(files, attempted), 0);
  }

  lemma RollEnd(contents0: map<string, string>, log0: seq<Transactions.Write>, contents: map<string, string>,
                log: seq<Transactions.Write>, files: seq<File>, faults: Faults, attempted: seq<nat>,
                failures: seq<string>)
    requires Ascending(attempted, |files|)
    requires RolledTo(contents0, log0, contents, log, files, faults, attempted, failures, 0)
    ensures log == log0 + BackWrites(files, faults, attempted, |attempted|)
    ensures forall i | i in attempted :: IsRestored(contents, files[i], failures)
  {
    Seqs.CatEmpty(log);
    AllRestoredFrom(contents, files, attempted, failures);
  }

  lemma AllRestoredFrom(contents: map<string, string>, files: seq<File>, attempted: seq<nat>, failures: seq<string>)
    requires Ascending(attempted, |files|) && RestoredFrom(contents, files, attempted, failures, 0)
    ensures forall i | i in attempted :: IsRestored(contents, files[i], failures)
  {
    forall i | i in attempted
      ensures IsRestored(contents, files[i], failures)
    {
      var j :| 0 <= j < |attempted| && attempted[j] == i;
    }
  }

  /** The attempted files from the n-th on have been taken back. */
  ghost predicate RolledTo(contents0: map<string, string>, log0: seq<Transactions.Write>,
                           contents: map<string, string>, log: seq<Transactions.Write>, files: seq<File>,
                           faults: Faults, attempted: seq<nat>, failures: seq<string>, n: nat)
    requires n <= |attempted| && Ascending(attempted, |files|)
  {
    && log0 + BackWrites(files, faults, attempted, |attempted|) == log + BackWrites(files, faults, attempted, n)
    && AsAttempted(contents, files, faults, attempted, n) && RestoredFrom(contents, files, attempted, failures, n)
    && (forall f | f in failures :: f in KeysAt(files, attempted))
    && OthersKept(contents0, contents, KeysAt(files, attempted))
    && Wrote(contents0, log0, contents, log, KeysAt(files, attempted), |attempted| - n)
  }

  lemma RolledNext(contents0: map<string, string>, log0: seq<Transactions.Write>, before: map<string, string>,
                   log: seq<Transactions.Write>, after: map<string, string>, log': seq<Transactions.Write>,
                   files: seq<File>, faults: Faults, attempted: seq<nat>, failures: seq<string>, n: nat, restored: bool)
    requires n < |attempted| && Ascending(attempted, |files|) && DistinctKeys(files)
    requires RolledTo(contents0, log0, before, log, files, faults, attempted, failures, n + 1)
    requires var file := files[attempted[n]];
             && log' == log + RestoreWrites(file, ContentAfter(file, faults), faults)
             && OthersKept(before, after, {file.key}) && (restored ==> Holds(after, file.key, file.before))
             && Wrote(before, log, after, log', {file.key}, 1)
    ensures RolledTo(contents0, log0, after, log', files, faults, attempted,
                     if restored then failures else failures + [files[attempted[n]].key], n)
  {
    var file, keys := files[attempted[n]], KeysAt(files, attempted);
    assert file.key in keys by { assert attempted[n] in attempted; }
    assert OthersKept(contents0, after, keys) by { KeptFurther(contents0, before, after, file.key, keys); }
    assert log + BackWrites(files, faults, attempted, n + 1) == log' + BackWrites(files, faults, attempted, n) by {
      Seqs.Cat(log, RestoreWrites(file, ContentAfter(file, faults), faults), BackWrites(files, faults, attempted, n));
    }
    assert AsAttempted(after, files, faults, attempted, n) by {
      OthersAsAttempted(before, after, files, faults, attempted, n);
    }
    WroteThen(contents0, log0, before, log, after, log', keys, {file.key}, keys, |attempted| - n - 1, 1);
    OneMoreRestored(before, after, files, attempted, failures, n, restored);
  }

  lemma KeptFurther(contents: map<string, string>, before: map<string, string>, after: map<string, string>,
                    key: string, keys: set<string>)
    requires OthersKept(contents, before, keys) && OthersKept(before, after, {key}) && key in keys
    ensures OthersKept(contents, after, keys)
  {
  }

  /** Each of the attempted files from the n-th on is restored or named. */
  ghost predicate RestoredFrom(contents: map<string, string>, files: seq<File>, attempted: seq<nat>,
                               failures: seq<string>, n: nat)
    requires Ascending(attempted, |files|)
  {
    forall j | n <= j < |attempted| :: IsRestored(contents, files[attempted[j]], failures)
  }

  lemma OneMoreRestored(before: map<string, string>, after: map<string, string>, files: seq<File>, attempted: seq<nat>,
                        failures: seq<string>, n: nat, restored: bool)
    requires n < |attempted| && Ascending(attempted, |files|) && DistinctKeys(files)
    requires RestoredFrom(before, files, attempted, failures, n + 1)
    requires OthersKept(before, after, {files[attempted[n]].key})
    requires restored ==> Holds(after, files[attempted[n]].key, files[attempted[n]].before)
    ensures RestoredFrom(after, files, attempted,
                         if restored then failures else failures + [files[attempted[n]].key], n)
  {
    var named := if restored then failures else failures + [files[attempted[n]].key];
    forall j | n <= j < |attempted|
      ensures IsRestored(after, files[attempted[j]], named)
    {
      if j > n {
        assert attempted[n] < attempted[j];
        assert IsRestored(before, files[attempted[j]], failures);
      }
    }
  }

  // ----- commit

  /** One snapshot of the earlier content for each changed file, in file order. */
  function SnapshotsOf(files: seq<File>): seq<(string, string)>
  {
    if files == [] then []
    else (if files[0].before != files[0].after then [(files[0].key, files[0].before)] else []) + SnapshotsOf(files[1..])
  }

  function RecordAll(h: HistoryStore.History, snapshots: seq<(string, string)>): HistoryStore.History
    decreases |snapshots|
  {
    if snapshots == [] then h
    else RecordAll(HistoryStore.Push(h, snapshots[0].0, Some(snapshots[0].1), HistoryStore.MAX_HISTORY_TOTAL_BYTES),
                   snapshots[1..])
  }

  method RecordTransactionHistory(history: HistoryStore.Store, snapshots: seq<(string, string)>)
    requires HistoryStore.Valid(history.State())
    modifies history
    ensures history.State() == RecordAll(old(history.State()), snapshots) && HistoryStore.Valid(history.State())
  {
    for i := 0 to |snapshots|
      invariant HistoryStore.Valid(history.State())
      invariant RecordAll(old(history.State()), snapshots) == RecordAll(history.State(), snapshots[i..])
    {
      assert snapshots[i..][1..] == snapshots[i + 1..];
      history.PushSnapshot(snapshots[i].0, Some(snapshots[i].1), HistoryStore.MAX_HISTORY_TOTAL_BYTES);
    }
  }

  /** File i has been written, or has nothing to write, if i < n; otherwise it is as loaded. */
  ghost predicate WrittenUpTo(contents: map<string, string>, files: seq<File>, n: nat)
  {
    forall i | 0 <= i < |files| :: Holds(contents, files[i].key, if i < n then files[i].after else files[i].before)
  }

  ghost function KeySet(files: seq<File>): set<string> { set f | f in files :: f.key }

  /** The indices below n of the files that have something to write. */
  ghost predicate ChangedBelow(files: seq<File>, attempted: seq<nat>, n: nat)
  {
    && Ascending(attempted, |files|)
    && forall i: nat | i < |files| :: i in attempted <==> i < n && files[i].before != files[i].after
  }

  /** Every file but the n-th is as WrittenUpTo says. */
  ghost predicate WrittenExcept(contents: map<string, string>, files: seq<File>, n: nat)
  {
    forall i | 0 <= i < |files| && i != n ::
      Holds(contents, files[i].key, if i < n then files[i].after else files[i].before)
  }

  /** The indices below n of the changed files. */
  function Changed(files: seq<File>, n: nat): (indices: seq<nat>)
    requires n <= |files|
    ensures forall i | i in indices :: i < n
  {
    if n == 0 then []
    else Changed(files, n - 1) + if files[n - 1].before != files[n - 1].after then [n - 1] else []
  }

  /** What committing the files from the i-th on leaves in them, and in all files if it fails. */
  function CommitWrites(files: seq<File>, faults: Faults, i: nat): seq<Transactions.Write>
    requires i <= |files|
    decreases |files| - i
  {
    if i == |files| then []
    else if files[i].before == files[i].after then CommitWrites(files, faults, i + 1)
    else
      var outcome, attempted := faults.writes(files[i].key), Changed(files, i + 1);
      Attempt(files[i].key, files[i].after, outcome)
      + if outcome.Done? then CommitWrites(files, faults, i + 1) else BackWrites(files, faults, attempted, |attempted|)
  }

  lemma CommitNext(files: seq<File>, faults: Faults, i: nat, log: seq<Transactions.Write>)
    requires i < |files| && files[i].before != files[i].after
    ensures var outcome, attempted := faults.writes(files[i].key), Changed(files, i + 1);
            && attempted == Changed(files, i) + [i]
            && log + CommitWrites(files, faults, i)
               == (log + Attempt(files[i].key, files[i].after, outcome))
                  + if outcome.Done? then CommitWrites(files, faults, i + 1)
                    else BackWrites(files, faults, attempted, |attempted|)
  {
    var outcome, attempted := faults.writes(files[i].key), Changed(files, i + 1);
    Seqs.Cat(log, Attempt(files[i].key, files[i].after, outcome),
             if outcome.Done? then CommitWrites(files, faults, i + 1)
             else BackWrites(files, faults, attempted, |attempted|));
  }

  /** The files below the i-th have been written, and the rest of the writes is still to come. */
  ghost predicate Progress(contents0: map<string, string>, log0: seq<Transactions.Write>,
                           contents: map<string, string>, log: seq<Transactions.Write>, files: seq<File>,
                           faults: Faults, attempted: seq<nat>, i: nat)
    requires i <= |files|
  {
    && ChangedBelow(files, attempted, i) && attempted == Changed(files, i) && AllDone(files, faults, attempted)
    && WrittenUpTo(contents, files, i) && OthersKept(contents0, contents, KeySet(files)) && |attempted| <= i
    && log0 + CommitWrites(files, faults, 0) == log + CommitWrites(files, faults, i)
    && Wrote(contents0, log0, contents, log, KeySet(files), |attempted|)
  }

  /** No changed file among the first n fails to be written. */
  ghost predicate NoneFails(files: seq<File>, faults: Faults, n: nat)
    requires n <= |files|
  {
    forall j | 0 <= j < n && files[j].before != files[j].after :: faults.writes(files[j].key).Done?
  }

  /** The i-th file is the first one that fails to be written. */
  ghost predicate FailsAt(files: seq<File>, faults: Faults, i: nat)
  {
    && i < |files| && files[i].before != files[i].after && faults.writes(files[i].key).Failed?
    && NoneFails(files, faults, i)
  }

  /** The n-th file was the last attempted, and failed. */
  ghost predicate Stopped(contents0: map<string, string>, log0: seq<Transactions.Write>,
                          contents: map<string, string>, log: seq<Transactions.Write>, files: seq<File>,
                          faults: Faults, attempted: seq<nat>, n: nat)
  {
    && FailsAt(files, faults, n) && attempted == Changed(files, n + 1)
    && ChangedBelow(files, attempted, n + 1) && n in attempted && |attempted| <= |files|
    && WrittenExcept(contents, files, n) && OthersKept(contents0, contents, KeySet(files))
    && AsAttempted(contents, files, faults, attempted, |attempted|)
    && log0 + CommitWrites(files, faults, 0) == log + BackWrites(files, faults, attempted, |attempted|)
    && Wrote(contents0, log0, contents, log, KeySet(files), |attempted|)
  }

  /** Writes one changed file. */
  method WriteNext(disk: Disk, files: seq<File>, faults: Faults, i: nat, ghost attempted: seq<nat>,
                   ghost contents0: map<string, string>, ghost log0: seq<Transactions.Write>)
    returns (written: bool)
    requires i < |files| && files[i].before != files[i].after && DistinctKeys(files)
    requires Progress(contents0, log0, disk.contents, disk.log, files, faults, attempted, i)
    modifies disk
    ensures written ==> Progress(contents0, log0, disk.contents, disk.log, files, faults, attempted + [i], i + 1)
    ensures !written ==> Stopped(contents0, log0, disk.contents, disk.log, files, faults, attempted + [i], i)
  {
    ghost var before, log := disk.contents, disk.log;
    written := WriteFile(disk, files[i], faults);
    if written {
      NextDone(contents0, log0, before, log, disk.contents, disk.log, files, faults, attempted, i);
    } else {
      NextFailed(contents0, log0, before, log, disk.contents, disk.log, files, faults, attempted, i);
    }
  }

  /** One attempt to write a changed file. */
  ghost predicate Attempted(before: map<string, string>, log: seq<Transactions.Write>, after: map<string, string>,
                            log': seq<Transactions.Write>, file: File, faults: Faults)
  {
    && OthersKept(before, after, {file.key}) && log' == log + Attempt(file.key, file.after, faults.writes(file.key))
    && Wrote(before, log, after, log', {file.key}, 1)
    && Holds(after, file.key, ContentAfter(file, faults))
  }

  method WriteFile(disk: Disk, file: File, faults: Faults) returns (written: bool)
    requires Holds(disk.contents, file.key, file.before)
    modifies disk
    ensures written <==> faults.writes(file.key).Done?
    ensures Attempted(old(disk.contents), old(disk.log), disk.contents, disk.log, file, faults)
  {
    written := disk.AtomicWrite(file.key, file.after, faults.writes(file.key));
  }

  lemma WroteNext(contents0: map<string, string>, log0: seq<Transactions.Write>, before: map<string, string>,
                  log: seq<Transactions.Write>, after: map<string, string>, log': seq<Transactions.Write>,
                  files: seq<File>, faults: Faults, attempted: seq<nat>, i: nat)
    requires i < |files| && files[i].before != files[i].after && DistinctKeys(files)
    requires Progress(contents0, log0, before, log, files, faults, attempted, i)
    requires Attempted(before, log, after, log', files[i], faults)
    ensures Wrote(contents0, log0, after, log', KeySet(files), |attempted| + 1)
    ensures ChangedBelow(files, attempted + [i], i + 1) && WrittenExcept(after, files, i)
    ensures OthersKept(contents0, after, KeySet(files))
  {
    assert files[i].key in KeySet(files);
    WroteThen(contents0, log0, before, log, after, log', KeySet(files), {files[i].key}, KeySet(files), |attempted|, 1);
    OneFileWritten(before, after, files, i);
    ChangedStep(files, attempted, i);
  }

  lemma NextDone(contents0: map<string, string>, log0: seq<Transactions.Write>, before: map<string, string>,
                 log: seq<Transactions.Write>, after: map<string, string>, log': seq<Transactions.Write>,
                 files: seq<File>, faults: Faults, attempted: seq<nat>, i: nat)
    requires i < |files| && files[i].before != files[i].after && DistinctKeys(files)
    requires Progress(contents0, log0, before, log, files, faults, attempted, i)
    requires Attempted(before, log, after, log', files[i], faults) && faults.writes(files[i].key).Done?
    ensures Progress(contents0, log0, after, log', files, faults, attempted + [i], i + 1)
  {
    WroteNext(contents0, log0, before, log, after, log', files, faults, attempted, i);
    OneFileWritten(before, after, files, i);
    CommitNext(files, faults, i, log);
  }

  lemma NextFailed(contents0: map<string, string>, log0: seq<Transactions.Write>, before: map<string, string>,
                   log: seq<Transactions.Write>, after: map<string, string>, log': seq<Transactions.Write>,
                   files: seq<File>, faults: Faults, attempted: seq<nat>, i: nat)
    requires i < |files| && files[i].before != files[i].after && DistinctKeys(files)
    requires Progress(contents0, log0, before, log, files, faults, attempted, i)
    requires Attempted(before, log, after, log', files[i], faults) && faults.writes(files[i].key).Failed?
    ensures Stopped(contents0, log0, after, log', files, faults, attempted + [i], i)
  {
    WroteNext(contents0, log0, before, log, after, log', files, faults, attempted, i);
    CommitNext(files, faults, i, log);
    assert (attempted + [i])[..|attempted|] == attempted;
    assert FailsAt(files, faults, i) by { DoneSoFar(files, faults, attempted, i); }
    AttemptedSoFar(after, files, faults, attempted + [i], i);
  }

  lemma DoneSoFar(files: seq<File>, faults: Faults, attempted: seq<nat>, i: nat)
    requires i <= |files| && ChangedBelow(files, attempted, i) && AllDone(files, faults, attempted)
    ensures NoneFails(files, faults, i)
  {
    forall j | 0 <= j < i && files[j].before != files[j].after
      ensures faults.writes(files[j].key).Done?
    {
      assert j in attempted;
      var l :| 0 <= l < |attempted| && attempted[l] == j;
    }
  }

  /** Writes the changed files in order and stops at the first failure. */
  method WriteChanged(disk: Disk, files: seq<File>, faults: Faults) returns (attempted: seq<nat>, failed: Option<nat>)
    requires DistinctKeys(files) && WrittenUpTo(disk.contents, files, 0)
    modifies disk
    ensures failed.None? ==>
              Progress(old(disk.contents), old(disk.log), disk.contents, disk.log, files, faults, attempted, |files|)
    ensures failed.Some? ==>
              Stopped(old(disk.contents), old(disk.log), disk.contents, disk.log, files, faults, attempted,
                      failed.value)
  {
    attempted := [];
    ghost var contents0, log0 := disk.contents, disk.log;
    NoProgress(contents0, log0, files, faults);
    for i := 0 to |files|
      invariant Progress(contents0, log0, disk.contents, disk.log, files, faults, attempted, i)
    {
      if files[i].before != files[i].after {
        var index: nat := i;
        var written := WriteNext(disk, files, faults, index, attempted, contents0, log0);
        attempted := attempted + [index];
        if !written {
          return attempted, Some(i);
        }
      } else {
        NothingToWrite(contents0, log0, disk.contents, disk.log, files, faults, attempted, i);
      }
    }
    failed := None;
  }

  lemma NoProgress(contents: map<string, string>, log: seq<Transactions.Write>, files: seq<File>, faults: Faults)
    requires WrittenUpTo(contents, files, 0)
    ensures Progress(contents, log, contents, log, files, faults, [], 0)
  {
    WroteNone(contents, log, KeySet(files), 0);
  }

  lemma NothingToWrite(contents0: map<string, string>, log0: seq<Transactions.Write>, contents: map<string, string>,
                       log: seq<Transactions.Write>, files: seq<File>, faults: Faults, attempted: seq<nat>, i: nat)
    requires i < |files| && files[i].before == files[i].after
    requires Progress(contents0, log0, contents, log, files, faults, attempted, i)
    ensures Progress(contents0, log0, contents, log, files, faults, attempted, i + 1)
  {
    ChangedStep(files, attempted, i);
    forall k | 0 <= k < |files|
      ensures Holds(contents, files[k].key, if k < i + 1 then files[k].after else files[k].before)
    {
      assert Holds(contents, files[k].key, if k < i then files[k].after else files[k].before);
    }
  }

  /** All attempted writes were done. */
  ghost predicate AllDone(files: seq<File>, faults: Faults, attempted: seq<nat>)
    requires Ascending(attempted, |files|)
  {
    forall j | 0 <= j < |attempted| :: faults.writes(files[attempted[j]].key).Done?
  }

  lemma AttemptedSoFar(contents: map<string, string>, files: seq<File>, faults: Faults, attempted: seq<nat>, n: nat)
    requires n < |files| && attempted != [] && attempted[|attempted| - 1] == n && Ascending(attempted, |files|)
    requires AllDone(files, faults, attempted[..|attempted| - 1]) && WrittenExcept(contents, files, n)
    requires Holds(contents, files[n].key, ContentAfter(files[n], faults))
    ensures AsAttempted(contents, files, faults, attempted, |attempted|)
  {
    forall j | 0 <= j < |attempted|
      ensures Holds(contents, files[attempted[j]].key, ContentAfter(files[attempted[j]], faults))
    {
      if j < |attempted| - 1 {
        assert attempted[..|attempted| - 1][j] == attempted[j] < n;
      }
    }
  }

  lemma ChangedStep(files: seq<File>, attempted: seq<nat>, n: nat)
    requires ChangedBelow(files, attempted, n) && n < |files|
    ensures ChangedBelow(files, if files[n].before != files[n].after then attempted + [n] else attempted, n + 1)
  {
    forall j | 0 <= j < |attempted|
      ensures attempted[j] < n
    {
      assert attempted[j] in attempted;
    }
  }

  lemma OneFileWritten(before: map<string, string>, after: map<string, string>, files: seq<File>, n: nat)
    requires DistinctKeys(files) && n < |files| && WrittenUpTo(before, files, n)
    requires OthersKept(before, after, {files[n].key})
    ensures WrittenExcept(after, files, n)
    ensures Holds(after, files[n].key, files[n].after) ==> WrittenUpTo(after, files, n + 1)
  {
    forall i | 0 <= i < |files| && i != n
      ensures Holds(after, files[i].key, if i < n then files[i].after else files[i].before)
    {
      assert Holds(before, files[i].key, if i < n then files[i].after else files[i].before);
      assert files[i].key != files[n].key;
    }
  }

  /** After the rollback every file that is not named as failed holds its earlier content again. */
  lemma AfterRollBack(atFailure: map<string, string>, now: map<string, string>, files: seq<File>, attempted: seq<nat>,
                      failures: seq<string>, n: nat)
    requires DistinctKeys(files) && n < |files| && n in attempted
    requires ChangedBelow(files, attempted, n + 1) && WrittenExcept(atFailure, files, n)
    requires forall i | i in attempted :: IsRestored(now, files[i], failures)
    requires OthersKept(atFailure, now, KeysAt(files, attempted))
    ensures forall i | 0 <= i < |files| :: IsRestored(now, files[i], failures)
  {
    forall i: nat | i < |files|
      ensures IsRestored(now, files[i], failures)
    {
      if i !in attempted {
        assert Holds(atFailure, files[i].key, files[i].before);
        assert files[i].key !in KeysAt(files, attempted);
      }
    }
  }

  lemma {:induction false} FirstFailure(files: seq<File>, faults: Faults, n: nat) returns (i: nat)
    requires n <= |files| && !NoneFails(files, faults, n)
    ensures i < n && FailsAt(files, faults, i)
  {
    if NoneFails(files, faults, n - 1) {
      i := n - 1;
    } else {
      i := FirstFailure(files, faults, n - 1);
    }
  }

  lemma OnlyFailure(files: seq<File>, faults: Faults, i: nat)
    requires FailsAt(files, faults, i)
    ensures !NoneFails(files, faults, |files|) && forall j | FailsAt(files, faults, j) :: j == i
  {
  }

  /** What a failed commit leaves behind. */
  ghost predicate BroughtBack(contents: map<string, string>, files: seq<File>, failures: seq<string>)
  {
    && (forall k | k in failures :: k in KeySet(files))
    && forall i | 0 <= i < |files| :: IsRestored(contents, files[i], failures)
  }

  /** What a client's cache remembers once the changed ones of the first n files are noted. */
  function NotedAll(entries: ViewCache.Entries, files: seq<File>, n: nat): ViewCache.Entries
    requires n <= |files|
  {
    if n == 0 then entries
    else
      var file, noted := files[n - 1], NotedAll(entries, files, n - 1);
      if file.before == file.after then noted else ViewCache.Noted(noted, file.key, file.before, file.after)
  }

  method NoteWrites(cache: ViewCache.Cache?, files: seq<File>)
    modifies cache
    ensures cache != null ==> cache.entries == NotedAll(old(cache.entries), files, |files|)
  {
    for i := 0 to |files|
      invariant cache != null ==> cache.entries == NotedAll(old(cache.entries), files, i)
    {
      if files[i].before != files[i].after {
        ViewCache.NoteWrite(cache, files[i].key, files[i].before, files[i].after);
      }
    }
  }

  /** Each changed file is noted as if it were written alone, and no other. */
  lemma {:induction false} NotedOneByOne(entries: ViewCache.Entries, files: seq<File>, n: nat, key: string)
    requires DistinctKeys(files) && n <= |files|
    ensures forall i | 0 <= i < n && files[i].key == key ::
              ViewCache.Lookup(NotedAll(entries, files, n), key)
              == ViewCache.Lookup(if files[i].before == files[i].after then entries
                                  else ViewCache.Noted(entries, key, files[i].before, files[i].after), key)
    ensures (forall i | 0 <= i < n :: files[i].key != key) ==>
              ViewCache.Lookup(NotedAll(entries, files, n), key) == ViewCache.Lookup(entries, key)
  {
    if n > 0 {
      NotedOneByOne(entries, files, n - 1, key);
      var file := files[n - 1];
      if file.key == key {
        assert forall i | 0 <= i < n - 1 :: files[i].key != key;
      }
    }
  }

  lemma {:induction false} ChangedExactly(files: seq<File>, n: nat, i: nat)
    requires n <= |files|
    ensures i in Changed(files, n) <==> i < n && files[i].before != files[i].after
    ensures Ascending(Changed(files, n), n)
  {
    if n > 0 {
      ChangedExactly(files, n - 1, i);
    }
  }

  /** A failed commit names exactly the changed files, up to the one that failed, that cannot be brought
      back. */
  lemma FaultNamesExactly(files: seq<File>, faults: Faults, failed: nat, key: string)
    requires FailsAt(files, faults, failed)
    ensures var fault := CommitFault(files, faults, failed);
            && fault.firstEdit == files[failed].firstEdit
            && ((fault.RollbackFailed? && key in fault.failures) <==>
                exists i: nat :: i <= failed && files[i].before != files[i].after && IsLost(files[i], key, faults))
  {
    var attempted := Changed(files, failed + 1);
    ChangedExactly(files, failed + 1, 0);
    LostExactly(files, faults, attempted, 0, key);
    LostAmongChanged(files, faults, attempted, failed, key);
  }

  lemma LostAmongChanged(files: seq<File>, faults: Faults, attempted: seq<nat>, failed: nat, key: string)
    requires failed < |files| && attempted == Changed(files, failed + 1) && Ascending(attempted, failed + 1)
    ensures (exists j :: 0 <= j < |attempted| && IsLost(files[attempted[j]], key, faults)) <==>
            exists i: nat :: i <= failed && files[i].before != files[i].after && IsLost(files[i], key, faults)
  {
    if i: nat :| i <= failed && files[i].before != files[i].after && IsLost(files[i], key, faults) {
      assert i in attempted by { ChangedExactly(files, failed + 1, i); }
      var j :| 0 <= j < |attempted| && attempted[j] == i;
      assert IsLost(files[attempted[j]], key, faults);
    }
    if j: nat :| j < |attempted| && IsLost(files[attempted[j]], key, faults) {
      ChangedExactly(files, failed + 1, attempted[j]);
      assert attempted[j] in attempted;
    }
  }

  /** How a commit fails whose first failing file is given: it names the first edit of that file, and every
      file attempted up to it that cannot be brought back. */
  ghost function CommitFault(files: seq<File>, faults: Faults, failed: nat): CommitError
    requires failed < |files|
  {
    var lost := LostFrom(files, faults, Changed(files, failed + 1), 0);
    if lost == [] then AllRestored(files[failed].firstEdit) else RollbackFailed(files[failed].firstEdit, lost)
  }

  /** Undoes a partial write of the changed files. */
  method Abort(disk: Disk, files: seq<File>, attempted: seq<nat>, failed: nat, faults: Faults)
    returns (error: CommitError)
    requires DistinctKeys(files) && failed < |files| && failed in attempted && attempted == Changed(files, failed + 1)
    requires ChangedBelow(files, attempted, failed + 1) && WrittenExcept(disk.contents, files, failed)
    requires AsAttempted(disk.contents, files, faults, attempted, |attempted|)
    modifies disk
    ensures disk.log == old(disk.log) + BackWrites(files, faults, attempted, |attempted|)
    ensures OthersKept(old(disk.contents), disk.contents, KeySet(files))
    ensures error == CommitFault(files, faults, failed)
    ensures BroughtBack(disk.contents, files, FailuresOf(error))
    ensures Wrote(old(disk.contents), old(disk.log), disk.contents, disk.log, KeySet(files), |attempted|)
  {
    var failures := RollBack(disk, files, attempted, faults);
    AfterRollBack(old(disk.contents), disk.contents, files, attempted, failures, failed);
    assert KeysAt(files, attempted) <= KeySet(files);
    WroteNone(old(disk.contents), old(disk.log), KeySet(files), 0);
    WroteThen(old(disk.contents), old(disk.log), old(disk.contents), old(disk.log), disk.contents, disk.log,
              KeySet(files), KeysAt(files, attempted), KeySet(files), 0, |attempted|);
    error := if failures == [] then AllRestored(files[failed].firstEdit)
             else RollbackFailed(files[failed].firstEdit, failures);
  }

  /** Writes all changed files, or rolls every attempted one back. */
  method WriteAll(disk: Disk, files: seq<File>, faults: Faults) returns (error: Option<CommitError>)
    requires DistinctKeys(files) && WrittenUpTo(disk.contents, files, 0)
    modifies disk
    ensures disk.log == old(disk.log) + CommitWrites(files, faults, 0)
    ensures OthersKept(old(disk.contents), disk.contents, KeySet(files))
    ensures Wrote(old(disk.contents), old(disk.log), disk.contents, disk.log, KeySet(files), 2 * |files|)
    ensures error.None? <==> NoneFails(files, faults, |files|)
    ensures error.None? ==> WrittenUpTo(disk.contents, files, |files|)
    ensures error.Some? ==> exists i :: FailsAt(files, faults, i) && error.value == CommitFault(files, faults, i)
    ensures error.Some? ==> BroughtBack(disk.contents, files, FailuresOf(error.value))
  {
    ghost var contents0, log0 := disk.contents, disk.log;
    var attempted, failed := WriteChanged(disk, files, faults);
    if failed.Some? {
      ghost var contents, log := disk.contents, disk.log;
      OnlyFailure(files, faults, failed.value);
      var fault := Abort(disk, files, attempted, failed.value, faults);
      WroteThen(contents0, log0, contents, log, disk.contents, disk.log, KeySet(files), KeySet(files), KeySet(files),
                |attempted|, |attempted|);
      return Some(fault);
    }
    DoneSoFar(files, faults, attempted, |files|);
    error := None;
  }

  /** Commits the changed files or none. On success every file holds its
      new content and exactly the earlier contents of changed files are recorded; on failure nothing
      is recorded and every file holds its earlier content, except those named as not restored. */
  method Commit(disk: Disk, history: HistoryStore.Store, cache: ViewCache.Cache?, files: seq<File>, faults: Faults)
    returns (r: Result<(), CommitError>)
    requires DistinctKeys(files) && WrittenUpTo(disk.contents, files, 0)
    requires HistoryStore.Valid(history.State())
    modifies disk, history, cache
    ensures HistoryStore.Valid(history.State())
    ensures cache != null ==>
              cache.entries == if r.Ok? then NotedAll(old(cache.entries), files, |files|) else old(cache.entries)
    ensures disk.log == old(disk.log) + CommitWrites(files, faults, 0)
    ensures OthersKept(old(disk.contents), disk.contents, KeySet(files))
    ensures r.Ok? ==> WrittenUpTo(disk.contents, files, |files|)
                      && history.State() == RecordAll(old(history.State()), SnapshotsOf(files))
    ensures Wrote(old(disk.contents), old(disk.log), disk.contents, disk.log, KeySet(files), 2 * |files|)
    ensures r.Ok? <==> NoneFails(files, faults, |files|)
    ensures r.Err? ==> exists i :: FailsAt(files, faults, i) && r.error == CommitFault(files, faults, i)
    ensures r.Err? ==> history.State() == old(history.State())
    ensures r.Err? ==> BroughtBack(disk.contents, files, FailuresOf(r.error))
    ensures r.Err? && r.error.RollbackFailed? ==> r.error.failures != []
  {
    var error := WriteAll(disk, files, faults);
    if error.Some? {
      return Err(error.value);
    }
    RecordTransactionHistory(history, SnapshotsOf(files));
    NoteWrites(cache, files);
    r := Ok(());
  }
}
