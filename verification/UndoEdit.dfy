/** Undo of `core.rs`, after a committed multi-file edit. */
module UndoEdit {
  import opened Wrappers
  import opened MultiEdit
  import opened HistoryStore
  import ViewCache

  // ----- what a transaction does to the undo stacks

  ghost function IdealAll(ideal: map<string, seq<Snapshot>>,
                          snapshots: seq<(string, string)>): map<string, seq<Snapshot>>
    decreases |snapshots|
  {
    if snapshots == [] then ideal
    else IdealAll(ideal[snapshots[0].0 := Stored(ideal, snapshots[0].0) + [Some(snapshots[0].1)]], snapshots[1..])
  }

  lemma {:induction false} RecordAllRefines(h: History, ideal: map<string, seq<Snapshot>>,
                                            snapshots: seq<(string, string)>)
    requires Valid(h) && Refines(h, ideal)
    ensures Valid(RecordAll(h, snapshots)) && Refines(RecordAll(h, snapshots), IdealAll(ideal, snapshots))
    decreases |snapshots|
  {
    if snapshots != [] {
      var (key, before) := snapshots[0];
      PushIsValid(h, key, Some(before), MAX_HISTORY_TOTAL_BYTES);
      PushRefines(h, ideal, key, Some(before), MAX_HISTORY_TOTAL_BYTES);
      RecordAllRefines(Push(h, key, Some(before), MAX_HISTORY_TOTAL_BYTES),
                       ideal[key := Stored(ideal, key) + [Some(before)]], snapshots[1..]);
    }
  }

  /** The changed file with this key, as one snapshot; none if no changed file has it. */
  ghost function SnapshotOf(files: seq<File>, key: string): seq<Snapshot>
  {
    if files == [] then []
    else if files[0].key == key && files[0].before != files[0].after then [Some(files[0].before)]
    else SnapshotOf(files[1..], key)
  }

  lemma {:induction false} NoSnapshot(files: seq<File>, key: string)
    requires forall i | 0 <= i < |files| :: files[i].key != key || files[i].before == files[i].after
    ensures SnapshotOf(files, key) == []
  {
    if files != [] {
      NoSnapshot(files[1..], key);
    }
  }

  lemma {:induction false} OneSnapshot(files: seq<File>, i: nat)
    requires DistinctKeys(files) && i < |files| && files[i].before != files[i].after
    ensures SnapshotOf(files, files[i].key) == [Some(files[i].before)]
  {
    if i > 0 {
      assert files[0].key != files[i].key;
      OneSnapshot(files[1..], i - 1);
    }
  }

  /** A transaction grows the stack of each changed file by exactly its earlier content, and no other. */
  lemma {:induction false} TransactionGrowth(ideal: map<string, seq<Snapshot>>, files: seq<File>, key: string)
    requires DistinctKeys(files)
    ensures Stored(IdealAll(ideal, SnapshotsOf(files)), key) == Stored(ideal, key) + SnapshotOf(files, key)
    decreases |files|
  {
    if files != [] {
      var f, rest := files[0], files[1..];
      if f.before == f.after {
        assert SnapshotsOf(files) == SnapshotsOf(rest);
        TransactionGrowth(ideal, rest, key);
      } else {
        var one := (f.key, f.before);
        assert SnapshotsOf(files) == [one] + SnapshotsOf(rest);
        assert ([one] + SnapshotsOf(rest))[1..] == SnapshotsOf(rest);
        TransactionGrowth(ideal[f.key := Stored(ideal, f.key) + [Some(f.before)]], rest, key);
        if f.key == key {
          NoSnapshot(rest, key);
        }
      }
    }
  }

  /** After a committed transaction an undo of a changed file finds the file's content before the
      transaction, or, if the budget took it, nothing. */
  lemma UndoFindsEarlierContent(h: History, ideal: map<string, seq<Snapshot>>, files: seq<File>, i: nat)
    requires Valid(h) && Refines(h, ideal) && DistinctKeys(files) && i < |files| && files[i].before != files[i].after
    ensures var popped := Pop(RecordAll(h, SnapshotsOf(files)), files[i].key).1;
            popped == None || popped == Some(Some(files[i].before))
  {
    var after, ideal' := RecordAll(h, SnapshotsOf(files)), IdealAll(ideal, SnapshotsOf(files));
    RecordAllRefines(h, ideal, SnapshotsOf(files));
    TransactionGrowth(ideal, files, files[i].key);
    OneSnapshot(files, i);
    ActRefines(after, ideal', PopAction(files[i].key));
  }

  ghost function SnapshotBytes(snapshots: seq<(string, string)>): nat
  {
    if snapshots == [] then 0 else |snapshots[0].1| + SnapshotBytes(snapshots[1..])
  }

  /** Within the byte budget nothing is taken, and the newest snapshot of a file stays its newest as
      long as only other files follow. */
  lemma {:induction false} OthersLeaveNewest(h: History, snapshots: seq<(string, string)>, key: string,
                                             content: Snapshot)
    requires Newest(h, key, content) && h.total + SnapshotBytes(snapshots) <= MAX_HISTORY_TOTAL_BYTES
    requires forall s | s in snapshots :: s.0 != key
    ensures Newest(RecordAll(h, snapshots), key, content)
    decreases |snapshots|
  {
    if snapshots != [] {
      var pushed := Push(h, snapshots[0].0, Some(snapshots[0].1), MAX_HISTORY_TOTAL_BYTES);
      assert snapshots[0].0 != key;
      OthersLeaveNewest(pushed, snapshots[1..], key, content);
    }
  }

  lemma {:induction false} SnapshotKeys(files: seq<File>)
    ensures forall s | s in SnapshotsOf(files) :: exists i | 0 <= i < |files| :: files[i].key == s.0
  {
    if files != [] {
      SnapshotKeys(files[1..]);
      forall s | s in SnapshotsOf(files)
        ensures exists i | 0 <= i < |files| :: files[i].key == s.0
      {
        if s in SnapshotsOf(files[1..]) {
          var i :| 0 <= i < |files[1..]| && files[1..][i].key == s.0;
          assert files[i + 1].key == s.0;
        } else {
          assert files[0].key == s.0;
        }
      }
    }
  }

  /** If the whole transaction fits the budget, every changed file can be undone. */
  lemma {:induction false} UndoAlwaysFindsIt(h: History, files: seq<File>, i: nat)
    requires Valid(h) && DistinctKeys(files) && i < |files| && files[i].before != files[i].after
    requires h.total + SnapshotBytes(SnapshotsOf(files)) <= MAX_HISTORY_TOTAL_BYTES
    ensures Pop(RecordAll(h, SnapshotsOf(files)), files[i].key).1 == Some(Some(files[i].before))
    decreases |files|
  {
    var f, rest := files[0], files[1..];
    if f.before == f.after {
      assert SnapshotsOf(files) == SnapshotsOf(rest);
      UndoAlwaysFindsIt(h, rest, i - 1);
    } else {
      var one := (f.key, f.before);
      assert SnapshotsOf(files) == [one] + SnapshotsOf(rest);
      assert ([one] + SnapshotsOf(rest))[1..] == SnapshotsOf(rest);
      var pushed := Push(h, f.key, Some(f.before), MAX_HISTORY_TOTAL_BYTES);
      AddedIsValid(h, f.key, Some(f.before));
      assert pushed == Added(h, f.key, Some(f.before));
      if i > 0 {
        UndoAlwaysFindsIt(pushed, rest, i - 1);
      } else {
        SnapshotKeys(rest);
        assert Newest(pushed, f.key, Some(f.before));
        OthersLeaveNewest(pushed, SnapshotsOf(rest), f.key, Some(f.before));
      }
    }
  }

  // ----- the undo itself

  datatype UndoError = NothingToUndo | CannotRestore

  /** Takes the newest snapshot of a file and puts it back; what the client was shown of the file no
      longer counts. The snapshot is gone even if that fails. */
  method Undo(disk: Disk, history: Store, cache: ViewCache.Cache?, key: string) returns (r: Result<(), UndoError>)
    requires Valid(history.State())
    modifies disk, history, cache
    ensures cache != null ==> cache.entries == if r.Ok? then old(cache.entries) - {key} else old(cache.entries)
    ensures history.State() == Pop(old(history.State()), key).0 && Valid(history.State())
    ensures OthersKept(old(disk.contents), disk.contents, {key})
    ensures r == Err(NothingToUndo) <==> Pop(old(history.State()), key).1 == None
    ensures r == Err(NothingToUndo) ==> disk.contents == old(disk.contents)
    ensures r.Ok? ==>
              match Pop(old(history.State()), key).1.value
              case Some(content) => Holds(disk.contents, key, content)
              case None => key !in disk.contents
  {
    var popped := history.PopSnapshot(key);
    if popped.None? {
      return Err(NothingToUndo);
    }
    var done: bool;
    if popped.value.Some? {
      var outcome: Outcome := *;
      done := disk.AtomicWrite(key, popped.value.value, outcome);
    } else {
      done := disk.Remove(key);
    }
    if !done {
      return Err(CannotRestore);
    }
    if cache != null {
      cache.Forget(key);
    }
    r := Ok(());
  }
}
