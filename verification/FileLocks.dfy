/** The table of per-file locks of `text_editing.rs`, with its sweep by reference count. */
module FileLocks {
  const SWEEP_THRESHOLD := 1024

  /** A task's reference to a lock; once it holds the lock the reference is its guard. */
  datatype Reference = Reference(key: string, lock: nat, held: bool)

  /** The lock of each key, the number of locks made so far, and the live references by handle. */
  datatype Locks = Locks(table: map<string, nat>, made: nat, references: map<nat, Reference>)

  const NO_LOCKS := Locks(map[], 0, map[])

  function Users(s: Locks, lock: nat): set<nat>
  {
    set h | h in s.references && s.references[h].lock == lock
  }

  /** The table's own reference and those of the tasks. */
  function StrongCount(s: Locks, lock: nat): nat { 1 + |Users(s, lock)| }

  /** Drops the locks that only the table refers to, if there are many. */
  function Swept(s: Locks): map<string, nat>
  {
    if |s.table| > SWEEP_THRESHOLD
    then map k | k in s.table && StrongCount(s, s.table[k]) > 1 :: s.table[k]
    else s.table
  }

  datatype Step =
    | Acquire(handle: nat, key: string) // takes a reference, making the lock if needed
    | Enter(handle: nat) // locks
    | Drop(handle: nat) // unlocks, or gives up waiting

  /** A new reference to the lock of the key, which is made if there is none. */
  function Refer(s: Locks, handle: nat, key: string): Locks
  {
    if key in s.table then s.(references := s.references[handle := Reference(key, s.table[key], false)])
    else Locks(s.table[key := s.made], s.made + 1, s.references[handle := Reference(key, s.made, false)])
  }

  function AcquireLock(s: Locks, handle: nat, key: string): Locks { Refer(s.(table := Swept(s)), handle, key) }

  /** A lock lets one reference in at a time. */
  ghost predicate IsFree(s: Locks, lock: nat)
  {
    forall h | h in s.references :: !(s.references[h].lock == lock && s.references[h].held)
  }

  ghost predicate Enabled(s: Locks, step: Step)
  {
    match step
    case Acquire(h, _) => h !in s.references
    case Enter(h) => h in s.references && !s.references[h].held && IsFree(s, s.references[h].lock)
    case Drop(h) => h in s.references
  }

  ghost function Next(s: Locks, step: Step): Locks
    requires Enabled(s, step)
  {
    match step
    case Acquire(h, key) => AcquireLock(s, h, key)
    case Enter(h) => s.(references := s.references[h := s.references[h].(held := true)])
    case Drop(h) => s.(references := s.references - {h})
  }

  /** Every live reference is to the lock that the table has for its key, and different keys have
      different locks. */
  ghost predicate Valid(s: Locks)
  {
    && (forall h | h in s.references ::
          s.references[h].key in s.table && s.table[s.references[h].key] == s.references[h].lock)
    && (forall k | k in s.table :: s.table[k] < s.made)
    && (forall k, l | k in s.table && l in s.table && s.table[k] == s.table[l] :: k == l)
    && (forall h, g | h in s.references && g in s.references && s.references[h].held && s.references[g].held
                      && s.references[h].lock == s.references[g].lock :: h == g)
  }

  /** A lock that a task refers to is not swept. */
  lemma ReferencedIsKept(s: Locks, h: nat)
    requires Valid(s) && h in s.references
    ensures s.references[h].key in Swept(s) && Swept(s)[s.references[h].key] == s.references[h].lock
  {
    assert h in Users(s, s.references[h].lock);
    assert |Users(s, s.references[h].lock)| > 0;
  }

  lemma SweepIsValid(s: Locks)
    requires Valid(s)
    ensures Valid(s.(table := Swept(s)))
  {
    forall h | h in s.references
      ensures s.references[h].key in Swept(s) && Swept(s)[s.references[h].key] == s.references[h].lock
    {
      ReferencedIsKept(s, h);
    }
    SweptIsSubtable(s);
  }

  lemma SweptIsSubtable(s: Locks)
    ensures forall k | k in Swept(s) :: k in s.table && Swept(s)[k] == s.table[k]
  {
  }

  lemma ReferIsValid(s: Locks, h: nat, key: string)
    requires Valid(s) && h !in s.references
    ensures Valid(Refer(s, h, key))
  {
    var s' := Refer(s, h, key);
    assert forall g | g in s.references :: s.references[g].lock < s.made;
    assert forall k | k in s.table :: k in s'.table && s'.table[k] == s.table[k];
    forall g | g in s'.references
      ensures s'.references[g].key in s'.table && s'.table[s'.references[g].key] == s'.references[g].lock
    {
      assert g == h || s'.references[g] == s.references[g];
    }
  }

  lemma StepIsValid(s: Locks, step: Step)
    requires Valid(s) && Enabled(s, step)
    ensures Valid(Next(s, step))
  {
    match step {
      case Acquire(h, key) =>
        SweepIsValid(s);
        ReferIsValid(s.(table := Swept(s)), h, key);
      case Enter(h) =>
        EnterIsValid(s, h);
      case Drop(h) =>
    }
  }

  lemma EnterIsValid(s: Locks, h: nat)
    requires Valid(s) && Enabled(s, Enter(h))
    ensures Valid(Next(s, Enter(h)))
  {
    var s' := Next(s, Enter(h));
    assert forall g | g in s.references :: g in s'.references && s'.references[g].key == s.references[g].key
                                           && s'.references[g].lock == s.references[g].lock;
  }

  ghost predicate Run(steps: seq<Step>, states: seq<Locks>)
  {
    && |states| == |steps| + 1 && states[0] == NO_LOCKS
    && forall i | 0 <= i < |steps| :: Enabled(states[i], steps[i]) && states[i + 1] == Next(states[i], steps[i])
  }

  lemma {:induction false} RunIsValid(steps: seq<Step>, states: seq<Locks>, n: nat)
    requires Run(steps, states) && n < |states|
    ensures Valid(states[n])
  {
    if n > 0 {
      RunIsValid(steps, states, n - 1);
      assert Enabled(states[n - 1], steps[n - 1]);
      StepIsValid(states[n - 1], steps[n - 1]);
    }
  }

  /** In every run, however often the table is swept, no two tasks hold the lock of one key. */
  lemma MutualExclusion(steps: seq<Step>, states: seq<Locks>, n: nat, h: nat, g: nat)
    requires Run(steps, states) && n < |states|
    requires h in states[n].references && states[n].references[h].held
    requires g in states[n].references && states[n].references[g].held
    requires states[n].references[h].key == states[n].references[g].key
    ensures h == g
  {
    RunIsValid(steps, states, n);
  }

  /** In every run a task gets in exactly when nobody holds the lock of its key, under any reference. */
  lemma EntersExactlyWhenKeyIsFree(steps: seq<Step>, states: seq<Locks>, n: nat, h: nat)
    requires Run(steps, states) && n < |states|
    requires h in states[n].references && !states[n].references[h].held
    ensures Enabled(states[n], Enter(h)) <==>
            forall g | g in states[n].references && states[n].references[g].held ::
              states[n].references[g].key != states[n].references[h].key
  {
    RunIsValid(steps, states, n);
  }

  // ----- the table stays small

  lemma {:induction false} ImageIsNoLarger(references: map<nat, Reference>, keys: set<string>)
    requires forall k | k in keys :: exists h :: h in references && references[h].key == k
    ensures |keys| <= |references|
    decreases |references|
  {
    if keys != {} {
      var k :| k in keys;
      var h :| h in references && references[h].key == k;
      forall l | l in keys - {k}
        ensures exists g :: g in references - {h} && (references - {h})[g].key == l
      {
        var g :| g in references && references[g].key == l;
        assert g in references - {h};
      }
      ImageIsNoLarger(references - {h}, keys - {k});
      assert |references - {h}| == |references| - 1 by {
        assert (references - {h}).Keys == references.Keys - {h};
      }
    }
  }

  /** If the sweep ran, every lock left has a reference of its own. */
  lemma SweptIsReferenced(s: Locks)
    requires Valid(s) && |s.table| > SWEEP_THRESHOLD
    ensures |Swept(s)| <= |s.references|
  {
    SweptIsSubtable(s);
    forall k | k in Swept(s).Keys
      ensures exists g :: g in s.references && s.references[g].key == k
    {
      var users := Users(s, s.table[k]);
      assert StrongCount(s, s.table[k]) > 1;
      var g :| g in users;
      assert s.references[g].key == k;
    }
    ImageIsNoLarger(s.references, Swept(s).Keys);
  }

  lemma GrowsByOne<K, V>(m: map<K, V>, k: K, v: V)
    ensures |m[k := v]| <= |m| + 1 && (k !in m ==> |m[k := v]| == |m| + 1)
  {
    assert m[k := v].Keys == m.Keys + {k};
  }

  lemma ReferGrowsByOne(s: Locks, h: nat, key: string)
    requires h !in s.references
    ensures |Refer(s, h, key).table| <= |s.table| + 1 && |Refer(s, h, key).references| == |s.references| + 1
  {
    GrowsByOne(s.references, h, Refer(s, h, key).references[h]);
    if key !in s.table {
      GrowsByOne(s.table, key, s.made);
    }
  }

  /** After an acquire there are at most as many locks as live references, or few. */
  lemma TableIsBounded(s: Locks, h: nat, key: string)
    requires Valid(s) && h !in s.references
    ensures var s' := AcquireLock(s, h, key);
            |s'.table| <= SWEEP_THRESHOLD + 1 || |s'.table| <= |s'.references|
  {
    var swept := s.(table := Swept(s));
    ReferGrowsByOne(swept, h, key);
    if |s.table| > SWEEP_THRESHOLD {
      SweptIsReferenced(s);
    }
  }

  /** The static table itself. The references stand for the counted pointers that tasks hold. */
  class LockTable {
    var locks: map<string, nat>
    var made: nat
    var references: map<nat, Reference>

    function State(): Locks
      reads this
    {
      Locks(locks, made, references)
    }

    constructor ()
      ensures State() == NO_LOCKS && Valid(State())
    {
      locks, made, references := map[], 0, map[];
    }

    method Sweep()
      modifies this`locks
      ensures locks == Swept(old(State()))
    {
      if |locks| > SWEEP_THRESHOLD {
        var counted := State();
        locks := map k | k in locks && StrongCount(counted, locks[k]) > 1 :: locks[k];
      }
    }

    method ReferTo(handle: nat, key: string) returns (lock: nat)
      modifies this
      ensures State() == Refer(old(State()), handle, key)
      ensures references == old(references)[handle := Reference(key, lock, false)]
    {
      if key !in locks {
        locks, made := locks[key := made], made + 1;
      }
      lock := locks[key];
      references := references[handle := Reference(key, lock, false)];
    }

    method AcquireFileLock(handle: nat, key: string) returns (lock: nat)
      requires Valid(State()) && handle !in references
      modifies this
      ensures State() == AcquireLock(old(State()), handle, key) && Valid(State())
      ensures references == old(references)[handle := Reference(key, lock, false)]
      ensures |locks| <= SWEEP_THRESHOLD + 1 || |locks| <= |references|
    {
      StepIsValid(State(), Acquire(handle, key));
      TableIsBounded(State(), handle, key);
      Sweep();
      lock := ReferTo(handle, key);
    }
  }
}
