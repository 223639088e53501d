/** The undo history of `core.rs`: per-file snapshots under a global byte budget. */
module HistoryStore {
  import opened Wrappers

  const MAX_HISTORY_PER_FILE := 10
  const MAX_HISTORY_TOTAL_BYTES := 64 * 1024 * 1024

  /** A file's earlier content; none if the file did not exist. */
  type Snapshot = Option<string>

  /** The stored snapshots per file, oldest first; one queue entry per push, oldest first; the bytes held. */
  datatype History = History(files: map<string, seq<Snapshot>>, order: seq<string>, total: int)

  const EMPTY := History(map[], [], 0)

  function Bytes(s: Snapshot): nat { if s.Some? then |s.value| else 0 }

  ghost function BytesOf(h: seq<Snapshot>): nat
  {
    if h == [] then 0 else Bytes(h[0]) + BytesOf(h[1..])
  }

  ghost function TotalBytes(files: map<string, seq<Snapshot>>): nat
  {
    if files == map[] then 0 else
      var k :| k in files;
      BytesOf(files[k]) + TotalBytes(files - {k})
  }

  ghost function Count(order: seq<string>, key: string): nat
  {
    if order == [] then 0 else (if order[0] == key then 1 else 0) + Count(order[1..], key)
  }

  function Stored(files: map<string, seq<Snapshot>>, key: string): seq<Snapshot>
  {
    if key in files then files[key] else []
  }

  // ----- the operations

  /** Drops the snapshot that the oldest queue entry stands for, if it is still there. */
  function EvictOne(h: History): History
    requires h.order != []
  {
    var oldest := h.order[0];
    var order := h.order[1..];
    if oldest !in h.files then h.(order := order)
    else if h.files[oldest] == [] then History(h.files - {oldest}, order, h.total)
    else
      var rest := h.files[oldest][1..];
      History(if rest == [] then h.files - {oldest} else h.files[oldest := rest], order,
              h.total - Bytes(h.files[oldest][0]))
  }

  function Evict(h: History, byteCap: nat): History
    decreases |h.order|
  {
    if h.total > byteCap && |h.order| > 1 then Evict(EvictOne(h), byteCap) else h
  }

  /** A new snapshot before any eviction for the byte budget. */
  function Added(h: History, key: string, content: Snapshot): History
  {
    var prior := Stored(h.files, key);
    var full := |prior| >= MAX_HISTORY_PER_FILE;
    History(h.files[key := (if full then prior[1..] else prior) + [content]],
            h.order + [key],
            h.total + Bytes(content) - if full then Bytes(prior[0]) else 0)
  }

  function Push(h: History, key: string, content: Snapshot, byteCap: nat): History
  {
    Evict(Added(h, key, content), byteCap)
  }

  function Pop(h: History, key: string): (History, Option<Snapshot>)
  {
    var prior := Stored(h.files, key);
    if prior == [] then (h, None)
    else
      var rest := prior[..|prior| - 1];
      var top := prior[|prior| - 1];
      (History(if rest == [] then h.files - {key} else h.files[key := rest], h.order, h.total - Bytes(top)), Some(top))
  }

  /** The byte count is exact, no history is empty or over the limit, and every stored snapshot has
      a queue entry of its file. */
  ghost predicate Valid(h: History)
  {
    && h.total == TotalBytes(h.files)
    && forall k | k in h.files :: 0 < |h.files[k]| <= MAX_HISTORY_PER_FILE && |h.files[k]| <= Count(h.order, k)
  }

  // ----- sums

  lemma {:induction false} TotalWithout(files: map<string, seq<Snapshot>>, key: string)
    requires key in files
    ensures TotalBytes(files) == BytesOf(files[key]) + TotalBytes(files - {key})
    decreases |files|
  {
    var k :| k in files && TotalBytes(files) == BytesOf(files[k]) + TotalBytes(files - {k});
    if k != key {
      TotalWithout(files - {k}, key);
      TotalWithout(files - {key}, k);
      assert files - {k} - {key} == files - {key} - {k};
    }
  }

  /** Changing one file's history changes the total by its bytes. */
  lemma TotalUpdate(files: map<string, seq<Snapshot>>, key: string, h: seq<Snapshot>)
    ensures TotalBytes(files[key := h]) == TotalBytes(files - {key}) + BytesOf(h)
    ensures TotalBytes(files) == TotalBytes(files - {key}) + BytesOf(Stored(files, key))
  {
    TotalWithout(files[key := h], key);
    assert files[key := h] - {key} == files - {key};
    if key in files {
      TotalWithout(files, key);
    } else {
      assert files - {key} == files;
    }
  }

  lemma {:induction false} BytesAppend(p: seq<Snapshot>, q: seq<Snapshot>)
    ensures BytesOf(p + q) == BytesOf(p) + BytesOf(q)
  {
    if p == [] {
      assert p + q == q;
    } else {
      assert (p + q)[1..] == p[1..] + q;
      BytesAppend(p[1..], q);
    }
  }

  lemma BytesOfOne(s: Snapshot)
    ensures BytesOf([s]) == Bytes(s)
  {
    assert [s][1..] == [];
  }

  lemma {:induction false} CountAppend(order: seq<string>, key: string, k: string)
    ensures Count(order + [key], k) == Count(order, k) + if key == k then 1 else 0
  {
    if order == [] {
      assert order + [key] == [key] && [key][1..] == [];
    } else {
      assert (order + [key])[1..] == order[1..] + [key];
      CountAppend(order[1..], key, k);
    }
  }

  // ----- validity is kept

  lemma AddedIsValid(h: History, key: string, content: Snapshot)
    requires Valid(h)
    ensures Valid(Added(h, key, content))
  {
    var prior := Stored(h.files, key);
    var kept := if |prior| >= MAX_HISTORY_PER_FILE then prior[1..] else prior;
    var h' := Added(h, key, content);
    TotalUpdate(h.files, key, kept + [content]);
    BytesAppend(kept, [content]);
    BytesOfOne(content);
    forall k | k in h'.files
      ensures 0 < |h'.files[k]| <= MAX_HISTORY_PER_FILE && |h'.files[k]| <= Count(h'.order, k)
    {
      CountAppend(h.order, key, k);
    }
  }

  lemma EvictOneIsValid(h: History)
    requires Valid(h) && h.order != []
    ensures Valid(EvictOne(h)) && EvictOne(h).total <= h.total
    ensures h.order[0] in h.files ==> Bytes(h.files[h.order[0]][0]) <= h.total
  {
    var oldest := h.order[0];
    if oldest in h.files {
      var prior := h.files[oldest];
      TotalUpdate(h.files, oldest, prior[1..]);
    }
  }

  lemma {:induction false} EvictIsValid(h: History, byteCap: nat)
    requires Valid(h)
    ensures Valid(Evict(h, byteCap))
    decreases |h.order|
  {
    if h.total > byteCap && |h.order| > 1 {
      EvictOneIsValid(h);
      EvictIsValid(EvictOne(h), byteCap);
    }
  }

  lemma PopIsValid(h: History, key: string)
    requires Valid(h)
    ensures Valid(Pop(h, key).0)
    ensures key in h.files ==> Bytes(h.files[key][|h.files[key]| - 1]) <= h.total
  {
    var prior := Stored(h.files, key);
    if prior != [] {
      var rest, top := prior[..|prior| - 1], prior[|prior| - 1];
      TotalUpdate(h.files, key, rest);
      assert prior == rest + [top];
      BytesAppend(rest, [top]);
      BytesOfOne(top);
    }
  }

  ghost predicate AtMostOneSnapshot(files: map<string, seq<Snapshot>>)
  {
    forall k, l | k in files && l in files :: k == l && |files[k]| == 1
  }

  /** After a push the total is within the budget, or at most one snapshot is left. */
  lemma {:induction false} EvictMeetsBudget(h: History, byteCap: nat)
    requires Valid(h)
    ensures Evict(h, byteCap).total <= byteCap || AtMostOneSnapshot(Evict(h, byteCap).files)
    decreases |h.order|
  {
    if h.total > byteCap && |h.order| > 1 {
      EvictOneIsValid(h);
      EvictMeetsBudget(EvictOne(h), byteCap);
    } else if h.total > byteCap {
      forall k | k in h.files
        ensures h.order != [] && k == h.order[0] && |h.files[k]| == 1
      {
        ShortCount(h.order, k);
      }
    }
  }

  lemma ShortCount(order: seq<string>, key: string)
    requires |order| <= 1
    ensures Count(order, key) == if order != [] && order[0] == key then 1 else 0
  {
    if order != [] {
      assert order[1..] == [];
    }
  }

  // ----- the unbounded stacks it stands for

  ghost predicate SuffixOf<T>(s: seq<T>, t: seq<T>)
  {
    |s| <= |t| && t[|t| - |s|..] == s
  }

  /** Every stored history is the top part of the file's unbounded stack. */
  ghost predicate Refines(h: History, ideal: map<string, seq<Snapshot>>)
  {
    forall k | k in h.files :: SuffixOf(h.files[k], Stored(ideal, k))
  }

  datatype Action = PushAction(key: string, content: Snapshot, byteCap: nat) | PopAction(key: string)

  function Act(h: History, a: Action): (History, Option<Snapshot>)
  {
    match a
    case PushAction(key, content, cap) => (Push(h, key, content, cap), None)
    case PopAction(key) => Pop(h, key)
  }

  /** The unbounded stacks: a push grows one; a pop takes its top, if the store has it. */
  ghost function IdealAct(ideal: map<string, seq<Snapshot>>, a: Action,
                          popped: Option<Snapshot>): map<string, seq<Snapshot>>
  {
    match a
    case PushAction(key, content, _) => ideal[key := Stored(ideal, key) + [content]]
    case PopAction(key) =>
      var s := Stored(ideal, key);
      if popped.None? || s == [] then ideal else ideal[key := s[..|s| - 1]]
  }

  lemma SuffixTail<T>(s: seq<T>, t: seq<T>)
    requires SuffixOf(s, t) && s != []
    ensures SuffixOf(s[1..], t)
  {
    assert t[|t| - |s|..][1..] == t[|t| - |s| + 1..];
  }

  lemma SuffixAppend<T>(s: seq<T>, t: seq<T>, x: T)
    requires SuffixOf(s, t)
    ensures SuffixOf(s + [x], t + [x])
  {
    assert (t + [x])[|t| - |s|..] == t[|t| - |s|..] + [x];
  }

  lemma SuffixFront<T>(s: seq<T>, t: seq<T>)
    requires SuffixOf(s, t) && s != []
    ensures SuffixOf(s[..|s| - 1], t[..|t| - 1]) && s[|s| - 1] == t[|t| - 1]
  {
    assert t[..|t| - 1][|t| - |s|..] == t[|t| - |s|..][..|s| - 1];
    assert t[|t| - |s|..][|s| - 1] == t[|t| - 1];
  }

  lemma EvictOneRefines(h: History, ideal: map<string, seq<Snapshot>>)
    requires Refines(h, ideal) && h.order != []
    ensures Refines(EvictOne(h), ideal)
  {
    var oldest := h.order[0];
    if oldest in h.files && h.files[oldest] != [] {
      SuffixTail(h.files[oldest], Stored(ideal, oldest));
    }
  }

  lemma {:induction false} EvictRefines(h: History, byteCap: nat, ideal: map<string, seq<Snapshot>>)
    requires Refines(h, ideal)
    ensures Refines(Evict(h, byteCap), ideal)
    decreases |h.order|
  {
    if h.total > byteCap && |h.order| > 1 {
      EvictOneRefines(h, ideal);
      EvictRefines(EvictOne(h), byteCap, ideal);
    }
  }

  lemma UpdateRefines(files: map<string, seq<Snapshot>>, ideal: map<string, seq<Snapshot>>, key: string,
                      s: seq<Snapshot>, t: seq<Snapshot>, order: seq<string>, total: int)
    requires forall k | k in files :: SuffixOf(files[k], Stored(ideal, k))
    requires SuffixOf(s, t)
    ensures Refines(History(files[key := s], order, total), ideal[key := t])
  {
  }

  lemma GrowSuffix(s: seq<Snapshot>, t: seq<Snapshot>, content: Snapshot)
    requires SuffixOf(s, t)
    ensures SuffixOf((if |s| >= MAX_HISTORY_PER_FILE then s[1..] else s) + [content], t + [content])
  {
    if |s| >= MAX_HISTORY_PER_FILE {
      SuffixTail(s, t);
      SuffixAppend(s[1..], t, content);
    } else {
      SuffixAppend(s, t, content);
    }
  }

  lemma AddedRefines(h: History, key: string, content: Snapshot, ideal: map<string, seq<Snapshot>>)
    requires Refines(h, ideal)
    ensures Refines(Added(h, key, content), ideal[key := Stored(ideal, key) + [content]])
  {
    var s, t, r := Stored(h.files, key), Stored(ideal, key), Added(h, key, content);
    assert SuffixOf(s, t) by {
      if key !in h.files {
        assert t[|t|..] == [];
      }
    }
    GrowSuffix(s, t, content);
    UpdateRefines(h.files, ideal, key, (if |s| >= MAX_HISTORY_PER_FILE then s[1..] else s) + [content], t + [content],
                  r.order, r.total);
  }

  lemma PushIsValid(h: History, key: string, content: Snapshot, byteCap: nat)
    requires Valid(h)
    ensures Valid(Push(h, key, content, byteCap))
  {
    AddedIsValid(h, key, content);
    EvictIsValid(Added(h, key, content), byteCap);
  }

  lemma PushRefines(h: History, ideal: map<string, seq<Snapshot>>, key: string, content: Snapshot, byteCap: nat)
    requires Valid(h) && Refines(h, ideal)
    ensures Refines(Push(h, key, content, byteCap), ideal[key := Stored(ideal, key) + [content]])
  {
    AddedIsValid(h, key, content);
    AddedRefines(h, key, content, ideal);
    EvictRefines(Added(h, key, content), byteCap, ideal[key := Stored(ideal, key) + [content]]);
  }

  lemma RemoveRefines(files: map<string, seq<Snapshot>>, ideal: map<string, seq<Snapshot>>, key: string,
                      t: seq<Snapshot>, order: seq<string>, total: int)
    requires forall k | k in files :: SuffixOf(files[k], Stored(ideal, k))
    ensures Refines(History(files - {key}, order, total), ideal[key := t])
  {
  }

  lemma PopRefines(h: History, ideal: map<string, seq<Snapshot>>, key: string, s: seq<Snapshot>, t: seq<Snapshot>,
                   r: History)
    requires Valid(h) && Refines(h, ideal) && key in h.files
    requires s == h.files[key] && t == Stored(ideal, key) && r == Pop(h, key).0
    ensures t != [] && Pop(h, key).1 == Some(t[|t| - 1])
    ensures Valid(r) && Refines(r, ideal[key := t[..|t| - 1]])
  {
    assert Valid(r) by { PopIsValid(h, key); }
    SuffixFront(s, t);
    var front, back := s[..|s| - 1], t[..|t| - 1];
    if front == [] {
      RemoveRefines(h.files, ideal, key, back, r.order, r.total);
    } else {
      UpdateRefines(h.files, ideal, key, front, back, r.order, r.total);
    }
  }

  /** One action keeps the store a bounded view of the unbounded stacks, and what a pop returns is
      the top of the file's stack. */
  lemma ActRefines(h: History, ideal: map<string, seq<Snapshot>>, a: Action)
    requires Valid(h) && Refines(h, ideal)
    ensures var (h', popped) := Act(h, a);
            Valid(h') && Refines(h', IdealAct(ideal, a, popped))
    ensures var popped := Act(h, a).1;
            a.PopAction? && popped.Some? ==>
              var s := Stored(ideal, a.key);
              s != [] && popped.value == s[|s| - 1]
    ensures a.PopAction? ==> (Act(h, a).1.None? <==> a.key !in h.files)
  {
    match a {
      case PushAction(key, content, cap) =>
        PushIsValid(h, key, content, cap);
        PushRefines(h, ideal, key, content, cap);
      case PopAction(key) =>
        if key in h.files {
          PopActRefines(h, ideal, key);
        }
    }
  }

  lemma PopActRefines(h: History, ideal: map<string, seq<Snapshot>>, key: string)
    requires Valid(h) && Refines(h, ideal) && key in h.files
    ensures var (r, popped) := Pop(h, key);
            && Valid(r) && Refines(r, IdealAct(ideal, PopAction(key), popped))
            && popped.Some? && Stored(ideal, key) != [] && popped.value == Stored(ideal, key)[|Stored(ideal, key)| - 1]
  {
    var t := Stored(ideal, key);
    PopRefines(h, ideal, key, h.files[key], t, Pop(h, key).0);
    IdealPop(ideal, key, Pop(h, key).1, t);
  }

  lemma IdealPop(ideal: map<string, seq<Snapshot>>, key: string, popped: Option<Snapshot>, t: seq<Snapshot>)
    requires popped.Some? && t == Stored(ideal, key) && t != []
    ensures IdealAct(ideal, PopAction(key), popped) == ideal[key := t[..|t| - 1]]
  {
  }

  /** The store and the unbounded stacks after a run from the start. */
  ghost function Run(actions: seq<Action>): (History, map<string, seq<Snapshot>>)
  {
    if actions == [] then (EMPTY, map[]) else
      var (h, ideal) := Run(actions[..|actions| - 1]);
      var a := actions[|actions| - 1];
      var (h', popped) := Act(h, a);
      (h', IdealAct(ideal, a, popped))
  }

  /** In every run the store stays exact and a bounded view of the unbounded stacks. */
  lemma {:induction false} RunRefines(actions: seq<Action>)
    ensures Valid(Run(actions).0) && Refines(Run(actions).0, Run(actions).1)
  {
    if actions != [] {
      RunRefines(actions[..|actions| - 1]);
      var (h, ideal) := Run(actions[..|actions| - 1]);
      ActRefines(h, ideal, actions[|actions| - 1]);
    }
  }

  // ----- does the new snapshot survive?

  /** The file has no stale queue entries and room for one more snapshot. */
  ghost predicate Clean(h: History, key: string)
  {
    |Stored(h.files, key)| < MAX_HISTORY_PER_FILE && Count(h.order, key) == |Stored(h.files, key)|
  }

  /** The queue ends in the file just pushed. */
  ghost predicate JustPushed(h: History, key: string)
  {
    h.order != [] && h.order[|h.order| - 1] == key
  }

  lemma {:induction false} LastIsCounted(order: seq<string>, key: string)
    requires order != [] && order[|order| - 1] == key
    ensures Count(order, key) >= 1
  {
    if |order| > 1 {
      LastIsCounted(order[1..], key);
    }
  }

  /** The newest snapshot of the file is this one. */
  ghost predicate Newest(h: History, key: string, content: Snapshot)
  {
    key in h.files && h.files[key] != [] && h.files[key][|h.files[key]| - 1] == content
  }

  /** Without stale entries eviction never reaches the newest snapshot. */
  lemma {:induction false} CleanSurvives(h: History, key: string, content: Snapshot, byteCap: nat)
    requires Valid(h) && JustPushed(h, key) && Newest(h, key, content) && Count(h.order, key) == |h.files[key]|
    ensures Newest(Evict(h, byteCap), key, content)
    decreases |h.order|
  {
    if h.total > byteCap && |h.order| > 1 {
      EvictOneIsValid(h);
      LastIsCounted(h.order[1..], key);
      CleanSurvives(EvictOne(h), key, content, byteCap);
    }
  }

  lemma {:induction false} NewestHasBytes(h: seq<Snapshot>)
    requires h != [] && Bytes(h[|h| - 1]) > 0
    ensures BytesOf(h) > 0
  {
    if |h| > 1 {
      NewestHasBytes(h[1..]);
    }
  }

  /** With a stale entry and a zero budget eviction takes the newest snapshot too. */
  lemma {:induction false} StaleIsEvicted(h: History, key: string, content: Snapshot)
    requires Valid(h) && JustPushed(h, key) && Bytes(content) > 0
    requires key in h.files ==> Count(h.order, key) > |h.files[key]| && Newest(h, key, content)
    ensures key !in Evict(h, 0).files
    decreases |h.order|
  {
    if key in h.files {
      TotalWithout(h.files, key);
      NewestHasBytes(h.files[key]);
    }
    if h.total > 0 && |h.order| > 1 {
      EvictOneIsValid(h);
      StaleIsEvicted(EvictOne(h), key, content);
    } else if |h.order| == 1 {
      assert h.order[1..] == [];
    }
  }

  /** A non-empty snapshot just pushed survives under every byte budget exactly when its file had no
      stale queue entries and was below the per-file limit. */
  lemma SurvivesExactlyWhenClean(h: History, key: string, content: Snapshot)
    requires Valid(h) && Bytes(content) > 0
    ensures (forall byteCap: nat :: Pop(Push(h, key, content, byteCap), key).1 == Some(content)) <==> Clean(h, key)
  {
    var added := Added(h, key, content);
    AddedIsValid(h, key, content);
    CountAppend(h.order, key, key);
    if Clean(h, key) {
      forall byteCap: nat
        ensures Pop(Push(h, key, content, byteCap), key).1 == Some(content)
      {
        CleanSurvives(added, key, content, byteCap);
      }
    } else {
      assert |Stored(h.files, key)| <= Count(h.order, key);
      StaleIsEvicted(added, key, content);
      assert Pop(Push(h, key, content, 0), key).1 == None;
    }
  }

  // ----- at a given budget

  /** How many entries come before the n-th entry of the file. */
  ghost function EntriesBefore(order: seq<string>, key: string, n: nat): nat
    requires 1 <= n <= Count(order, key)
  {
    if order[0] != key then 1 + EntriesBefore(order[1..], key, n)
    else if n == 1 then 0 else 1 + EntriesBefore(order[1..], key, n - 1)
  }

  lemma {:induction false} EntriesBeforeIsInside(order: seq<string>, key: string, n: nat)
    requires 1 <= n <= Count(order, key)
    ensures EntriesBefore(order, key, n) < |order|
  {
    if order[0] != key {
      EntriesBeforeIsInside(order[1..], key, n);
    } else if n > 1 {
      EntriesBeforeIsInside(order[1..], key, n - 1);
    }
  }

  /** The store with the n oldest entries dealt with. */
  ghost function EvictTimes(h: History, n: nat): History
    requires n <= |h.order|
    decreases n
  {
    if n == 0 then h else EvictTimes(EvictOne(h), n - 1)
  }

  lemma {:induction false} EvictTimesShrinks(h: History, n: nat)
    requires Valid(h) && n <= |h.order|
    ensures EvictTimes(h, n).total <= h.total
    decreases n
  {
    if n > 0 {
      EvictOneIsValid(h);
      EvictTimesShrinks(EvictOne(h), n - 1);
    }
  }

  lemma {:induction false} GoneStaysGone(h: History, key: string, byteCap: nat)
    requires key !in h.files
    ensures key !in Evict(h, byteCap).files
    decreases |h.order|
  {
    if h.total > byteCap && |h.order| > 1 {
      GoneStaysGone(EvictOne(h), key, byteCap);
    }
  }

  /** With a stale entry the newest snapshot stays exactly if the budget is met before the entry that
      would take it; otherwise nothing of the file is left. */
  lemma {:induction false} StaleAtBudget(h: History, key: string, content: Snapshot, byteCap: nat)
    requires Valid(h) && Newest(h, key, content) && Count(h.order, key) > |h.files[key]|
    ensures var n := EntriesBefore(h.order, key, |h.files[key]|);
            && n <= |h.order|
            && (EvictTimes(h, n).total <= byteCap ==> Newest(Evict(h, byteCap), key, content))
            && (EvictTimes(h, n).total > byteCap ==> key !in Evict(h, byteCap).files)
    decreases |h.order|
  {
    var stored := |h.files[key]|;
    EntriesBeforeIsInside(h.order, key, stored);
    EvictTimesShrinks(h, EntriesBefore(h.order, key, stored));
    if h.total > byteCap {
      EvictOneIsValid(h);
      if h.order[0] == key && stored == 1 {
        GoneStaysGone(EvictOne(h), key, byteCap);
      } else {
        StaleAtBudget(EvictOne(h), key, content, byteCap);
      }
      TwoEntries(h.order, key);
    }
  }

  lemma TwoEntries(order: seq<string>, key: string)
    ensures Count(order, key) > 1 ==> |order| > 1
  {
    if |order| <= 1 {
      ShortCount(order, key);
    }
  }

  /** At any given budget a snapshot just pushed survives exactly if its file was clean, or the budget
      is met before the queue entry that takes the newest snapshot of a file with stale entries. */
  lemma SurvivesAtBudget(h: History, key: string, content: Snapshot, byteCap: nat)
    requires Valid(h)
    ensures var added := Added(h, key, content);
            1 <= |added.files[key]| <= Count(added.order, key)
            && var n := EntriesBefore(added.order, key, |added.files[key]|);
            n <= |added.order|
            && (Pop(Push(h, key, content, byteCap), key).1 == Some(content)
                <==> Clean(h, key) || EvictTimes(added, n).total <= byteCap)
  {
    var added := Added(h, key, content);
    AddedIsValid(h, key, content);
    CountAppend(h.order, key, key);
    EntriesBeforeIsInside(added.order, key, |added.files[key]|);
    if Clean(h, key) {
      CleanSurvives(added, key, content, byteCap);
    } else {
      assert |Stored(h.files, key)| <= Count(h.order, key);
      StaleAtBudget(added, key, content, byteCap);
    }
  }

  /** A stale entry does lose the snapshot of the file being edited, at the budget in use: edit a
      small file, undo, edit another file whose text fills the budget, and edit the small one again. */
  lemma UndoThenEditCanLoseSnapshot(f: string, g: string, a: string, b: string, big: string)
    requires f != g && |a| == |b| == 1 && |big| == MAX_HISTORY_TOTAL_BYTES
    ensures var cap := MAX_HISTORY_TOTAL_BYTES;
            var undone := Pop(Push(EMPTY, f, Some(a), cap), f).0;
            Pop(Push(Push(undone, g, Some(big), cap), f, Some(b), cap), f).1 == None
  {
    var cap := MAX_HISTORY_TOTAL_BYTES;
    var h1 := FirstAdded(EMPTY, f, Some(a));
    var h2 := Pop(h1, f).0;
    assert h2 == History(map[], [] + [f], 0);
    var h3 := FirstAdded(h2, g, Some(big));
    var h4 := FirstAdded(h3, f, Some(b));
    assert h4.order[0] == f && |h4.order| == 3 && h4.files[f] == [Some(b)] && h4.total == cap + 1;
    assert Push(EMPTY, f, Some(a), cap) == h1 && Push(h2, g, Some(big), cap) == h3 && Push(h3, f, Some(b), cap)
           == Evict(h4, cap);
    var h5 := EvictOne(h4);
    assert f !in h5.files && h5.total == cap;
    assert Evict(h4, cap) == Evict(h5, cap) == h5;
  }

  lemma FirstAdded(h: History, key: string, content: Snapshot) returns (r: History)
    requires key !in h.files
    ensures r == Added(h, key, content) == History(h.files[key := [content]], h.order + [key], h.total + Bytes(content))
  {
    r := Added(h, key, content);
    assert [] + [content] == [content];
  }

  // ----- the store itself

  class Store {
    var files: map<string, seq<Snapshot>>
    var order: seq<string>
    var totalBytes: nat

    ghost function State(): History
      reads this
    {
      History(files, order, totalBytes)
    }

    constructor ()
      ensures State() == EMPTY && Valid(State())
    {
      files, order, totalBytes := map[], [], 0;
    }

    method PushSnapshot(key: string, content: Snapshot, byteCap: nat)
      requires Valid(State())
      modifies this
      ensures State() == Push(old(State()), key, content, byteCap) && Valid(State())
      ensures totalBytes <= byteCap || AtMostOneSnapshot(files)
    {
      AddSnapshot(key, content);
      EvictOverBudget(byteCap);
    }

    /** Drops the globally oldest snapshots while the store is over the budget. */
    method EvictOverBudget(byteCap: nat)
      requires Valid(State())
      modifies this
      ensures State() == Evict(old(State()), byteCap) && Valid(State())
      ensures totalBytes <= byteCap || AtMostOneSnapshot(files)
    {
      EvictMeetsBudget(State(), byteCap);
      ghost var added := State();
      while totalBytes > byteCap && |order| > 1
        invariant Valid(State()) && Evict(State(), byteCap) == Evict(added, byteCap)
        decreases |order|
      {
        EvictOldest();
      }
    }

    method EvictOldest()
      requires Valid(State()) && order != []
      modifies this
      ensures State() == EvictOne(old(State())) && Valid(State())
    {
      EvictOneIsValid(State());
      var oldest := order[0];
      order := order[1..];
      if oldest in files {
        var prior := files[oldest];
        totalBytes := totalBytes - Bytes(prior[0]);
        files := if |prior| == 1 then files - {oldest} else files[oldest := prior[1..]];
      }
      // An empty stored history, which the code would drop here, does not occur.
    }

    method AddSnapshot(key: string, content: Snapshot)
      requires Valid(State())
      modifies this
      ensures State() == Added(old(State()), key, content) && Valid(State())
    {
      AddedIsValid(State(), key, content);
      var history := if key in files then files[key] else [];
      totalBytes := totalBytes + Bytes(content);
      if |history| >= MAX_HISTORY_PER_FILE {
        TotalWithout(files, key);
        totalBytes := totalBytes - Bytes(history[0]);
        history := history[1..];
      }
      files := files[key := history + [content]];
      order := order + [key];
    }

    method PopSnapshot(key: string) returns (r: Option<Snapshot>)
      requires Valid(State())
      modifies this
      ensures State() == Pop(old(State()), key).0 && r == Pop(old(State()), key).1 && Valid(State())
    {
      PopIsValid(State(), key);
      if key !in files || files[key] == [] {
        return None;
      }
      var history := files[key];
      var content := history[|history| - 1];
      totalBytes := totalBytes - Bytes(content);
      files := if |history| == 1 then files - {key} else files[key := history[..|history| - 1]];
      r := Some(content);
    }
  }
}
