/** The hunks of a line diff with their context (`delta.rs`). */
module DeltaHunks {
  import opened EditScript

  /** Context lines around each change. */
  const CONTEXT := 2

  // ----- positions along a script

  ghost function OldAt(ops: seq<DiffOp>, p: nat): nat
    requires p <= |ops|
  {
    if p == 0 then 0 else OldAt(ops, p - 1) + if ops[p - 1].Insert? then 0 else 1
  }

  ghost function NewAt(ops: seq<DiffOp>, p: nat): nat
    requires p <= |ops|
  {
    if p == 0 then 0 else NewAt(ops, p - 1) + if ops[p - 1].Delete? then 0 else 1
  }

  /** The op at p carries the indices that the ops before it lead to, and they are in range. */
  ghost predicate Placed<T>(a: seq<T>, b: seq<T>, ops: seq<DiffOp>, p: nat)
    requires p < |ops|
  {
    match ops[p]
    case Equal(i, j) => i == OldAt(ops, p) < |a| && j == NewAt(ops, p) < |b| && a[i] == b[j]
    case Delete(i) => i == OldAt(ops, p) < |a|
    case Insert(j) => j == NewAt(ops, p) < |b|
  }

  /** A script read by op index. */
  ghost predicate Indexed<T>(a: seq<T>, b: seq<T>, ops: seq<DiffOp>)
  {
    && (forall p | 0 <= p < |ops| :: Placed(a, b, ops, p))
    && OldAt(ops, |ops|) == |a| && NewAt(ops, |ops|) == |b|
  }

  lemma {:induction false} WalkIsIndexed<T>(a: seq<T>, b: seq<T>, ops: seq<DiffOp>, p: nat)
    requires p <= |ops|
    requires Walk(a, b, ops[p..], OldAt(ops, p), NewAt(ops, p), |a|, |b|)
    ensures forall q | p <= q < |ops| :: Placed(a, b, ops, q)
    ensures OldAt(ops, |ops|) == |a| && NewAt(ops, |ops|) == |b|
    decreases |ops| - p
  {
    if p < |ops| {
      assert ops[p..][0] == ops[p] && ops[p..][1..] == ops[p + 1..];
      assert Placed(a, b, ops, p);
      WalkIsIndexed(a, b, ops, p + 1);
    }
  }

  lemma ScriptIsIndexed<T>(a: seq<T>, b: seq<T>, ops: seq<DiffOp>)
    requires IsScript(a, b, ops)
    ensures Indexed(a, b, ops)
  {
    assert ops[0..] == ops;
    WalkIsIndexed(a, b, ops, 0);
  }

  /** Positions only grow along a script. */
  lemma {:induction false} PositionsGrow<T>(a: seq<T>, b: seq<T>, ops: seq<DiffOp>, p: nat, q: nat)
    requires p <= q <= |ops|
    ensures OldAt(ops, p) <= OldAt(ops, q) && NewAt(ops, p) <= NewAt(ops, q)
  {
    if p < q {
      PositionsGrow(a, b, ops, p, q - 1);
    }
  }

  /** Over a stretch of kept lines both positions advance together and the lines agree. */
  lemma {:induction false} KeptStretch<T>(a: seq<T>, b: seq<T>, ops: seq<DiffOp>, p: nat, q: nat)
    requires Indexed(a, b, ops) && p <= q <= |ops| && forall r | p <= r < q :: ops[r].Equal?
    ensures OldAt(ops, q) == OldAt(ops, p) + (q - p) <= |a| && NewAt(ops, q) == NewAt(ops, p) + (q - p) <= |b|
    ensures a[OldAt(ops, p)..OldAt(ops, q)] == b[NewAt(ops, p)..NewAt(ops, q)]
  {
    PositionsGrow(a, b, ops, q, |ops|);
    if p < q {
      KeptStretch(a, b, ops, p, q - 1);
      assert Placed(a, b, ops, q - 1);
      var i, j := OldAt(ops, q - 1), NewAt(ops, q - 1);
      SameSliceGrows(a, OldAt(ops, p), i, b, NewAt(ops, p), j);
    }
  }

  lemma SameSliceGrows<T>(a: seq<T>, i0: nat, i: nat, b: seq<T>, j0: nat, j: nat)
    requires i0 <= i < |a| && j0 <= j < |b| && a[i0..i] == b[j0..j] && a[i] == b[j]
    ensures a[i0..i + 1] == b[j0..j + 1]
  {
    assert a[i0..i + 1] == a[i0..i] + [a[i]];
    assert b[j0..j + 1] == b[j0..j] + [b[j]];
  }

  // ----- hunks

  /** Op p lies within the context of a change before index n. */
  ghost predicate NearChange(ops: seq<DiffOp>, n: nat, p: int)
    requires n <= |ops|
  {
    0 <= p < |ops| && exists c :: 0 <= c < n && !ops[c].Equal? && c - CONTEXT <= p <= c + CONTEXT
  }

  ghost predicate InHunk(hunks: seq<(nat, nat)>, p: int)
  {
    exists h :: 0 <= h < |hunks| && hunks[h].0 <= p <= hunks[h].1
  }

  /** Hunks are ranges of ops in order with at least one hidden op between them, and they hold
      exactly the ops in the context of a change. */
  ghost predicate AreHunks(ops: seq<DiffOp>, n: nat, hunks: seq<(nat, nat)>)
    requires n <= |ops|
  {
    && (forall h | 0 <= h < |hunks| :: hunks[h].0 <= hunks[h].1 < |ops|)
    && (forall g, h | 0 <= g < h < |hunks| :: hunks[g].1 + 1 < hunks[h].0)
    && (forall p :: InHunk(hunks, p) <==> NearChange(ops, n, p))
  }

  /** Growing the last hunk, or adding one, adds the ops of the new range. */
  lemma ExtendInHunk(hunks: seq<(nat, nat)>, hunks': seq<(nat, nat)>, lo: nat, hi: nat, p: int)
    requires |hunks| > 0 ==> hunks[|hunks| - 1].0 <= lo && hunks[|hunks| - 1].1 <= hi
    requires if |hunks| > 0 && lo <= hunks[|hunks| - 1].1 + 1
             then hunks' == hunks[..|hunks| - 1] + [(hunks[|hunks| - 1].0, hi)]
             else hunks' == hunks + [(lo, hi)]
    ensures InHunk(hunks', p) <==> InHunk(hunks, p) || lo <= p <= hi
  {
    if InHunk(hunks, p) {
      var h :| 0 <= h < |hunks| && hunks[h].0 <= p <= hunks[h].1;
      assert hunks'[h].0 <= p <= hunks'[h].1;
    } else if lo <= p <= hi {
      assert hunks'[|hunks'| - 1].0 <= p <= hunks'[|hunks'| - 1].1;
    } else {
      forall h | 0 <= h < |hunks'|
        ensures !(hunks'[h].0 <= p <= hunks'[h].1)
      {
        assert h < |hunks| ==> !(hunks[h].0 <= p <= hunks[h].1);
      }
    }
  }

  lemma ExtendNearChange(ops: seq<DiffOp>, n: nat, lo: nat, hi: nat, p: int)
    requires n < |ops| && !ops[n].Equal?
    requires lo == (if n < CONTEXT then 0 else n - CONTEXT)
    requires hi == (if n + CONTEXT < |ops| then n + CONTEXT else |ops| - 1)
    ensures NearChange(ops, n + 1, p) <==> NearChange(ops, n, p) || lo <= p <= hi
  {
  }

  lemma ExtendHunks(ops: seq<DiffOp>, n: nat, hunks: seq<(nat, nat)>, hunks': seq<(nat, nat)>, lo: nat, hi: nat)
    requires n < |ops| && AreHunks(ops, n, hunks) && !ops[n].Equal?
    requires lo == (if n < CONTEXT then 0 else n - CONTEXT)
    requires hi == (if n + CONTEXT < |ops| then n + CONTEXT else |ops| - 1)
    requires |hunks| > 0 ==> hunks[|hunks| - 1].0 <= lo && hunks[|hunks| - 1].1 <= hi
    requires if |hunks| > 0 && lo <= hunks[|hunks| - 1].1 + 1
             then hunks' == hunks[..|hunks| - 1] + [(hunks[|hunks| - 1].0, hi)]
             else hunks' == hunks + [(lo, hi)]
    ensures AreHunks(ops, n + 1, hunks')
  {
    forall p
      ensures InHunk(hunks', p) <==> NearChange(ops, n + 1, p)
    {
      ExtendInHunk(hunks, hunks', lo, hi, p);
      ExtendNearChange(ops, n, lo, hi, p);
    }
  }

  lemma KeptAddsNone(ops: seq<DiffOp>, i: nat, hunks: seq<(nat, nat)>)
    requires i < |ops| && ops[i].Equal? && AreHunks(ops, i, hunks)
    ensures AreHunks(ops, i + 1, hunks)
  {
    assert forall p :: NearChange(ops, i + 1, p) <==> NearChange(ops, i, p);
  }

  /** Ranges of op indices around each change, merged when their context touches. */
  method Hunks(ops: seq<DiffOp>) returns (hunks: seq<(nat, nat)>)
    ensures AreHunks(ops, |ops|, hunks)
    ensures hunks == [] <==> forall p | 0 <= p < |ops| :: ops[p].Equal?
  {
    hunks := [];
    for i := 0 to |ops|
      invariant AreHunks(ops, i, hunks)
      invariant hunks == [] <==> forall p | 0 <= p < i :: ops[p].Equal?
      invariant |hunks| > 0 ==>
                  hunks[|hunks| - 1].0 <= (if i < CONTEXT then 0 else i - CONTEXT)
                  && hunks[|hunks| - 1].1 <= i - 1 + CONTEXT
    {
      if ops[i].Equal? {
        KeptAddsNone(ops, i, hunks);
      } else {
        var start: nat := if i < CONTEXT then 0 else i - CONTEXT;
        var end: nat := if i + CONTEXT < |ops| then i + CONTEXT else |ops| - 1;
        ghost var before := hunks;
        if |hunks| > 0 && start <= hunks[|hunks| - 1].1 + 1 {
          var last := hunks[|hunks| - 1];
          hunks := hunks[|hunks| - 1 := (last.0, if last.1 < end then end else last.1)];
          assert hunks == before[..|before| - 1] + [(last.0, end)];
        } else {
          hunks := hunks + [(start, end)];
        }
        ExtendHunks(ops, i, before, hunks, start, end);
      }
    }
  }

  lemma ChangeIsNear(ops: seq<DiffOp>, c: nat, p: nat)
    requires c < |ops| && p < |ops| && c - CONTEXT <= p <= c + CONTEXT
    ensures !ops[c].Equal? ==> NearChange(ops, |ops|, p)
  {
  }

  /** A hunk that does not begin the script begins with a kept line. */
  lemma HunkOpensWithKept(ops: seq<DiffOp>, hunks: seq<(nat, nat)>, h: nat)
    requires AreHunks(ops, |ops|, hunks) && h < |hunks| && hunks[h].0 > 0
    ensures ops[hunks[h].0].Equal?
  {
    var p := hunks[h].0 - 1;
    forall g | 0 <= g < |hunks|
      ensures !(hunks[g].0 <= p <= hunks[g].1)
    {
    }
    ChangeIsNear(ops, p + 1, p);
  }

  /** Every op between one hunk and the next keeps its line. */
  lemma BetweenHunks(ops: seq<DiffOp>, hunks: seq<(nat, nat)>, h: nat, p: nat)
    requires AreHunks(ops, |ops|, hunks) && h <= |hunks| && p < |ops|
    requires h > 0 ==> hunks[h - 1].1 < p
    requires h < |hunks| ==> p < hunks[h].0
    ensures ops[p].Equal? && !InHunk(hunks, p)
  {
    forall g | 0 <= g < |hunks|
      ensures !(hunks[g].0 <= p <= hunks[g].1)
    {
      if g < h - 1 {
        assert hunks[g].1 + 1 < hunks[h - 1].0;
      } else if g > h {
        assert hunks[h].1 + 1 < hunks[g].0;
      }
    }
    ChangeIsNear(ops, p, p);
  }

  /** Ops of hunks before the h-th end below its start, and the ops in between are kept. */
  lemma SkippedToHunk(ops: seq<DiffOp>, hunks: seq<(nat, nat)>, h: nat, p: nat)
    requires AreHunks(ops, |ops|, hunks) && h <= |hunks| && p == (if h == 0 then 0 else hunks[h - 1].1 + 1)
    ensures h < |hunks| ==> p <= hunks[h].0 && (0 < hunks[h].0 ==> p < hunks[h].0 && ops[hunks[h].0].Equal?)
    ensures p <= |ops| && forall r | p <= r < (if h < |hunks| then hunks[h].0 else |ops|) :: ops[r].Equal?
  {
    if h < |hunks| {
      assert h > 0 ==> hunks[h - 1].1 + 1 < hunks[h].0;
      if hunks[h].0 > 0 {
        HunkOpensWithKept(ops, hunks, h);
      }
    }
    forall r | p <= r < (if h < |hunks| then hunks[h].0 else |ops|)
      ensures ops[r].Equal?
    {
      BetweenHunks(ops, hunks, h, r);
    }
  }
}
