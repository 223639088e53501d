/** Edit scripts between two sequences of lines: what a line diff promises. */
module EditScript {

  /** One step of a line diff; indices are 0-based into the old and the new lines. */
  datatype DiffOp = Equal(i: nat, j: nat) | Delete(i: nat) | Insert(j: nat)

  /** `ops` leads from the grid point (x, y) to (x', y'): it visits every index of `a` from x
      to x' and of `new` from y to y' once, in order, and pairs only equal lines. */
  ghost predicate Walk<T>(a: seq<T>, b: seq<T>, ops: seq<DiffOp>, x: nat, y: nat, x': nat, y': nat)
  {
    if ops == [] then
      x == x' <= |a| && y == y' <= |b|
    else
      match ops[0]
      case Equal(i, j) => i == x < |a| && j == y < |b| && a[x] == b[y] && Walk(a, b, ops[1..], x + 1, y + 1, x', y')
      case Delete(i) => i == x < |a| && Walk(a, b, ops[1..], x + 1, y, x', y')
      case Insert(j) => j == y < |b| && Walk(a, b, ops[1..], x, y + 1, x', y')
  }

  /** A complete script from `a` to `b`. */
  ghost predicate IsScript<T>(a: seq<T>, b: seq<T>, ops: seq<DiffOp>)
  {
    Walk(a, b, ops, 0, 0, |a|, |b|)
  }

  /** The number of insertions and deletions. */
  ghost function Edits(ops: seq<DiffOp>): nat
  {
    if ops == [] then 0 else (if ops[0].Equal? then 0 else 1) + Edits(ops[1..])
  }

  /** The number of kept lines. */
  ghost function Kept(ops: seq<DiffOp>): nat
  {
    if ops == [] then 0 else (if ops[0].Equal? then 1 else 0) + Kept(ops[1..])
  }

  /** The indices of `op` exist in sequences of n old and m new lines. */
  ghost predicate Fits(op: DiffOp, n: nat, m: nat)
  {
    match op
    case Equal(i, j) => i < n && j < m
    case Delete(i) => i < n
    case Insert(j) => j < m
  }

  /** The lines a script produces, taking kept lines from `a` and inserted lines from `b`. */
  ghost function Replay<T>(a: seq<T>, b: seq<T>, ops: seq<DiffOp>): seq<T>
    requires forall k | 0 <= k < |ops| :: Fits(ops[k], |a|, |b|)
  {
    if ops == [] then []
    else
      assert Fits(ops[0], |a|, |b|);
      match ops[0]
      case Equal(i, _) => [a[i]] + Replay(a, b, ops[1..])
      case Delete(_) => Replay(a, b, ops[1..])
      case Insert(j) => [b[j]] + Replay(a, b, ops[1..])
  }

  /** Replaying a script on `a` gives exactly the new lines it spans. */
  lemma {:induction false} ReplayWalk<T>(a: seq<T>, b: seq<T>, ops: seq<DiffOp>, x: nat, y: nat, x': nat, y': nat)
    requires Walk(a, b, ops, x, y, x', y')
    ensures x <= x' <= |a| && y <= y' <= |b|
    ensures forall k | 0 <= k < |ops| :: Fits(ops[k], |a|, |b|)
    ensures Replay(a, b, ops) == b[y..y']
  {
    if ops != [] {
      var x1 := if ops[0].Insert? then x else x + 1;
      var y1 := if ops[0].Delete? then y else y + 1;
      ReplayWalk(a, b, ops[1..], x1, y1, x', y');
      assert forall k | 0 < k < |ops| :: ops[k] == ops[1..][k - 1];
      if !ops[0].Delete? {
        assert b[y..y'] == [b[y]] + b[y + 1..y'];
      }
    }
  }

  /** Every script from `a` to `b` rebuilds `b`. */
  lemma ReplayScript<T>(a: seq<T>, b: seq<T>, ops: seq<DiffOp>)
    requires IsScript(a, b, ops)
    ensures forall k | 0 <= k < |ops| :: Fits(ops[k], |a|, |b|)
    ensures Replay(a, b, ops) == b
  {
    ReplayWalk(a, b, ops, 0, 0, |a|, |b|);
    assert b[0..|b|] == b;
  }

  /** Kept lines count once on each side, edited lines on one side only. */
  lemma {:induction false} WalkCounts<T>(a: seq<T>, b: seq<T>, ops: seq<DiffOp>, x: nat, y: nat, x': nat, y': nat)
    requires Walk(a, b, ops, x, y, x', y')
    ensures x <= x' && y <= y'
    ensures Edits(ops) + 2 * Kept(ops) == (x' - x) + (y' - y)
    ensures Edits(ops) + Kept(ops) == |ops|
  {
    if ops != [] {
      var x1 := if ops[0].Insert? then x else x + 1;
      var y1 := if ops[0].Delete? then y else y + 1;
      WalkCounts(a, b, ops[1..], x1, y1, x', y');
    }
  }

  /** Walks compose. */
  lemma {:induction false} WalkAppend<T>(a: seq<T>, b: seq<T>, p: seq<DiffOp>, q: seq<DiffOp>,
                                         x: nat, y: nat, x1: nat, y1: nat, x2: nat, y2: nat)
    requires Walk(a, b, p, x, y, x1, y1) && Walk(a, b, q, x1, y1, x2, y2)
    ensures Walk(a, b, p + q, x, y, x2, y2)
    ensures Edits(p + q) == Edits(p) + Edits(q)
  {
    if p == [] {
      assert p + q == q;
    } else {
      assert (p + q)[1..] == p[1..] + q;
      WalkAppend(a, b, p[1..], q, if p[0].Insert? then x else x + 1, if p[0].Delete? then y else y + 1, x1, y1, x2, y2);
    }
  }
}
