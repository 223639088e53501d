/** The insert/delete distance of two line sequences, on the unbounded grid that the greedy
    diff explores, and its relation to scripts and to the longest common subsequence. */
module EditDistance {
  import opened EditScript

  /** Lines x of `a` and y of `b` (0-based) exist and are equal. */
  predicate Match<T(==)>(a: seq<T>, b: seq<T>, x: int, y: int)
  {
    0 <= x < |a| && 0 <= y < |b| && a[x] == b[y]
  }

  /** Least number of insertions and deletions leading from (0, 0) to (x, y). Points past the
      end of either sequence are reached by edits only. */
  function Dist<T(==)>(a: seq<T>, b: seq<T>, x: nat, y: nat): nat
    decreases x + y
  {
    if x == 0 then y
    else if y == 0 then x
    else if Match(a, b, x - 1, y - 1) then Dist(a, b, x - 1, y - 1)
    else 1 + Min(Dist(a, b, x - 1, y), Dist(a, b, x, y - 1))
  }

  function Min(u: nat, v: nat): nat { if u <= v then u else v }

  /** The distance between two whole sequences. */
  function Distance<T(==)>(a: seq<T>, b: seq<T>): nat
  {
    Dist(a, b, |a|, |b|)
  }

  /** One step right or down changes the distance by at most one. */
  lemma {:induction false} Lipschitz<T>(a: seq<T>, b: seq<T>, x: nat, y: nat)
    ensures Dist(a, b, x + 1, y) <= Dist(a, b, x, y) + 1
    ensures Dist(a, b, x, y + 1) <= Dist(a, b, x, y) + 1
    ensures Dist(a, b, x, y) <= Dist(a, b, x + 1, y) + 1
    ensures Dist(a, b, x, y) <= Dist(a, b, x, y + 1) + 1
    decreases x + y
  {
    if x > 0 { Lipschitz(a, b, x - 1, y); }
    if y > 0 { Lipschitz(a, b, x, y - 1); }
    if x > 0 && y > 0 { Lipschitz(a, b, x - 1, y - 1); }
  }

  /** The distance never falls along a diagonal. */
  lemma DiagonalStep<T>(a: seq<T>, b: seq<T>, x: nat, y: nat)
    ensures Dist(a, b, x, y) <= Dist(a, b, x + 1, y + 1)
  {
    Lipschitz(a, b, x, y);
  }

  lemma {:induction false} DiagonalMonotone<T>(a: seq<T>, b: seq<T>, x: nat, y: nat, t: nat)
    ensures Dist(a, b, x, y) <= Dist(a, b, x + t, y + t)
  {
    if t > 0 {
      DiagonalMonotone(a, b, x, y, t - 1);
      DiagonalStep(a, b, x + t - 1, y + t - 1);
    }
  }

  /** The distance lies between the offset of the diagonal and the number of lines. */
  lemma {:induction false} Bounds<T>(a: seq<T>, b: seq<T>, x: nat, y: nat)
    ensures x - y <= Dist(a, b, x, y) && y - x <= Dist(a, b, x, y) <= x + y
    decreases x + y
  {
    if x > 0 && y > 0 {
      Bounds(a, b, x - 1, y - 1);
      Bounds(a, b, x - 1, y);
      Bounds(a, b, x, y - 1);
    }
  }

  /** The distance has the parity of the diagonal. */
  lemma {:induction false} Parity<T>(a: seq<T>, b: seq<T>, x: nat, y: nat)
    ensures (Dist(a, b, x, y) + x + y) % 2 == 0
    decreases x + y
  {
    if x == 0 || y == 0 {
      assert Dist(a, b, x, y) + x + y == 2 * (x + y);
    } else if Match(a, b, x - 1, y - 1) {
      Parity(a, b, x - 1, y - 1);
    } else if Dist(a, b, x - 1, y) <= Dist(a, b, x, y - 1) {
      Parity(a, b, x - 1, y);
    } else {
      Parity(a, b, x, y - 1);
    }
  }

  /** Past the end of the old lines each further step right costs one edit. */
  lemma {:induction false} PastOld<T>(a: seq<T>, b: seq<T>, x: nat, y: nat)
    requires x >= |a|
    ensures Dist(a, b, x, y) == Dist(a, b, |a|, y) + (x - |a|)
    decreases x + y
  {
    if x > |a| && y > 0 {
      PastOld(a, b, x - 1, y);
      PastOld(a, b, x, y - 1);
      Lipschitz(a, b, |a|, y - 1);
    }
  }

  /** Past the end of the new lines each further step down costs one edit. */
  lemma {:induction false} PastNew<T>(a: seq<T>, b: seq<T>, x: nat, y: nat)
    requires y >= |b|
    ensures Dist(a, b, x, y) == Dist(a, b, x, |b|) + (y - |b|)
    decreases x + y
  {
    if y > |b| && x > 0 {
      PastNew(a, b, x, y - 1);
      PastNew(a, b, x - 1, y);
      Lipschitz(a, b, x - 1, |b|);
    }
  }

  /** Clipping: a point at or past both ends costs its overshoot on top of the distance. */
  lemma PastBoth<T>(a: seq<T>, b: seq<T>, x: nat, y: nat)
    requires x >= |a| && y >= |b|
    ensures Dist(a, b, x, y) == Distance(a, b) + (x - |a|) + (y - |b|)
  {
    PastOld(a, b, x, y);
    PastNew(a, b, |a|, y);
  }

  /** No walk has fewer edits than the distance between its end and its start requires. */
  lemma {:induction false} WalkLowerBound<T>(a: seq<T>, b: seq<T>, ops: seq<DiffOp>, x: nat, y: nat, x': nat, y': nat)
    requires Walk(a, b, ops, x, y, x', y')
    ensures Dist(a, b, x', y') <= Dist(a, b, x, y) + Edits(ops)
  {
    if ops != [] {
      Lipschitz(a, b, x, y);
      WalkLowerBound(a, b, ops[1..], if ops[0].Insert? then x else x + 1, if ops[0].Delete? then y else y + 1, x', y');
    }
  }

  /** A walk that attains the distance of a point inside the grid. */
  ghost function Shortest<T>(a: seq<T>, b: seq<T>, x: nat, y: nat): (ops: seq<DiffOp>)
    requires x <= |a| && y <= |b|
    ensures Walk(a, b, ops, 0, 0, x, y) && Edits(ops) == Dist(a, b, x, y)
    decreases x + y
  {
    if x == 0 && y == 0 then []
    else if x > 0 && y > 0 && Match(a, b, x - 1, y - 1) then
      var p := Shortest(a, b, x - 1, y - 1);
      WalkAppend(a, b, p, [Equal(x - 1, y - 1)], 0, 0, x - 1, y - 1, x, y);
      p + [Equal(x - 1, y - 1)]
    else if y == 0 || (x > 0 && Dist(a, b, x - 1, y) <= Dist(a, b, x, y - 1)) then
      var p := Shortest(a, b, x - 1, y);
      WalkAppend(a, b, p, [Delete(x - 1)], 0, 0, x - 1, y, x, y);
      p + [Delete(x - 1)]
    else
      var p := Shortest(a, b, x, y - 1);
      WalkAppend(a, b, p, [Insert(y - 1)], 0, 0, x, y - 1, x, y);
      p + [Insert(y - 1)]
  }

  /** `Distance` is the least number of edits over all scripts: none has fewer, one attains it. */
  lemma DistanceIsMinimal<T>(a: seq<T>, b: seq<T>)
    ensures forall ops :: IsScript(a, b, ops) ==> Edits(ops) >= Distance(a, b)
    ensures exists ops :: IsScript(a, b, ops) && Edits(ops) == Distance(a, b)
  {
    forall ops | IsScript(a, b, ops)
      ensures Edits(ops) >= Distance(a, b)
    {
      WalkLowerBound(a, b, ops, 0, 0, |a|, |b|);
    }
    var best := Shortest(a, b, |a|, |b|);
    assert IsScript(a, b, best);
  }
}
