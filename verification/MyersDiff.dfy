/** The greedy line diff of `delta.rs`: forward search with one shared array of furthest points,
    then a script rebuilt backwards from the recorded rounds. */
module MyersDiff {
  import opened Wrappers
  import opened EditScript
  import opened EditDistance

  /** The arrays of a search with this offset cover the diagonals -offset .. offset. */
  predicate Covers(v: seq<nat>, offset: nat) { |v| == 2 * offset + 1 }

  /** The entry of diagonal k; diagonal 0 lies at `offset`. */
  function At(v: seq<nat>, offset: nat, k: int): nat
    requires Covers(v, offset) && -(offset as int) <= k <= offset
  {
    v[k + offset]
  }

  /** Round d visits the diagonals -d, -d + 2, ..., d; this is the i-th of them. */
  function Diagonal(d: nat, i: nat): int { 2 * i - d }

  /** Whether diagonal k is entered from the diagonal above by a step down (an insertion). */
  predicate Down(v: seq<nat>, offset: nat, d: nat, k: int)
    requires Covers(v, offset) && d < offset && -(d as int) <= k <= d
  {
    k + d == 0 || (k != d && At(v, offset, k - 1) < At(v, offset, k + 1))
  }

  /** The x at which round d enters diagonal k, given the points of the previous round. */
  function Entry(v: seq<nat>, offset: nat, d: nat, k: int): nat
    requires Covers(v, offset) && d < offset && -(d as int) <= k <= d
  {
    if Down(v, offset, d, k) then At(v, offset, k + 1) else At(v, offset, k - 1) + 1
  }

  /** (x, x - k) is the furthest point of diagonal k that d edits reach. */
  ghost predicate Furthest<T>(a: seq<T>, b: seq<T>, d: nat, k: int, x: nat)
  {
    k <= x && Dist(a, b, x, x - k) <= d < Dist(a, b, x + 1, x + 1 - k)
  }

  /** v holds the furthest point of the i-th diagonal of round d. */
  ghost predicate FurthestAt<T>(a: seq<T>, b: seq<T>, v: seq<nat>, offset: nat, d: nat, i: nat)
    requires Covers(v, offset) && i <= d < offset
  {
    Furthest(a, b, d, Diagonal(d, i), At(v, offset, Diagonal(d, i)))
  }

  /** v is what the rounds before round d leave behind. */
  ghost predicate Ready<T>(a: seq<T>, b: seq<T>, v: seq<nat>, offset: nat, d: nat)
    requires Covers(v, offset) && d <= offset
  {
    if d == 0 then offset > 0 && At(v, offset, 1) == 0
    else AllFurthest(a, b, v, offset, d - 1)
  }

  /** v holds the furthest points of all diagonals of round d. */
  ghost predicate AllFurthest<T>(a: seq<T>, b: seq<T>, v: seq<nat>, offset: nat, d: nat)
    requires Covers(v, offset) && d < offset
  {
    forall i | 0 <= i <= d :: FurthestAt(a, b, v, offset, d, i)
  }

  /** Diagonal k runs through equal lines from x0 up to x. */
  ghost predicate Run<T>(a: seq<T>, b: seq<T>, k: int, x0: int, x: int)
    decreases x - x0
  {
    x0 >= x || (Match(a, b, x - 1, x - 1 - k) && Run(a, b, k, x0, x - 1))
  }

  /** From its entry in round d, diagonal k runs through equal lines up to x. */
  ghost predicate Snake<T>(a: seq<T>, b: seq<T>, v: seq<nat>, offset: nat, d: nat, k: int, x: nat)
    requires Covers(v, offset) && d < offset && -(d as int) <= k <= d
  {
    k <= Entry(v, offset, d, k) <= x && Run(a, b, k, Entry(v, offset, d, k), x)
  }

  /** w holds the end of a snake of round d on its i-th diagonal. */
  ghost predicate SnakeAt<T>(a: seq<T>, b: seq<T>, v: seq<nat>, w: seq<nat>, offset: nat, d: nat, i: nat)
    requires Covers(v, offset) && Covers(w, offset) && i <= d < offset
  {
    Snake(a, b, v, offset, d, Diagonal(d, i), At(w, offset, Diagonal(d, i)))
  }

  /** Round d leads from v to w. */
  ghost predicate RoundLeads<T>(a: seq<T>, b: seq<T>, v: seq<nat>, w: seq<nat>, offset: nat, d: nat)
    requires Covers(v, offset) && Covers(w, offset) && d < offset
  {
    forall i | 0 <= i <= d :: SnakeAt(a, b, v, w, offset, d, i)
  }

  /** Each recorded round leads to the next one. */
  ghost predicate TraceOk<T>(a: seq<T>, b: seq<T>, trace: seq<seq<nat>>, offset: nat)
  {
    && |trace| <= offset + 1
    && (forall t | 0 <= t < |trace| :: Covers(trace[t], offset))
    && (|trace| > 0 ==> Ready(a, b, trace[0], offset, 0))
    && forall t | 0 < t < |trace| :: Follows(a, b, trace, offset, t)
  }

  /** Entry t of the trace is what round t - 1 made of the entry before it. */
  ghost predicate Follows<T>(a: seq<T>, b: seq<T>, trace: seq<seq<nat>>, offset: nat, t: nat)
    requires 0 < t < |trace| <= offset + 1 && Covers(trace[t - 1], offset) && Covers(trace[t], offset)
  {
    RoundLeads(a, b, trace[t - 1], trace[t], offset, t - 1)
  }

  lemma TraceAppend<T>(a: seq<T>, b: seq<T>, trace: seq<seq<nat>>, v: seq<nat>, offset: nat)
    requires TraceOk(a, b, trace, offset) && |trace| <= offset && Covers(v, offset)
    requires if trace == [] then Ready(a, b, v, offset, 0)
             else RoundLeads(a, b, trace[|trace| - 1], v, offset, |trace| - 1)
    ensures TraceOk(a, b, trace + [v], offset)
  {
    var t' := trace + [v];
    forall t | 0 < t < |t'|
      ensures Follows(a, b, t', offset, t)
    {
      assert t < |trace| ==> Follows(a, b, trace, offset, t);
    }
  }

  // ----- one diagonal

  lemma OneDown<T>(a: seq<T>, b: seq<T>, d: nat, k: int, q: nat)
    requires d > 0 && Furthest(a, b, d - 1, k + 1, q)
    ensures k <= q && Dist(a, b, q, q - k) <= d
  {
    Lipschitz(a, b, q, q - (k + 1));
  }

  lemma OneRight<T>(a: seq<T>, b: seq<T>, d: nat, k: int, p: nat)
    requires d > 0 && Furthest(a, b, d - 1, k - 1, p)
    ensures k <= p + 1 && Dist(a, b, p + 1, p + 1 - k) <= d
  {
    Lipschitz(a, b, p, p - (k - 1));
  }

  lemma NoEdits<T>(a: seq<T>, b: seq<T>)
    ensures Dist(a, b, 0, 0) == 0
  {
  }

  lemma FurthestFor<T>(a: seq<T>, b: seq<T>, v: seq<nat>, offset: nat, d: nat, i: nat, k: int)
    requires Covers(v, offset) && d < offset && AllFurthest(a, b, v, offset, d) && i <= d && k == Diagonal(d, i)
    ensures Furthest(a, b, d, k, At(v, offset, k))
  {
    assert FurthestAt(a, b, v, offset, d, i);
  }

  lemma EntryAbove<T>(a: seq<T>, b: seq<T>, v: seq<nat>, offset: nat, d: nat, i: nat, k: int, x0: nat)
    requires Covers(v, offset) && i <= d < offset && Ready(a, b, v, offset, d) && d > 0 && k == Diagonal(d, i)
    requires Down(v, offset, d, k) && x0 == At(v, offset, k + 1)
    ensures k <= x0 && Dist(a, b, x0, x0 - k) <= d
  {
    FurthestFor(a, b, v, offset, d - 1, i, k + 1);
    OneDown(a, b, d, k, x0);
  }

  lemma EntryBelow<T>(a: seq<T>, b: seq<T>, v: seq<nat>, offset: nat, d: nat, i: nat, k: int, p: nat, x0: nat)
    requires Covers(v, offset) && i <= d < offset && Ready(a, b, v, offset, d) && d > 0 && k == Diagonal(d, i)
    requires !Down(v, offset, d, k) && p == At(v, offset, k - 1) && x0 == p + 1
    ensures k <= x0 && Dist(a, b, x0, x0 - k) <= d
  {
    FurthestFor(a, b, v, offset, d - 1, i - 1, k - 1);
    OneRight(a, b, d, k, p);
  }

  /** The entry point of a diagonal is reached within d edits. */
  lemma EntryReached<T>(a: seq<T>, b: seq<T>, v: seq<nat>, offset: nat, d: nat, i: nat)
    requires Covers(v, offset) && i <= d < offset && Ready(a, b, v, offset, d)
    ensures var k := Diagonal(d, i); var x0 := Entry(v, offset, d, k);
            k <= x0 && Dist(a, b, x0, x0 - k) <= d
  {
    var k := Diagonal(d, i);
    if d == 0 {
      NoEdits(a, b);
      assert k == 0 && Entry(v, offset, d, k) == 0;
    } else if Down(v, offset, d, k) {
      EntryAbove(a, b, v, offset, d, i, k, Entry(v, offset, d, k));
    } else {
      EntryBelow(a, b, v, offset, d, i, k, At(v, offset, k - 1), Entry(v, offset, d, k));
    }
  }

  lemma {:induction false} RunKeepsDist<T>(a: seq<T>, b: seq<T>, k: int, x0: nat, x: nat)
    requires k <= x0 <= x && Run(a, b, k, x0, x)
    ensures Dist(a, b, x, x - k) <= Dist(a, b, x0, x0 - k)
    decreases x
  {
    if x0 < x {
      RunKeepsDist(a, b, k, x0, x - 1);
    }
  }

  lemma BeyondFurthest<T>(a: seq<T>, b: seq<T>, d: nat, k: int, p: nat, x: nat)
    requires d > 0 && Furthest(a, b, d - 1, k, p) && p < x
    ensures Dist(a, b, x, x - k) >= d
  {
    DiagonalMonotone(a, b, p + 1, p + 1 - k, x - (p + 1));
  }

  /** The diagonal below was not reached as far as any x that round d enters this one at. */
  lemma LeftNeighbour<T>(a: seq<T>, b: seq<T>, v: seq<nat>, offset: nat, d: nat, i: nat, x: nat)
    requires Covers(v, offset) && i <= d < offset && Ready(a, b, v, offset, d)
    requires Diagonal(d, i) <= x && Entry(v, offset, d, Diagonal(d, i)) <= x
    ensures Dist(a, b, x, x - Diagonal(d, i) + 1) >= d
  {
    var k := Diagonal(d, i);
    if i > 0 {
      assert FurthestAt(a, b, v, offset, d - 1, i - 1);
      BeyondFurthest(a, b, d, k - 1, At(v, offset, k - 1), x);
    } else {
      Bounds(a, b, x, x - k + 1);
    }
  }

  /** Nor was the diagonal above. */
  lemma RightNeighbour<T>(a: seq<T>, b: seq<T>, v: seq<nat>, offset: nat, d: nat, i: nat, x: nat)
    requires Covers(v, offset) && i <= d < offset && Ready(a, b, v, offset, d)
    requires Diagonal(d, i) <= x && Entry(v, offset, d, Diagonal(d, i)) <= x
    ensures Dist(a, b, x + 1, x - Diagonal(d, i)) >= d
  {
    var k := Diagonal(d, i);
    if i < d {
      assert FurthestAt(a, b, v, offset, d - 1, i);
      BeyondFurthest(a, b, d, k + 1, At(v, offset, k + 1), x + 1);
    } else {
      Bounds(a, b, x + 1, x - k);
    }
  }

  /** Following equal lines from the entry as far as possible reaches the furthest point of d
      edits, if the previous round reached its own. */
  lemma ExtendIsFurthest<T>(a: seq<T>, b: seq<T>, v: seq<nat>, offset: nat, d: nat, i: nat, x: nat)
    requires Covers(v, offset) && i <= d < offset && Ready(a, b, v, offset, d)
    requires Snake(a, b, v, offset, d, Diagonal(d, i), x) && !Match(a, b, x, x - Diagonal(d, i))
    ensures Furthest(a, b, d, Diagonal(d, i), x)
  {
    EntryReached(a, b, v, offset, d, i);
    RunKeepsDist(a, b, Diagonal(d, i), Entry(v, offset, d, Diagonal(d, i)), x);
    LeftNeighbour(a, b, v, offset, d, i, x);
    RightNeighbour(a, b, v, offset, d, i, x);
  }

  /** Enters the i-th diagonal of round d and follows its equal lines as far as they go. */
  method Extend<T(==)>(a: seq<T>, b: seq<T>, v: array<nat>, ghost prior: seq<nat>, offset: nat, d: nat, k: int,
                  ghost i: nat)
    returns (x: nat, y: nat)
    requires v.Length == 2 * offset + 1 && Covers(prior, offset) && i <= d < offset && k == Diagonal(d, i)
    requires Ready(a, b, prior, offset, d)
    requires k + d > 0 ==> At(v[..], offset, k - 1) == At(prior, offset, k - 1)
    requires At(v[..], offset, k + 1) == At(prior, offset, k + 1)
    ensures k <= x && y == x - k && Furthest(a, b, d, k, x) && Snake(a, b, prior, offset, d, k, x)
  {
    var down := k + d == 0 || (k != d && v[k - 1 + offset] < v[k + 1 + offset]);
    x := if down then v[k + 1 + offset] else v[k - 1 + offset] + 1;
    EntryReached(a, b, prior, offset, d, i);
    assert x == Entry(prior, offset, d, k);
    y := x - k;
    while x < |a| && y < |b| && a[x] == b[y]
      invariant y == x - k && Snake(a, b, prior, offset, d, k, x)
      decreases |a| - x
    {
      assert Match(a, b, x, x - k);
      x, y := x + 1, y + 1;
    }
    ExtendIsFurthest(a, b, prior, offset, d, i, x);
  }

  // ----- one round

  /** What round d has established before its i-th diagonal: the earlier ones hold their furthest
      points, none of them past both ends; the diagonals ahead, and the one just below, are untouched. */
  ghost predicate Progress<T>(a: seq<T>, b: seq<T>, prior: seq<nat>, v: seq<nat>, offset: nat, d: nat, i: nat)
    requires Covers(prior, offset) && Covers(v, offset) && i <= d + 1 <= offset
  {
    && (forall k | Diagonal(d, i) <= k <= offset :: At(v, offset, k) == At(prior, offset, k))
    && (i > 0 ==> At(v, offset, Diagonal(d, i) - 1) == At(prior, offset, Diagonal(d, i) - 1))
    && (forall j | 0 <= j < i :: FurthestAt(a, b, v, offset, d, j))
    && (forall j | 0 <= j < i :: SnakeAt(a, b, prior, v, offset, d, j))
    && (forall j | 0 <= j < i :: EndsShort(a, b, v, offset, d, j))
  }

  /** The point held for the i-th diagonal of round d is not past both ends. */
  ghost predicate EndsShort<T>(a: seq<T>, b: seq<T>, v: seq<nat>, offset: nat, d: nat, i: nat)
    requires Covers(v, offset) && i <= d < offset
  {
    var x := At(v, offset, Diagonal(d, i)); x < |a| || x - Diagonal(d, i) < |b|
  }

  lemma ProgressStep<T>(a: seq<T>, b: seq<T>, prior: seq<nat>, v: seq<nat>, offset: nat, d: nat, i: nat, x: nat)
    requires Covers(prior, offset) && Covers(v, offset) && i <= d < offset
    requires Progress(a, b, prior, v, offset, d, i)
    requires var k := Diagonal(d, i);
             Furthest(a, b, d, k, x) && Snake(a, b, prior, offset, d, k, x) && (x < |a| || x - k < |b|)
    ensures Progress(a, b, prior, v[Diagonal(d, i) + offset := x], offset, d, i + 1)
  {
    var w := v[Diagonal(d, i) + offset := x];
    forall j | 0 <= j <= i
      ensures FurthestAt(a, b, w, offset, d, j) && SnakeAt(a, b, prior, w, offset, d, j)
              && EndsShort(a, b, w, offset, d, j)
    {
      if j < i {
        assert FurthestAt(a, b, v, offset, d, j) && SnakeAt(a, b, prior, v, offset, d, j)
               && EndsShort(a, b, v, offset, d, j);
        assert At(w, offset, Diagonal(d, j)) == At(v, offset, Diagonal(d, j));
      }
    }
  }

  /** The first point at or past both ends is their common end, and its round is the distance. */
  lemma MeetsEnd<T>(a: seq<T>, b: seq<T>, d: nat, k: int, x: nat)
    requires Furthest(a, b, d, k, x) && d <= Distance(a, b) && x >= |a| && x - k >= |b|
    ensures k == |a| - |b| && x == |a| && Distance(a, b) == d
  {
    PastBoth(a, b, x, x - k);
  }

  /** The diagonal that leads to the end, stopped short of it, shows the distance to be larger. */
  lemma ShortOfEnd<T>(a: seq<T>, b: seq<T>, v: seq<nat>, offset: nat, d: nat, i: nat)
    requires Covers(v, offset) && i <= d < offset && Diagonal(d, i) == |a| - |b|
    requires FurthestAt(a, b, v, offset, d, i) && EndsShort(a, b, v, offset, d, i)
    ensures Distance(a, b) != d
  {
    if Distance(a, b) == d {
      var k := |a| - |b|;
      var x := At(v, offset, k);
      DiagonalMonotone(a, b, x + 1, x + 1 - k, |a| - (x + 1));
    }
  }

  /** A round that stops short of the end on every diagonal shows the distance to be larger. */
  lemma RoundStopsShort<T>(a: seq<T>, b: seq<T>, prior: seq<nat>, v: seq<nat>, offset: nat, d: nat)
    requires Covers(prior, offset) && Covers(v, offset) && d < offset && d <= Distance(a, b)
    requires Progress(a, b, prior, v, offset, d, d + 1)
    ensures d < Distance(a, b) && Ready(a, b, v, offset, d + 1) && RoundLeads(a, b, prior, v, offset, d)
  {
    Bounds(a, b, |a|, |b|);
    Parity(a, b, |a|, |b|);
    if Distance(a, b) == d {
      var i: nat := (d + |a| + |b|) / 2 - |b|;
      assert FurthestAt(a, b, v, offset, d, i) && EndsShort(a, b, v, offset, d, i);
      ShortOfEnd(a, b, v, offset, d, i);
    }
  }

  /** The diagonal i of round d that meets the end of both sequences. */
  ghost predicate Meets<T>(a: seq<T>, b: seq<T>, v: seq<nat>, offset: nat, d: nat, i: nat)
    requires Covers(v, offset) && i <= d < offset
  {
    Diagonal(d, i) == |a| - |b| && Snake(a, b, v, offset, d, Diagonal(d, i), |a|)
  }

  /** One round: extends every diagonal of round d, unless one of them meets the end. */
  method Round<T(==)>(a: seq<T>, b: seq<T>, v: array<nat>, offset: nat, d: nat) returns (met: bool, ghost i: nat)
    requires d < offset && v.Length == 2 * offset + 1 && d <= Distance(a, b)
    requires Ready(a, b, v[..], offset, d)
    modifies v
    ensures !met ==> Progress(a, b, old(v[..]), v[..], offset, d, d + 1)
    ensures met ==> Distance(a, b) == d && i <= d && Meets(a, b, old(v[..]), offset, d, i)
  {
    ghost var prior: seq<nat> := v[..];
    ghost var now: seq<nat> := prior;
    var k := -(d as int);
    i := 0;
    while k <= d
      invariant i <= d + 1 && k == Diagonal(d, i)
      invariant now == v[..]
      invariant Progress(a, b, prior, now, offset, d, i)
      decreases d - k
    {
      assert At(now, offset, k + 1) == At(prior, offset, k + 1);
      var x: nat, y: nat := Extend(a, b, v, prior, offset, d, k, i);
      v[k + offset] := x;
      if x >= |a| && y >= |b| {
        MeetsEnd(a, b, d, k, x);
        return true, i;
      }
      ProgressStep(a, b, prior, now, offset, d, i, x);
      now := now[k + offset := x];
      k, i := k + 2, i + 1;
    }
    met := false;
  }

  // ----- the script

  function Reverse<X>(s: seq<X>): (r: seq<X>)
    ensures |r| == |s|
  {
    if s == [] then [] else [s[|s| - 1]] + Reverse(s[..|s| - 1])
  }

  /** Pushing a step onto the reversed script puts it in front of the script. */
  lemma Push<T>(a: seq<T>, b: seq<T>, ops: seq<DiffOp>, op: DiffOp, x: nat, y: nat)
    requires Walk(a, b, [op] + Reverse(ops), x, y, |a|, |b|)
    ensures Walk(a, b, Reverse(ops + [op]), x, y, |a|, |b|)
    ensures Edits(Reverse(ops + [op])) == Edits(Reverse(ops)) + if op.Equal? then 0 else 1
  {
    assert (ops + [op])[..|ops|] == ops;
    assert ([op] + Reverse(ops))[1..] == Reverse(ops);
  }

  lemma PushEqual<T>(a: seq<T>, b: seq<T>, ops: seq<DiffOp>, x: nat, y: nat)
    requires Walk(a, b, Reverse(ops), x + 1, y + 1, |a|, |b|) && Match(a, b, x, y)
    ensures Walk(a, b, Reverse(ops + [Equal(x, y)]), x, y, |a|, |b|)
    ensures Edits(Reverse(ops + [Equal(x, y)])) == Edits(Reverse(ops))
  {
    assert ([Equal(x, y)] + Reverse(ops))[1..] == Reverse(ops);
    Push(a, b, ops, Equal(x, y), x, y);
  }

  lemma PushInsert<T>(a: seq<T>, b: seq<T>, ops: seq<DiffOp>, x: nat, y: nat)
    requires Walk(a, b, Reverse(ops), x, y + 1, |a|, |b|)
    ensures Walk(a, b, Reverse(ops + [Insert(y)]), x, y, |a|, |b|)
    ensures Edits(Reverse(ops + [Insert(y)])) == Edits(Reverse(ops)) + 1
  {
    ReplayWalk(a, b, Reverse(ops), x, y + 1, |a|, |b|);
    assert ([Insert(y)] + Reverse(ops))[1..] == Reverse(ops);
    Push(a, b, ops, Insert(y), x, y);
  }

  lemma PushDelete<T>(a: seq<T>, b: seq<T>, ops: seq<DiffOp>, x: nat, y: nat)
    requires Walk(a, b, Reverse(ops), x + 1, y, |a|, |b|)
    ensures Walk(a, b, Reverse(ops + [Delete(x)]), x, y, |a|, |b|)
    ensures Edits(Reverse(ops + [Delete(x)])) == Edits(Reverse(ops)) + 1
  {
    ReplayWalk(a, b, Reverse(ops), x + 1, y, |a|, |b|);
    assert ([Delete(x)] + Reverse(ops))[1..] == Reverse(ops);
    Push(a, b, ops, Delete(x), x, y);
  }

  /** Collects the equal lines between (x, y) and the entry of its diagonal, last one first. */
  method Retrace<T>(ghost a: seq<T>, ghost b: seq<T>, ghost k: int, ghost x0: nat,
                    x: nat, y: nat, prevX: int, prevY: int, ops: seq<DiffOp>)
    returns (x': nat, y': nat, ops': seq<DiffOp>)
    requires Walk(a, b, Reverse(ops), x, y, |a|, |b|)
    requires x - y == k <= x0 <= x && Run(a, b, k, x0, x)
    requires (prevX == x0 && prevY < x0 - k) || (prevX < x0 && prevY == x0 - k)
    ensures x' == x0 && y' == x0 - k
    ensures Walk(a, b, Reverse(ops'), x', y', |a|, |b|) && Edits(Reverse(ops')) == Edits(Reverse(ops))
  {
    x', y', ops' := x, y, ops;
    while x' > prevX && y' > prevY
      invariant x0 <= x' <= x && x' - y' == k && Run(a, b, k, x0, x')
      invariant Walk(a, b, Reverse(ops'), x', y', |a|, |b|) && Edits(Reverse(ops')) == Edits(Reverse(ops))
    {
      assert Match(a, b, x' - 1, x' - 1 - k);
      PushEqual(a, b, ops', x' - 1, y' - 1);
      x', y' := x' - 1, y' - 1;
      ops' := ops' + [Equal(x', y')];
    }
  }

  /** Records the one edit between (prevX, prevY) and (x, y). */
  method StepBack<T>(ghost a: seq<T>, ghost b: seq<T>, x: nat, y: nat, prevX: nat, ghost prevY: nat, ops: seq<DiffOp>)
    returns (ops': seq<DiffOp>)
    requires Walk(a, b, Reverse(ops), x, y, |a|, |b|)
    requires (x == prevX && y == prevY + 1) || (x == prevX + 1 && y == prevY)
    ensures Walk(a, b, Reverse(ops'), prevX, prevY, |a|, |b|) && Edits(Reverse(ops')) == Edits(Reverse(ops)) + 1
  {
    if x == prevX {
      PushInsert(a, b, ops, x, y - 1);
      ops' := ops + [Insert(y - 1)];
    } else {
      PushDelete(a, b, ops, x - 1, y);
      ops' := ops + [Delete(x - 1)];
    }
  }

  /** Round d of the trace reached (x, x - k) on its i-th diagonal. */
  ghost predicate Reached<T>(a: seq<T>, b: seq<T>, trace: seq<seq<nat>>, offset: nat, d: nat, i: nat, x: nat)
  {
    i <= d < |trace| && d < offset && Covers(trace[d], offset) && Snake(a, b, trace[d], offset, d, Diagonal(d, i), x)
  }

  /** The entry x0 of a diagonal in round d lies one edit after the point that the code goes back
      to, which round d - 1 reached on its i'-th diagonal. */
  lemma TraceStep<T>(a: seq<T>, b: seq<T>, trace: seq<seq<nat>>, offset: nat, d: nat, i: nat, x: nat, prevK: int)
    returns (x0: nat, i': int)
    requires TraceOk(a, b, trace, offset) && Reached(a, b, trace, offset, d, i, x)
    requires prevK == if Down(trace[d], offset, d, Diagonal(d, i)) then Diagonal(d, i) + 1 else Diagonal(d, i) - 1
    ensures Diagonal(d, i) <= x0 <= x && Run(a, b, Diagonal(d, i), x0, x)
    ensures x0 == At(trace[d], offset, prevK) + if prevK < Diagonal(d, i) then 1 else 0
    ensures d == 0 ==> x0 == i == 0
    ensures d > 0 ==> i' >= 0 && prevK == Diagonal(d - 1, i') <= At(trace[d], offset, prevK)
                      && Reached(a, b, trace, offset, d - 1, i', At(trace[d], offset, prevK))
  {
    x0 := Entry(trace[d], offset, d, Diagonal(d, i));
    i' := if Down(trace[d], offset, d, Diagonal(d, i)) then i else i - 1;
    if d > 0 {
      assert Follows(a, b, trace, offset, d);
      assert SnakeAt(a, b, trace[d - 1], trace[d], offset, d - 1, i');
    }
  }

  /** Rebuilds the script from the recorded rounds, walking back from the end of both sequences. */
  method Backtrack<T>(ghost a: seq<T>, ghost b: seq<T>, trace: seq<seq<nat>>, n: nat, m: nat, offset: nat,
                      ghost last: nat)
    returns (script: seq<DiffOp>)
    requires n == |a| && m == |b| && 0 < |trace| <= offset
    requires TraceOk(a, b, trace, offset)
    requires Diagonal(|trace| - 1, last) == n - m && Reached(a, b, trace, offset, |trace| - 1, last, n)
    ensures IsScript(a, b, script) && Edits(script) == |trace| - 1
  {
    var ops: seq<DiffOp> := [];
    var x: nat, y: nat := n, m;
    var d := |trace|;
    ghost var i: int := last;
    while d > 0
      invariant 0 <= d <= |trace|
      invariant Walk(a, b, Reverse(ops), x, y, n, m)
      invariant d > 0 ==> i >= 0 && x - y == Diagonal(d - 1, i) && Reached(a, b, trace, offset, d - 1, i, x)
      invariant Edits(Reverse(ops)) == if d > 0 then |trace| - d else |trace| - 1
      invariant d == 0 ==> x == 0 && y == 0
    {
      d := d - 1;
      var v := trace[d];
      var k := x - y;
      var prevK := if Down(v, offset, d, k) then k + 1 else k - 1;
      var prevX := At(v, offset, prevK);
      var prevY := prevX - prevK;
      ghost var x0, i' := TraceStep(a, b, trace, offset, d, i, x, prevK);
      x, y, ops := Retrace(a, b, k, x0, x, y, prevX, prevY, ops);
      if d > 0 {
        ops := StepBack(a, b, x, y, prevX, prevY, ops);
        x, y, i := prevX, prevY, i';
      }
    }
    script := Reverse(ops);
  }

  /** Diffs two sequences of lines; fails once the edit distance exceeds `maxD`. */
  method DiffLines<T(==)>(a: seq<T>, b: seq<T>, maxD: nat) returns (r: Option<seq<DiffOp>>)
    ensures r.Some? <==> Distance(a, b) <= maxD
    ensures r.Some? ==> IsScript(a, b, r.value) && Edits(r.value) == Distance(a, b)
  {
    var n, m := |a|, |b|;
    Bounds(a, b, n, m);
    var limit := if maxD <= n + m then maxD else n + m;
    var offset := limit + 1;
    var v := new nat[2 * limit + 3](_ => 0);
    var trace: seq<seq<nat>> := [];
    for d := 0 to limit + 1
      invariant |trace| == d <= Distance(a, b)
      invariant TraceOk(a, b, trace, offset)
      invariant d > 0 ==> RoundLeads(a, b, trace[d - 1], v[..], offset, d - 1)
      invariant Ready(a, b, v[..], offset, d)
    {
      TraceAppend(a, b, trace, v[..], offset);
      trace := trace + [v[..]];
      var met, i := Round(a, b, v, offset, d);
      if met {
        var ops := Backtrack(a, b, trace, n, m, offset, i);
        return Some(ops);
      }
      RoundStopsShort(a, b, trace[d], v[..], offset, d);
    }
    r := None;
  }
}
