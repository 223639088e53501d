/** Facts on sequences that proofs use by name. */
module Seqs {
  lemma Cat<T>(p: seq<T>, q: seq<T>, r: seq<T>)
    ensures (p + q) + r == p + (q + r)
  {
  }

  lemma CatEmpty<T>(s: seq<T>)
    ensures s + [] == s && [] + s == s
  {
  }

  lemma LastSplit<T>(s: seq<T>)
    requires s != []
    ensures s == s[..|s| - 1] + [s[|s| - 1]]
  {
  }

  lemma HeadTail<T>(s: seq<T>)
    requires s != []
    ensures s == [s[0]] + s[1..]
  {
  }

  /** Four pieces, regrouped. */
  lemma Regroup<T>(p: seq<T>, g: seq<T>, o: seq<T>, r: seq<T>)
    ensures p + (g + (o + r)) == (p + g + o) + r
  {
  }

  /** The front of the second part lies after the first. */
  lemma SliceAfter<T>(total: seq<T>, p: seq<T>, rest: seq<T>, m: seq<T>)
    requires total == p + rest && m <= rest
    ensures |p| + |m| <= |total| && total[|p|..|p| + |m|] == m
  {
  }

  // ----- pieces given by position, so that proofs on their order need not know them

  /** The pieces at from + 1 .. t, in order. */
  ghost function Concat<T>(piece: nat -> seq<T>, from: nat, t: nat): seq<T>
  {
    if t <= from then [] else Concat(piece, from, t - 1) + piece(t)
  }

  lemma {:induction false} ConcatSplit<T>(piece: nat -> seq<T>, from: nat, mid: nat, t: nat)
    requires from <= mid <= t
    ensures Concat(piece, from, t) == Concat(piece, from, mid) + Concat(piece, mid, t)
  {
    if mid < t {
      ConcatSplit(piece, from, mid, t - 1);
      Cat(Concat(piece, from, mid), Concat(piece, mid, t - 1), piece(t));
    } else {
      CatEmpty(Concat(piece, from, mid));
    }
  }

  /** Gap t, then piece t + 1, and so on to gap n. */
  ghost function Weave<T>(gap: nat -> seq<T>, piece: nat -> seq<T>, n: nat, t: nat): seq<T>
    requires t <= n
    decreases n - t
  {
    gap(t) + if t == n then [] else piece(t + 1) + Weave(gap, piece, n, t + 1)
  }

  /** Everything woven before gap t. */
  ghost function Woven<T>(gap: nat -> seq<T>, piece: nat -> seq<T>, t: nat): seq<T>
  {
    if t == 0 then [] else Woven(gap, piece, t - 1) + gap(t - 1) + piece(t)
  }

  lemma {:induction false} WeaveSplit<T>(gap: nat -> seq<T>, piece: nat -> seq<T>, n: nat, t: nat)
    requires t <= n
    ensures Weave(gap, piece, n, 0) == Woven(gap, piece, t) + Weave(gap, piece, n, t)
  {
    if t > 0 {
      WeaveSplit(gap, piece, n, t - 1);
      Regroup(Woven(gap, piece, t - 1), gap(t - 1), piece(t), Weave(gap, piece, n, t));
    } else {
      CatEmpty(Weave(gap, piece, n, 0));
    }
  }

  lemma WovenAroundGap<T>(gap: nat -> seq<T>, piece: nat -> seq<T>, n: nat, t: nat)
    requires t <= n
    ensures var p, w := |Woven(gap, piece, t)|, Weave(gap, piece, n, 0);
            p + |gap(t)| <= |w| && w[p..p + |gap(t)|] == gap(t)
  {
    WeaveSplit(gap, piece, n, t);
    assert gap(t) <= Weave(gap, piece, n, t);
    SliceAfter(Weave(gap, piece, n, 0), Woven(gap, piece, t), Weave(gap, piece, n, t), gap(t));
  }

  lemma WovenAroundPiece<T>(gap: nat -> seq<T>, piece: nat -> seq<T>, n: nat, t: nat)
    requires t < n
    ensures var p, w := |Woven(gap, piece, t)| + |gap(t)|, Weave(gap, piece, n, 0);
            p + |piece(t + 1)| <= |w| && w[p..p + |piece(t + 1)|] == piece(t + 1)
  {
    WeaveSplit(gap, piece, n, t);
    SlicePiece(Weave(gap, piece, n, 0), Woven(gap, piece, t), gap(t), piece(t + 1), Weave(gap, piece, n, t + 1));
  }

  lemma SlicePiece<T>(total: seq<T>, p: seq<T>, g: seq<T>, m: seq<T>, rest: seq<T>)
    requires total == p + (g + (m + rest))
    ensures |p| + |g| + |m| <= |total| && total[|p| + |g|..|p| + |g| + |m|] == m
  {
    Cat(p, g, m + rest);
    SliceAfter(total, p + g, m + rest, m);
  }
}
