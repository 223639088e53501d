/** The longest common subsequence: its two-row computation in `text_editing.rs` and its relation
    to what a minimal line diff keeps. */
module Lcs {
  import opened EditScript
  import opened EditDistance

  /** Inputs longer than this are cut before the comparison. */
  const MAX_CHARS := 2000

  function Max(u: nat, v: nat): nat { if u <= v then v else u }

  /** The recurrence over the first i elements of a and the first j of b. */
  function LcsUpTo<T(==)>(a: seq<T>, b: seq<T>, i: nat, j: nat): nat
    requires i <= |a| && j <= |b|
    decreases i + j
  {
    if i == 0 || j == 0 then 0
    else if a[i - 1] == b[j - 1] then LcsUpTo(a, b, i - 1, j - 1) + 1
    else Max(LcsUpTo(a, b, i - 1, j), LcsUpTo(a, b, i, j - 1))
  }

  function LcsLen<T(==)>(a: seq<T>, b: seq<T>): nat { LcsUpTo(a, b, |a|, |b|) }

  /** s occurs in the first n elements of a at the strictly increasing positions at. */
  ghost predicate Embeds<T>(s: seq<T>, at: seq<nat>, a: seq<T>, n: nat)
  {
    && |at| == |s| && n <= |a|
    && (forall k | 0 <= k < |s| :: at[k] < n && a[at[k]] == s[k])
    && (forall k, l | 0 <= k < l < |s| :: at[k] < at[l])
  }

  ghost predicate CommonSubsequence<T>(s: seq<T>, a: seq<T>, b: seq<T>)
  {
    exists p, q :: Embeds(s, p, a, |a|) && Embeds(s, q, b, |b|)
  }

  lemma {:induction false} CommonIsBounded<T>(a: seq<T>, b: seq<T>, s: seq<T>, p: seq<nat>, q: seq<nat>, i: nat, j: nat)
    requires Embeds(s, p, a, i) && Embeds(s, q, b, j)
    ensures |s| <= LcsUpTo(a, b, i, j)
    decreases i + j
  {
    if s != [] {
      var l := |s| - 1;
      assert p[l] < i && a[p[l]] == s[l] && q[l] < j && b[q[l]] == s[l];
      if a[i - 1] == b[j - 1] {
        CommonIsBounded(a, b, s[..l], p[..l], q[..l], i - 1, j - 1);
      } else if p[l] < i - 1 {
        CommonIsBounded(a, b, s, p, q, i - 1, j);
      } else {
        CommonIsBounded(a, b, s, p, q, i, j - 1);
      }
    }
  }

  lemma {:induction false} CommonIsAttained<T>(a: seq<T>, b: seq<T>, i: nat, j: nat)
    returns (s: seq<T>, p: seq<nat>, q: seq<nat>)
    requires i <= |a| && j <= |b|
    ensures Embeds(s, p, a, i) && Embeds(s, q, b, j) && |s| == LcsUpTo(a, b, i, j)
    decreases i + j
  {
    if i == 0 || j == 0 {
      s, p, q := [], [], [];
    } else if a[i - 1] == b[j - 1] {
      s, p, q := CommonIsAttained(a, b, i - 1, j - 1);
      s, p, q := s + [a[i - 1]], p + [i - 1], q + [j - 1];
    } else if LcsUpTo(a, b, i - 1, j) > LcsUpTo(a, b, i, j - 1) {
      s, p, q := CommonIsAttained(a, b, i - 1, j);
    } else {
      s, p, q := CommonIsAttained(a, b, i, j - 1);
    }
  }

  /** `LcsLen` is the greatest length of a common subsequence. */
  lemma LcsIsLongest<T>(a: seq<T>, b: seq<T>)
    ensures forall s :: CommonSubsequence(s, a, b) ==> |s| <= LcsLen(a, b)
    ensures exists s :: CommonSubsequence(s, a, b) && |s| == LcsLen(a, b)
  {
    forall s | CommonSubsequence(s, a, b)
      ensures |s| <= LcsLen(a, b)
    {
      var p, q :| Embeds(s, p, a, |a|) && Embeds(s, q, b, |b|);
      CommonIsBounded(a, b, s, p, q, |a|, |b|);
    }
    var s, p, q := CommonIsAttained(a, b, |a|, |b|);
    assert CommonSubsequence(s, a, b);
  }

  /** Distance and common subsequence add up: every line is kept on both sides or edited once. */
  lemma {:induction false} DistAndLcs<T>(a: seq<T>, b: seq<T>, i: nat, j: nat)
    requires i <= |a| && j <= |b|
    ensures Dist(a, b, i, j) + 2 * LcsUpTo(a, b, i, j) == i + j
    decreases i + j
  {
    if i > 0 && j > 0 {
      DistAndLcs(a, b, i - 1, j - 1);
      DistAndLcs(a, b, i - 1, j);
      DistAndLcs(a, b, i, j - 1);
    }
  }

  /** A script with the least number of edits keeps exactly as many lines as the longest common
      subsequence has, and no script keeps more. */
  lemma MinimalScriptKeepsLcs<T>(a: seq<T>, b: seq<T>, ops: seq<DiffOp>)
    requires IsScript(a, b, ops)
    ensures Kept(ops) <= LcsLen(a, b)
    ensures Kept(ops) == LcsLen(a, b) <==> Edits(ops) == Distance(a, b)
    ensures Distance(a, b) == |a| + |b| - 2 * LcsLen(a, b)
  {
    WalkCounts(a, b, ops, 0, 0, |a|, |b|);
    WalkLowerBound(a, b, ops, 0, 0, |a|, |b|);
    DistAndLcs(a, b, |a|, |b|);
  }

  /** Fills the row after `prev`. */
  method FillRow<T(==)>(a: seq<T>, b: seq<T>, i: nat, prev: array<nat>, curr: array<nat>)
    requires i < |a| && prev != curr && prev.Length == curr.Length == |b| + 1 && curr[0] == 0
    requires forall j | 0 <= j <= |b| :: prev[j] == LcsUpTo(a, b, i, j)
    modifies curr
    ensures forall j | 0 <= j <= |b| :: curr[j] == LcsUpTo(a, b, i + 1, j)
  {
    for j := 0 to |b|
      invariant forall l | 0 <= l <= j :: curr[l] == LcsUpTo(a, b, i + 1, l)
    {
      curr[j + 1] := if a[i] == b[j] then prev[j] + 1 else Max(prev[j + 1], curr[j]);
    }
  }

  /** The common subsequence length of two capped inputs, by two alternating rows. */
  method LcsLength<T(==)>(a0: seq<T>, b0: seq<T>) returns (r: nat)
    ensures r == LcsLen(if |a0| > MAX_CHARS then a0[..MAX_CHARS] else a0,
              if |b0| > MAX_CHARS then b0[..MAX_CHARS] else b0)
  {
    var a := if |a0| > MAX_CHARS then a0[..MAX_CHARS] else a0;
    var b := if |b0| > MAX_CHARS then b0[..MAX_CHARS] else b0;
    var prev := new nat[|b| + 1](_ => 0);
    var curr := new nat[|b| + 1](_ => 0);
    for i := 0 to |a|
      invariant prev != curr && fresh(prev) && fresh(curr) && prev.Length == curr.Length == |b| + 1
      invariant forall j | 0 <= j <= |b| :: prev[j] == LcsUpTo(a, b, i, j)
      invariant curr[0] == 0
    {
      FillRow(a, b, i, prev, curr);
      prev, curr := curr, prev;
      forall l | 0 <= l < curr.Length {
        curr[l] := 0;
      }
    }
    r := prev[|b|];
  }
}
