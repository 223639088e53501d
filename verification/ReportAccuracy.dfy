/** When the positions a batch edit reports for its added lines are the real ones. */
module ReportAccuracy {
  import opened LineText
  import opened Seqs
  import opened BatchOps
  import opened BatchReport

  /** The operations in the order they are shown. An insertion always brings in a line: an empty one
      stands for a blank line. */
  ghost predicate Shown(ds: seq<Op>, ops: set<Op>, n: nat)
  {
    && Listing(ds, ops, n) && Distinct(ds) && (forall op :: op in ds <==> op in ops)
    && Ascends(ds) && forall op | op in ds && op.kind == Insertion :: op.lines != []
  }

  // ----- sums by index

  ghost function DeltaTo(ds: seq<Op>, k: nat, t: nat): int
    requires k <= |ds|
  {
    if k == 0 then 0 else DeltaTo(ds, k - 1, t) + Delta(ds[k - 1], t)
  }

  lemma {:induction false} DeltaToIsSum(ds: seq<Op>, k: nat, t: nat)
    requires k <= |ds|
    ensures SumDelta(ds[..k], t) == DeltaTo(ds, k, t)
  {
    if k > 0 {
      DeltaToIsSum(ds, k - 1, t);
      assert ds[..k][..k - 1] == ds[..k - 1];
    }
  }

  /** Operations that are fully passed count with their whole growth. */
  lemma {:induction false} PassedSum(ds: seq<Op>, k: nat, t: nat)
    requires k <= |ds| && forall i | 0 <= i < k :: Delta(ds[i], t) == Growth(ds[i])
    ensures DeltaTo(ds, k, t) == OffsetAt(ds, k)
  {
    if k > 0 {
      PassedSum(ds, k - 1, t);
    }
  }

  /** Operations further down do not count. */
  lemma {:induction false} AheadSum(ds: seq<Op>, k: nat, l: nat, t: nat)
    requires k <= l <= |ds| && forall i | k <= i < l :: Delta(ds[i], t) == 0
    ensures DeltaTo(ds, l, t) == DeltaTo(ds, k, t)
  {
    if k < l {
      AheadSum(ds, k, l - 1, t);
    }
  }

  // ----- neighbours in the shown order

  lemma Apart(ds: seq<Op>, ops: set<Op>, n: nat, i: nat, j: nat)
    requires Shown(ds, ops, n) && i < j < |ds|
    ensures ds[i] in ops && ds[j] in ops && !Conflict(ds[i], ds[j]) && First(ds[i]) <= First(ds[j])
    ensures Targeted(ds[i], n) && Targeted(ds[j], n)
  {
    assert ds[i] in ds && ds[j] in ds && ds[i] != ds[j];
  }

  /** Only an insertion after the replaced line itself can be shown before a replacement without
      lying above it, and then it comes immediately before. */
  lemma BeforeReplacement(ds: seq<Op>, ops: set<Op>, n: nat, i: nat, k: nat)
    requires Shown(ds, ops, n) && i < k < |ds| && ds[k].kind == Replacement
    ensures First(ds[i]) < First(ds[k]) ==> Delta(ds[i], First(ds[k]) - 1) == Growth(ds[i])
    ensures First(ds[i]) == First(ds[k]) ==> i == k - 1 && ds[i].kind == Insertion
  {
    Apart(ds, ops, n, i, k);
    if First(ds[i]) == First(ds[k]) && i < k - 1 {
      Apart(ds, ops, n, i, k - 1);
      Apart(ds, ops, n, k - 1, k);
    }
  }

  /** Everything shown before an insertion lies above its gap. */
  lemma BeforeInsertion(ds: seq<Op>, ops: set<Op>, n: nat, i: nat, k: nat)
    requires Shown(ds, ops, n) && i < k < |ds| && ds[k].kind == Insertion
    ensures Delta(ds[i], Anchor(ds[k])) == Growth(ds[i])
  {
    Apart(ds, ops, n, i, k);
  }

  /** Shown after an insertion, only a replacement of its own line still counts, and it would come
      immediately after. */
  lemma AfterInsertion(ds: seq<Op>, ops: set<Op>, n: nat, k: nat, i: nat)
    requires Shown(ds, ops, n) && k < i < |ds| && ds[k].kind == Insertion
    ensures Delta(ds[i], Anchor(ds[k])) == 0 || (i == k + 1 && Tie(ds, k + 1))
  {
    Apart(ds, ops, n, k, i);
    if First(ds[i]) == First(ds[k]) {
      BeforeReplacement(ds, ops, n, k, i);
    }
  }

  /** An insertion is shown immediately before the replacement of its own line. */
  ghost predicate Tie(ds: seq<Op>, k: nat)
  {
    0 < k < |ds| && ds[k - 1].kind == Insertion && ds[k].kind == Replacement && First(ds[k - 1]) == First(ds[k])
  }

  // ----- one operation

  /** If the first l operations are fully passed at line t and no other has begun, the offset
      after them is the whole change up to t. */
  lemma OffsetIsChange(ds: seq<Op>, l: nat, t: nat)
    requires l <= |ds|
    requires forall i | 0 <= i < l :: Delta(ds[i], t) == Growth(ds[i])
    requires forall i | l <= i < |ds| :: Delta(ds[i], t) == 0
    ensures OffsetAt(ds, l) == SumDelta(ds, t)
  {
    DeltaToIsSum(ds, |ds|, t);
    assert ds[..|ds|] == ds;
    AheadSum(ds, l, |ds|, t);
    PassedSum(ds, l, t);
  }

  /** What is shown before a replacement adds up to the change above it, plus the lines of an
      insertion shown too early. */
  lemma ReplacementOffset(ds: seq<Op>, ops: set<Op>, n: nat, k: nat, t: nat)
    requires Shown(ds, ops, n) && k < |ds| && ds[k].kind == Replacement && First(ds[k]) == t + 1
    ensures OffsetAt(ds, k) == SumDelta(ds, t) + if Tie(ds, k) then Growth(ds[k - 1]) else 0
  {
    var l := if Tie(ds, k) then k - 1 else k;
    forall i | l <= i < |ds|
      ensures Delta(ds[i], t) == 0
    {
      if i > k { Apart(ds, ops, n, k, i); }
    }
    forall i | 0 <= i < l
      ensures Delta(ds[i], t) == Growth(ds[i])
    {
      Apart(ds, ops, n, i, k);
      BeforeReplacement(ds, ops, n, i, k);
    }
    OffsetIsChange(ds, l, t);
  }

  /** What is shown before an insertion adds up to the change above it, apart from its own lines. */
  lemma InsertionOffset(ds: seq<Op>, ops: set<Op>, n: nat, k: nat, t: nat)
    requires Shown(ds, ops, n) && k < |ds| && ds[k].kind == Insertion && Anchor(ds[k]) == t && !Tie(ds, k + 1)
    ensures OffsetAt(ds, k + 1) == SumDelta(ds, t)
  {
    forall i | k + 1 <= i < |ds|
      ensures Delta(ds[i], t) == 0
    {
      AfterInsertion(ds, ops, n, k, i);
    }
    forall i | 0 <= i < k
      ensures Delta(ds[i], t) == Growth(ds[i])
    {
      BeforeInsertion(ds, ops, n, i, k);
    }
    OffsetIsChange(ds, k + 1, t);
  }

  /** No operation starts before the file does. */
  lemma StartIsInside(ds: seq<Op>, ops: set<Op>, n: nat, op: Op)
    requires Listing(ds, ops, n) && op in ops
    ensures StartOf(ds, op) >= 0
  {
    var lines := seq(n, _ => EditableLine("", Lf));
    BlockIsAtStart(lines, ds, ops, Lf, op);
  }

  /** The position of a replacement is reported right unless an insertion of its line comes first. */
  lemma ReplacementAccuracy(ops: set<Op>, n: nat, ds: seq<Op>, k: nat)
    requires Shown(ds, ops, n) && k < |ds| && ds[k].kind == Replacement
    ensures AccurateAt(ds, k) <==> !Tie(ds, k)
  {
    assert ds[k] in ds;
    ReplacementOffset(ds, ops, n, k, First(ds[k]) - 1);
    StartIsInside(ds, ops, n, ds[k]);
    if Tie(ds, k) {
      InsertionGrows(ds, ops, n, k - 1);
    }
  }

  lemma InsertionGrows(ds: seq<Op>, ops: set<Op>, n: nat, k: nat)
    requires Shown(ds, ops, n) && k < |ds| && ds[k].kind == Insertion
    ensures Growth(ds[k]) > 0
  {
    assert ds[k] in ds;
  }

  /** That of an insertion unless it lands at the top of the file from further down. */
  lemma InsertionAccuracy(ops: set<Op>, n: nat, ds: seq<Op>, k: nat)
    requires Shown(ds, ops, n) && k < |ds| && ds[k].kind == Insertion && !Tie(ds, k + 1)
    ensures AccurateAt(ds, k) <==> !(Anchor(ds[k]) > 0 && StartOf(ds, ds[k]) == 0)
  {
    var op := ds[k];
    assert op in ds;
    InsertionOffset(ds, ops, n, k, Anchor(op));
    StartIsInside(ds, ops, n, op);
    if Anchor(op) == 0 {
      DeltaAtStart(ds, ops, n);
      InsertedIs(ops, 0, op);
    }
  }

  // ----- the whole report

  /** The k-th operation is reported where its lines really are. */
  ghost predicate AccurateAt(ds: seq<Op>, k: nat)
  {
    k < |ds| && Reported(ds[k], OffsetAt(ds, k)) == StartOf(ds, ds[k]) + 1
  }

  ghost predicate Accurate(ds: seq<Op>)
  {
    forall k | 0 <= k < |ds| :: AccurateAt(ds, k)
  }

  /** No insertion is listed before the replacement of the very line it goes after. */
  predicate NoEarlyInsertion(ops: seq<Op>)
  {
    forall i, j | 0 <= i < j < |ops| ::
      !(ops[i].kind == Insertion && ops[j].kind == Replacement && First(ops[j]) == Anchor(ops[i]))
  }

  /** Line u is replaced by nothing and nothing is inserted before it. */
  ghost predicate Wiped(lines: seq<EditableLine>, ops: set<Op>, ending: Ending, u: nat)
    requires 1 <= u <= |lines|
  {
    Gap(ops, ending, u - 1) == [] && Out(lines, ops, ending, u) == []
  }

  /** An insertion below line 0 with everything above it deleted. */
  ghost predicate Orphaned(lines: seq<EditableLine>, ops: set<Op>, ending: Ending, op: Op)
  {
    op.kind == Insertion && 0 < Anchor(op) <= |lines| && forall u | 1 <= u <= Anchor(op) :: Wiped(lines, ops, ending, u)
  }

  lemma {:induction false} NothingWoven(gap: Piece, piece: Piece, t: nat)
    ensures |Woven(gap, piece, t)| == 0 <==> forall u: nat | 1 <= u <= t :: NothingAt(gap, piece, u)
  {
    if t > 0 {
      NothingWoven(gap, piece, t - 1);
      assert NothingAt(gap, piece, t) <==> |gap(t - 1)| == 0 && |piece(t)| == 0;
    }
  }

  ghost predicate NothingAt(gap: Piece, piece: Piece, u: nat)
  {
    u > 0 ==> gap(u - 1) == [] && piece(u) == []
  }

  lemma WipedIsNothing(lines: seq<EditableLine>, ops: set<Op>, ending: Ending, gap: Piece, piece: Piece, u: nat)
    requires Pieces(lines, ops, ending, gap, piece) && 1 <= u <= |lines|
    ensures Wiped(lines, ops, ending, u) <==> NothingAt(gap, piece, u)
  {
  }

  /** An insertion lands at the top of the file from further down exactly if it is orphaned. */
  lemma OrphanedLandsOnTop(lines: seq<EditableLine>, ds: seq<Op>, ops: set<Op>, ending: Ending, op: Op)
    requires Listing(ds, ops, |lines|) && op in ops && op.kind == Insertion
    ensures Orphaned(lines, ops, ending, op) <==> Anchor(op) > 0 && StartOf(ds, op) == 0
  {
    var t := Anchor(op);
    var gap, piece, change := InPieces(lines, ds, ops, ending);
    BlockIsPiece(lines, ops, ending, gap, piece, op);
    WovenLength(gap, piece, change, |lines|, t);
    NothingWoven(gap, piece, t);
    forall u: nat | 1 <= u <= t
      ensures Wiped(lines, ops, ending, u) <==> NothingAt(gap, piece, u)
    {
      WipedIsNothing(lines, ops, ending, gap, piece, u);
    }
  }

  lemma TieMeansEarly(ops: seq<Op>, n: nat, k: nat)
    requires Shown(SortAsc(ops), AsSet(ops), n) && Distinct(ops) && Tie(SortAsc(ops), k)
    ensures !NoEarlyInsertion(ops)
  {
    var ds := SortAsc(ops);
    SortAscSpec(ops);
    var x, y := ds[k - 1], ds[k];
    assert Precedes(ds, x, y);
    PrecedesIsAsymmetric(ds, x, y);
    assert x in ds && y in ds;
    var i :| 0 <= i < |ops| && ops[i] == x;
    var j :| 0 <= j < |ops| && ops[j] == y;
    if j < i {
      assert Precedes(ops, y, x);
      SortAscIsStable(ops, y, x);
    }
  }

  lemma EarlyMeansTie(ops: seq<Op>, n: nat, i: nat, j: nat) returns (k: nat)
    requires Shown(SortAsc(ops), AsSet(ops), n) && Distinct(ops) && i < j < |ops|
    requires ops[i].kind == Insertion && ops[j].kind == Replacement && First(ops[j]) == Anchor(ops[i])
    ensures Tie(SortAsc(ops), k)
  {
    var ds := SortAsc(ops);
    assert Precedes(ops, ops[i], ops[j]);
    SortAscIsStable(ops, ops[i], ops[j]);
    var g, h :| 0 <= g < h < |ds| && ds[g] == ops[i] && ds[h] == ops[j];
    BeforeReplacement(ds, AsSet(ops), n, g, h);
    k := h;
  }

  lemma AccurateWithoutTie(lines: seq<EditableLine>, ops: set<Op>, ending: Ending, ds: seq<Op>, k: nat)
    requires Shown(ds, ops, |lines|) && k < |ds| && !Tie(ds, k) && !Tie(ds, k + 1)
    ensures AccurateAt(ds, k) <==> !Orphaned(lines, ops, ending, ds[k])
  {
    assert ds[k] in ds;
    if ds[k].kind == Replacement {
      ReplacementAccuracy(ops, |lines|, ds, k);
    } else {
      InsertionAccuracy(ops, |lines|, ds, k);
      OrphanedLandsOnTop(lines, ds, ops, ending, ds[k]);
    }
  }

  lemma SortedIsShown(ops: seq<Op>, n: nat)
    requires Listing(ops, AsSet(ops), n) && forall op | op in ops && op.kind == Insertion :: op.lines != []
    ensures Shown(SortAsc(ops), AsSet(ops), n) && Distinct(ops)
  {
    ListsSpec(ops, AsSet(ops));
    SortAscSpec(ops);
    DistinctLists(SortAsc(ops), AsSet(ops));
  }

  /** The report is accurate exactly when no insertion is listed before the replacement of its own
      line and, for every insertion below line 0, something is left above it. */
  lemma ReportIsAccurate(lines: seq<EditableLine>, ending: Ending, ops: seq<Op>)
    requires Listing(ops, AsSet(ops), |lines|) && forall op | op in ops && op.kind == Insertion :: op.lines != []
    ensures Accurate(SortAsc(ops))
       <==> NoEarlyInsertion(ops) && forall op | op in ops :: !Orphaned(lines, AsSet(ops), ending, op)
  {
    var ds, s, n := SortAsc(ops), AsSet(ops), |lines|;
    SortedIsShown(ops, n);
    if !NoEarlyInsertion(ops) {
      var i, j :|
        0 <= i < j < |ops| && ops[i].kind == Insertion && ops[j].kind == Replacement && First(ops[j]) == Anchor(ops[i]);
      var k := EarlyMeansTie(ops, n, i, j);
      ReplacementAccuracy(s, n, ds, k);
    } else {
      forall k: nat | k < |ds|
        ensures AccurateAt(ds, k) <==> !Orphaned(lines, s, ending, ds[k])
      {
        NoTie(ops, n, k);
        NoTie(ops, n, k + 1);
        AccurateWithoutTie(lines, s, ending, ds, k);
      }
      SortAscSpec(ops);
      assert forall op | op in ops :: op in ds;
    }
  }

  lemma NoTie(ops: seq<Op>, n: nat, k: nat)
    requires Shown(SortAsc(ops), AsSet(ops), n) && Distinct(ops) && NoEarlyInsertion(ops)
    ensures !Tie(SortAsc(ops), k)
  {
    if Tie(SortAsc(ops), k) {
      TieMeansEarly(ops, n, k);
    }
  }

  // ----- the two ways a report goes wrong

  lemma SortedPair(a: Op, b: Op, t: nat)
    requires First(a) <= First(b)
    ensures SortAsc([a, b]) == [a, b] && OffsetAt([a, b], 1) == Growth(a)
    ensures SumDelta([a, b], t) == Delta(a, t) + Delta(b, t)
  {
    assert [a, b][..1] == [a] && [a][..0] == [] && [a][1..] == [];
    assert SortAsc([]) == [];
    assert SortAsc([a]) == [a];
    assert SortAsc([a, b]) == InsertAsc(b, [a]);
    assert InsertAsc(b, [a]) == [a] + InsertAsc(b, []);
    assert OffsetAt([a, b], 1) == OffsetAt([a, b], 0) + Growth(a);
    assert SumDelta([a], t) == SumDelta([], t) + Delta(a, t);
  }

  /** In a one-line file, an insertion after line 1 listed before a replacement of line 1: the
      replacement is reported one line too far down. */
  lemma EarlyInsertionIsMisreported()
    ensures var ops := [Op(Insertion, Single(1), ["b"], 0), Op(Replacement, Range(1, 1), ["a"], 1)];
            && ConflictFree(ops) && !NoEarlyInsertion(ops)
            && SortAsc(ops) == ops && Reported(ops[1], OffsetAt(ops, 1)) == 2 && StartOf(ops, ops[1]) == 0
  {
    var a, b := Op(Insertion, Single(1), ["b"], 0), Op(Replacement, Range(1, 1), ["a"], 1);
    SortedPair(a, b, 0);
  }

  /** In a one-line file, a replacement of line 1 by nothing and an insertion after it: the inserted
      line is the only one left, but is reported as line 2. */
  lemma OrphanedInsertionIsMisreported()
    ensures var ops := [Op(Replacement, Range(1, 1), [], 0), Op(Insertion, Single(1), ["b"], 1)];
            && ConflictFree(ops) && NoEarlyInsertion(ops)
            && SortAsc(ops) == ops && Reported(ops[1], OffsetAt(ops, 1)) == 2 && StartOf(ops, ops[1]) == 0
  {
    var a, b := Op(Replacement, Range(1, 1), [], 0), Op(Insertion, Single(1), ["b"], 1);
    SortedPair(a, b, 1);
  }
}
