/** The result of a batch edit: where it says added lines landed, and how far it says the other
    lines moved. */
module BatchReport {
  import opened Wrappers
  import opened LineText
  import opened Seqs
  import opened EditableText
  import opened BatchOps
  import opened BatchEdit
  import opened ShiftNote

  // ----- real positions

  /** The result shows these lines from the s-th on. */
  ghost predicate Shows(result: seq<EditableLine>, s: int, block: seq<EditableLine>)
  {
    0 <= s <= s + |block| <= |result| && result[s..s + |block|] == block
  }

  /** Where the lines an operation brings in start in the result, 0-based: below its line, shifted by
      what all operations change above. */
  function StartOf(rs: seq<Op>, op: Op): int
  {
    if op.kind == Insertion then Anchor(op) + SumDelta(rs, Anchor(op)) - |op.lines|
    else First(op) - 1 + if First(op) > 0 then SumDelta(rs, First(op) - 1) else 0
  }

  /** The list holds each operation of the set once. */
  ghost predicate Lists(rs: seq<Op>, ops: set<Op>)
  {
    if rs == [] then ops == {} else rs[|rs| - 1] in ops && Lists(rs[..|rs| - 1], ops - {rs[|rs| - 1]})
  }

  lemma {:induction false} ListsSpec(rs: seq<Op>, ops: set<Op>)
    requires Lists(rs, ops)
    ensures Distinct(rs) && forall op :: op in rs <==> op in ops
  {
    if rs != [] {
      LastSplit(rs);
      ListsSpec(rs[..|rs| - 1], ops - {rs[|rs| - 1]});
    }
  }

  lemma {:induction false} DistinctLists(rs: seq<Op>, ops: set<Op>)
    requires Distinct(rs) && forall op :: op in rs <==> op in ops
    ensures Lists(rs, ops)
  {
    if rs != [] {
      var front, last := rs[..|rs| - 1], rs[|rs| - 1];
      LastSplit(rs);
      assert last !in front;
      DistinctLists(front, ops - {last});
    }
  }

  /** A listing of a whole compatible batch for a file of n lines. */
  ghost predicate Listing(rs: seq<Op>, ops: set<Op>, n: nat)
  {
    Compatible(ops) && Lists(rs, ops) && forall op | op in ops :: Targeted(op, n)
  }

  lemma {:induction false} DeltaAtStart(rs: seq<Op>, ops: set<Op>, n: nat)
    requires Compatible(ops) && Distinct(rs) && forall op | op in rs :: op in ops && Targeted(op, n)
    ensures SumDelta(rs, 0) == match InsertedAt(ops, 0) case None => 0 case Some(i) => if i in rs then |i.lines| else 0
  {
    if rs != [] {
      var front, last := rs[..|rs| - 1], rs[|rs| - 1];
      DeltaAtStart(front, ops, n);
      LastIsNew(rs);
      if last.kind == Insertion && Anchor(last) == 0 {
        InsertedIs(ops, 0, last);
      } else {
        assert Delta(last, 0) == 0 && InsertedAt(ops, 0) != Some(last);
      }
    }
  }

  /** What passing line t, and the gap after it, adds to the lengths. */
  ghost function CoverShare(ops: set<Op>, t: nat): int
    requires t > 0
  {
    match Covering(ops, t) case None => 0 case Some(r) => Delta(r, t) - Delta(r, t - 1)
  }

  ghost function GapShare(ops: set<Op>, t: nat): int
  {
    match InsertedAt(ops, t) case None => 0 case Some(i) => |i.lines|
  }

  lemma PieceLengths(lines: seq<EditableLine>, ops: set<Op>, ending: Ending, t: nat)
    requires 1 <= t <= |lines| && forall op | op in ops :: Targeted(op, |lines|)
    ensures |Out(lines, ops, ending, t)| == 1 + CoverShare(ops, t) && |Gap(ops, ending, t)| == GapShare(ops, t)
  {
  }

  lemma SharesAddUp(rs: seq<Op>, ops: set<Op>, n: nat, t: nat)
    requires Listing(rs, ops, n) && t > 0
    ensures SumDelta(rs, t) - SumDelta(rs, t - 1) == CoverShare(ops, t) + GapShare(ops, t)
  {
    ListsSpec(rs, ops);
    SumDeltaStep(rs, ops, t);
    assert Covering(ops, t).Some? ==> Covering(ops, t).value in rs;
    assert InsertedAt(ops, t).Some? ==> InsertedAt(ops, t).value in rs;
  }

  lemma ListingAtStart(rs: seq<Op>, ops: set<Op>, n: nat, ending: Ending)
    requires Listing(rs, ops, n)
    ensures SumDelta(rs, 0) == |Gap(ops, ending, 0)|
  {
    ListsSpec(rs, ops);
    DeltaAtStart(rs, ops, n);
  }

  // ----- the result in pieces of known length

  type Piece = nat -> seq<EditableLine>

  /** From one gap to the next the change grows by the extra lines of the piece and the gap. */
  ghost predicate Fits(gap: Piece, piece: Piece, change: nat -> int, u: nat)
  {
    u > 0 ==> change(u) - change(u - 1) == |piece(u)| - 1 + |gap(u)|
  }

  ghost predicate AllFit(gap: Piece, piece: Piece, change: nat -> int, n: nat)
  {
    change(0) == |gap(0)| && forall u: nat | 1 <= u <= n :: Fits(gap, piece, change, u)
  }

  lemma {:induction false} WovenLength(gap: Piece, piece: Piece, change: nat -> int, n: nat, t: nat)
    requires AllFit(gap, piece, change, n) && t <= n
    ensures |Woven(gap, piece, t)| + |gap(t)| == t + change(t)
  {
    if t > 0 {
      WovenLength(gap, piece, change, n, t - 1);
      assert Fits(gap, piece, change, t);
    }
  }

  lemma GapShows(gap: Piece, piece: Piece, change: nat -> int, n: nat, t: nat)
    requires AllFit(gap, piece, change, n) && t <= n
    ensures Shows(Weave(gap, piece, n, 0), t + change(t) - |gap(t)|, gap(t))
  {
    WovenLength(gap, piece, change, n, t);
    WovenAroundGap(gap, piece, n, t);
  }

  lemma PieceShows(gap: Piece, piece: Piece, change: nat -> int, n: nat, t: nat)
    requires AllFit(gap, piece, change, n) && t < n
    ensures Shows(Weave(gap, piece, n, 0), t + change(t), piece(t + 1))
  {
    WovenLength(gap, piece, change, n, t);
    WovenAroundPiece(gap, piece, n, t);
  }

  ghost predicate Measures(change: nat -> int, rs: seq<Op>)
  {
    forall u: nat :: change(u) == SumDelta(rs, u)
  }

  lemma StepFits(lines: seq<EditableLine>, rs: seq<Op>, ops: set<Op>, ending: Ending, gap: Piece, piece: Piece,
                 change: nat -> int, u: nat)
    requires Listing(rs, ops, |lines|) && Pieces(lines, ops, ending, gap, piece) && Measures(change, rs)
             && 1 <= u <= |lines|
    ensures Fits(gap, piece, change, u)
  {
    SharesAddUp(rs, ops, |lines|, u);
    PieceLengths(lines, ops, ending, u);
  }

  lemma PiecesFit(lines: seq<EditableLine>, rs: seq<Op>, ops: set<Op>, ending: Ending, gap: Piece, piece: Piece,
                  change: nat -> int)
    requires Listing(rs, ops, |lines|) && Pieces(lines, ops, ending, gap, piece) && Measures(change, rs)
    ensures AllFit(gap, piece, change, |lines|)
  {
    ListingAtStart(rs, ops, |lines|, ending);
    forall u: nat | 1 <= u <= |lines|
      ensures Fits(gap, piece, change, u)
    {
      StepFits(lines, rs, ops, ending, gap, piece, change, u);
    }
  }

  /** The result of a batch, as pieces whose lengths the change measures. */
  lemma InPieces(lines: seq<EditableLine>, rs: seq<Op>, ops: set<Op>, ending: Ending)
    returns (gap: Piece, piece: Piece, change: nat -> int)
    requires Listing(rs, ops, |lines|)
    ensures Pieces(lines, ops, ending, gap, piece) && Measures(change, rs) && AllFit(gap, piece, change, |lines|)
  {
    gap, piece := PiecesExist(lines, ops, ending);
    change := (u: nat) => SumDelta(rs, u);
    PiecesFit(lines, rs, ops, ending, gap, piece, change);
  }

  lemma BlockIsPiece(lines: seq<EditableLine>, ops: set<Op>, ending: Ending, gap: Piece, piece: Piece, op: Op)
    requires Pieces(lines, ops, ending, gap, piece) && Compatible(ops) && op in ops && Targeted(op, |lines|)
    ensures (if op.kind == Insertion then gap(Anchor(op)) else piece(First(op))) == Block(op.lines, ending)
  {
    if op.kind == Insertion {
      GapIs(ops, ending, op, Block(op.lines, ending));
    } else {
      OutOfReplaced(lines, ops, ending, op, First(op), Block(op.lines, ending));
    }
  }

  lemma BlockShows(rs: seq<Op>, gap: Piece, piece: Piece, change: nat -> int, n: nat, op: Op, block: seq<EditableLine>)
    requires Targeted(op, n) && AllFit(gap, piece, change, n) && Measures(change, rs) && |block| == |op.lines|
    requires if op.kind == Insertion then gap(Anchor(op)) == block else piece(First(op)) == block
    ensures Shows(Weave(gap, piece, n, 0), StartOf(rs, op), block)
  {
    if op.kind == Insertion {
      GapShows(gap, piece, change, n, Anchor(op));
    } else {
      PieceShows(gap, piece, change, n, First(op) - 1);
    }
  }

  /** The lines of an operation are at its start in the result. */
  lemma BlockIsAtStart(lines: seq<EditableLine>, rs: seq<Op>, ops: set<Op>, ending: Ending, op: Op)
    requires Listing(rs, ops, |lines|) && op in ops
    ensures Shows(Edited(lines, ops, ending), StartOf(rs, op), Block(op.lines, ending))
  {
    var gap, piece, change := InPieces(lines, rs, ops, ending);
    BlockIsPiece(lines, ops, ending, gap, piece, op);
    BlockShows(rs, gap, piece, change, |lines|, op, Block(op.lines, ending));
    EditedIsWeave(lines, ops, ending, gap, piece, 0);
  }

  // ----- the shift note

  function RegionOf(op: Op): Region
  {
    Region(if op.kind == Insertion then Anchor(op) else Last(op), Growth(op))
  }

  function RegionsOf(ops: seq<Op>): seq<Region>
  {
    if ops == [] then [] else RegionsOf(ops[..|ops| - 1]) + [RegionOf(ops[|ops| - 1])]
  }

  /** Above a line that no replacement covers, the regions add up to the whole change. */
  lemma {:induction false} RegionsAddUp(ops: seq<Op>, n: nat)
    requires n > 0 && forall op | op in ops :: !Covers(op, n) && (op.kind == Replacement ==> First(op) <= Last(op))
    ensures SumBelow(RegionsOf(ops), n) == SumDelta(ops, n - 1)
  {
    if ops != [] {
      var front, last := ops[..|ops| - 1], ops[|ops| - 1];
      RegionsAddUp(front, n);
      SumAppend(RegionsOf(front), RegionOf(last), n);
      assert last in ops;
    }
  }

  /** The shift note of a batch edit. Reading it tells every surviving line its new place. */
  method BatchShiftNote(lines: seq<EditableLine>, ending: Ending, ops: seq<Op>) returns (note: Option<seq<Part>>)
    requires Listing(ops, AsSet(ops), |lines|)
    ensures note.Some? ==> note.value != [] && IsTerse(note.value, |lines|)
    ensures forall n | 1 <= n <= |lines| && Covering(AsSet(ops), n) == None ::
              var p := n - 1 + ReadNote(note, n);
              0 <= p < |Edited(lines, AsSet(ops), ending)| && Edited(lines, AsSet(ops), ending)[p] == lines[n - 1]
  {
    var regions: seq<Region> := [];
    for i := 0 to |ops|
      invariant regions == RegionsOf(ops[..i])
    {
      assert ops[..i + 1][..i] == ops[..i];
      regions := regions + [RegionOf(ops[i])];
    }
    assert ops[..|ops|] == ops;
    note := MakeShiftNote(|lines|, regions);
    SurvivorsShown(lines, ending, ops, note, Edited(lines, AsSet(ops), ending));
  }

  lemma SurvivorsShown(lines: seq<EditableLine>, ending: Ending, ops: seq<Op>, note: Option<seq<Part>>,
                       edited: seq<EditableLine>)
    requires Listing(ops, AsSet(ops), |lines|) && edited == Edited(lines, AsSet(ops), ending)
    requires forall n | 1 <= n <= |lines| :: ReadNote(note, n) == SumBelow(RegionsOf(ops), n)
    ensures forall n | 1 <= n <= |lines| && Covering(AsSet(ops), n) == None ::
              var p := n - 1 + ReadNote(note, n); 0 <= p < |edited| && edited[p] == lines[n - 1]
  {
    forall n | 1 <= n <= |lines| && Covering(AsSet(ops), n) == None
      ensures var p := n - 1 + ReadNote(note, n); 0 <= p < |edited| && edited[p] == lines[n - 1]
    {
      SurvivorPlace(lines, ending, ops, n);
    }
  }

  lemma SurvivorPlace(lines: seq<EditableLine>, ending: Ending, ops: seq<Op>, n: nat)
    requires Listing(ops, AsSet(ops), |lines|) && 1 <= n <= |lines| && Covering(AsSet(ops), n) == None
    ensures var p := n - 1 + SumBelow(RegionsOf(ops), n);
            0 <= p < |Edited(lines, AsSet(ops), ending)| && Edited(lines, AsSet(ops), ending)[p] == lines[n - 1]
  {
    var s := AsSet(ops);
    var gap, piece, change := InPieces(lines, ops, s, ending);
    assert piece(n) == [lines[n - 1]];
    RegionsAboveSurvivor(ops, s, |lines|, n);
    LineShows(ops, gap, piece, change, |lines|, n, lines[n - 1]);
    EditedIsWeave(lines, s, ending, gap, piece, 0);
  }

  lemma LineShows(ops: seq<Op>, gap: Piece, piece: Piece, change: nat -> int, total: nat, n: nat, line: EditableLine)
    requires 1 <= n <= total && AllFit(gap, piece, change, total) && Measures(change, ops) && piece(n) == [line]
    requires SumBelow(RegionsOf(ops), n) == SumDelta(ops, n - 1)
    ensures var p, w := n - 1 + SumBelow(RegionsOf(ops), n), Weave(gap, piece, total, 0);
            0 <= p < |w| && w[p] == line
  {
    PieceShows(gap, piece, change, total, n - 1);
    OneShown(Weave(gap, piece, total, 0), n - 1 + change(n - 1), piece(n), line);
  }

  lemma OneShown(result: seq<EditableLine>, p: int, m: seq<EditableLine>, line: EditableLine)
    requires Shows(result, p, m) && m == [line]
    ensures 0 <= p < |result| && result[p] == line
  {
    assert result[p..p + 1][0] == line;
  }

  lemma RegionsAboveSurvivor(ops: seq<Op>, s: set<Op>, total: nat, n: nat)
    requires Listing(ops, s, total) && n > 0 && Covering(s, n) == None
    ensures SumBelow(RegionsOf(ops), n) == SumDelta(ops, n - 1)
  {
    ListsSpec(ops, s);
    forall op | op in ops
      ensures !Covers(op, n) && (op.kind == Replacement ==> First(op) <= Last(op))
    {
      assert op in s;
    }
    RegionsAddUp(ops, n);
  }

  /** The line is there at p with its text, and with its terminator, unless that was missing or it is
      now the end of a file without trailing newline. */
  ghost predicate KeepsLine(r: seq<EditableLine>, ending: Ending, had: bool, p: int, line: EditableLine)
  {
    && 0 <= p < |r| && r[p].text == line.text
    && (line.ending != Unterminated && (p + 1 < |r| || had || line.text == "") ==> r[p] == line)
    && (line.ending == Unterminated && (p + 1 < |r| || had) ==> r[p].ending == ending)
  }

  /** A line that no operation replaces is there in the result with its exact terminator, at its
      shifted place; only a missing terminator is added, and the final one of a file without
      trailing newline taken away. */
  lemma SurvivorKeepsTerminator(lines: seq<EditableLine>, ending: Ending, had: bool, ops: seq<Op>, n: nat)
    requires Listing(ops, AsSet(ops), |lines|) && 1 <= n <= |lines| && Covering(AsSet(ops), n) == None
    ensures var r := Preserved(Edited(lines, AsSet(ops), ending), ending, had);
            KeepsLine(r, ending, had, n - 1 + SumBelow(RegionsOf(ops), n), lines[n - 1])
  {
    SurvivorPlace(lines, ending, ops, n);
    PreservedLine(Edited(lines, AsSet(ops), ending), ending, had, n - 1 + SumBelow(RegionsOf(ops), n), lines[n - 1]);
  }

  lemma PreservedLine(edited: seq<EditableLine>, ending: Ending, had: bool, p: int, line: EditableLine)
    requires 0 <= p < |edited| && edited[p] == line
    ensures KeepsLine(Preserved(edited, ending, had), ending, had, p, line)
  {
    PreservedKeepsTerminators(edited, ending, had, p);
  }

  // ----- reported positions

  /** Stable sort by line, lowest first. */
  function InsertAsc(op: Op, s: seq<Op>): seq<Op>
  {
    if s == [] || First(s[0]) > First(op) then [op] + s else [s[0]] + InsertAsc(op, s[1..])
  }

  function SortAsc(ops: seq<Op>): seq<Op>
  {
    if ops == [] then [] else InsertAsc(ops[|ops| - 1], SortAsc(ops[..|ops| - 1]))
  }

  ghost predicate Ascends(s: seq<Op>)
  {
    forall i, j | 0 <= i < j < |s| :: First(s[i]) <= First(s[j])
  }

  /** x comes before y. */
  ghost predicate Precedes<T>(s: seq<T>, x: T, y: T)
  {
    exists i, j :: 0 <= i < j < |s| && s[i] == x && s[j] == y
  }

  lemma PrecedesCons<T>(h: T, s: seq<T>, x: T, y: T)
    ensures Precedes([h] + s, x, y) <==> (x == h && y in s) || Precedes(s, x, y)
  {
    var t := [h] + s;
    if x == h && y in s {
      var j :| 0 <= j < |s| && s[j] == y;
      assert t[0] == x && t[j + 1] == y;
    }
    if Precedes(s, x, y) {
      var i, j :| 0 <= i < j < |s| && s[i] == x && s[j] == y;
      assert t[i + 1] == x && t[j + 1] == y;
    }
    if Precedes(t, x, y) {
      var i, j :| 0 <= i < j < |t| && t[i] == x && t[j] == y;
      assert s[j - 1] == y;
      assert i > 0 ==> s[i - 1] == x;
    }
  }

  lemma {:induction false} InsertAscSpec(op: Op, s: seq<Op>)
    requires Ascends(s)
    ensures var r := InsertAsc(op, s);
            Ascends(r) && (forall x :: x in r <==> x == op || x in s)
  {
    if s != [] && First(s[0]) <= First(op) {
      InsertAscSpec(op, s[1..]);
      var r := InsertAsc(op, s[1..]);
      assert s == [s[0]] + s[1..];
      assert forall x :: x in s <==> x == s[0] || x in s[1..];
      forall i | 0 <= i < |r|
        ensures First(s[0]) <= First(r[i])
      {
        assert r[i] in r;
        if r[i] in s[1..] {
          var j :| 0 <= j < |s| - 1 && s[1..][j] == r[i];
          assert s[j + 1] == r[i];
        }
      }
    }
  }

  lemma {:induction false} InsertAscDistinct(op: Op, s: seq<Op>)
    requires Ascends(s) && Distinct(s) && op !in s
    ensures Distinct(InsertAsc(op, s))
  {
    if s != [] && First(s[0]) <= First(op) {
      assert s == [s[0]] + s[1..];
      InsertAscDistinct(op, s[1..]);
      InsertAscSpec(op, s[1..]);
      assert s[0] !in InsertAsc(op, s[1..]);
    }
  }

  /** Inserting op keeps the order of the others and puts it behind those of its own line. */
  lemma {:induction false} InsertAscKeepsOrder(op: Op, s: seq<Op>, x: Op, y: Op)
    requires Ascends(s)
    ensures Precedes(s, x, y) ==> Precedes(InsertAsc(op, s), x, y)
    ensures x in s && First(x) <= First(op) ==> Precedes(InsertAsc(op, s), x, op)
  {
    PrecedesCons(op, s, x, y);
    if s != [] && First(s[0]) <= First(op) {
      var r := InsertAsc(op, s[1..]);
      assert s == [s[0]] + s[1..];
      InsertAscSpec(op, s[1..]);
      InsertAscKeepsOrder(op, s[1..], x, y);
      PrecedesCons(s[0], s[1..], x, y);
      PrecedesCons(s[0], r, x, y);
      PrecedesCons(s[0], r, x, op);
    } else if x in s {
      var i :| 0 <= i < |s| && s[i] == x;
      assert First(s[0]) <= First(s[i]);
    }
  }

  lemma {:induction false} SortAscSpec(ops: seq<Op>)
    ensures var r := SortAsc(ops);
            Ascends(r) && (forall x :: x in r <==> x in ops) && (Distinct(ops) ==> Distinct(r))
  {
    if ops != [] {
      var front, last := ops[..|ops| - 1], ops[|ops| - 1];
      SortAscSpec(front);
      InsertAscSpec(last, SortAsc(front));
      assert ops == front + [last];
      if Distinct(ops) {
        assert last !in front;
        InsertAscDistinct(last, SortAsc(front));
      }
    }
  }

  /** Operations of the same line keep the order they are listed in. */
  lemma {:induction false} SortAscIsStable(ops: seq<Op>, x: Op, y: Op)
    requires Precedes(ops, x, y) && First(x) <= First(y)
    ensures Precedes(SortAsc(ops), x, y)
  {
    var front, last := ops[..|ops| - 1], ops[|ops| - 1];
    var i, j :| 0 <= i < j < |ops| && ops[i] == x && ops[j] == y;
    SortAscSpec(front);
    assert front[i] == x;
    if j < |front| {
      assert front[j] == y;
      SortAscIsStable(front, x, y);
    }
    InsertAscKeepsOrder(last, SortAsc(front), x, y);
  }

  lemma PrecedesIsAsymmetric<T>(s: seq<T>, x: T, y: T)
    requires Distinct(s) && Precedes(s, x, y)
    ensures !Precedes(s, y, x)
  {
    forall i, j | 0 <= i < j < |s|
      ensures !(s[i] == y && s[j] == x)
    {
      var k, l :| 0 <= k < l < |s| && s[k] == x && s[l] == y;
      assert k < j ==> s[k] != s[j];
      assert j < k ==> s[j] != s[k];
      assert l < i ==> s[l] != s[i];
      assert i < l ==> s[i] != s[l];
    }
  }

  /** The line growth of the first k operations. */
  ghost function OffsetAt(ops: seq<Op>, k: nat): int
    requires k <= |ops|
  {
    if k == 0 then 0 else OffsetAt(ops, k - 1) + Growth(ops[k - 1])
  }

  /** The 1-based line at which the report places the first added line of an operation, from the
      line growth of the operations shown before it. */
  function Reported(op: Op, offset: int): nat
  {
    var shifted := if First(op) + offset < 1 then 1 else First(op) + offset;
    if op.kind == Insertion && Anchor(op) > 0 then shifted + 1 else shifted
  }

  /** The reported positions, in the order the operations are shown. */
  method ReportPositions(ops: seq<Op>) returns (shown: seq<Op>, positions: seq<nat>)
    ensures shown == SortAsc(ops) && |positions| == |shown|
    ensures forall k | 0 <= k < |shown| :: IsReported(shown, k, positions[k])
  {
    shown := SortAsc(ops);
    positions := [];
    var offset := 0;
    for k := 0 to |shown|
      invariant |positions| == k && offset == OffsetAt(shown, k)
      invariant forall i | 0 <= i < k :: IsReported(shown, i, positions[i])
    {
      assert IsReported(shown, k, Reported(shown[k], offset));
      positions := positions + [Reported(shown[k], offset)];
      offset := NextOffset(shown, k, offset);
    }
  }

  method NextOffset(shown: seq<Op>, k: nat, offset: int) returns (next: int)
    requires k < |shown| && offset == OffsetAt(shown, k)
    ensures next == OffsetAt(shown, k + 1)
  {
    next := offset + Growth(shown[k]);
  }

  /** The report of the k-th operation shown, which knows the growth of those before it. */
  ghost predicate IsReported(shown: seq<Op>, k: nat, position: nat)
  {
    k < |shown| && position == Reported(shown[k], OffsetAt(shown, k))
  }
}
