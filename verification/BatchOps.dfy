/** Batch operations on one file: their targets, their conflicts, and what applying all of them at
    once means. */
module BatchOps {
  import opened Wrappers
  import opened LineText
  import opened Seqs

  datatype Kind = Insertion | Replacement

  /** Lines are 1-based; an insertion goes after its line, 0 being the start of the file. */
  datatype LineRange = Single(line: nat) | Range(start: nat, end: nat)

  /** An operation with its resolved target and the lines it brings in. */
  datatype Op = Op(kind: Kind, range: LineRange, lines: seq<string>, index: nat)

  /** The first and last line a replacement names. */
  function First(op: Op): nat { if op.range.Range? then op.range.start else op.range.line }
  function Last(op: Op): nat { if op.range.Range? then op.range.end else op.range.line }

  /** The line an insertion goes after. */
  function Anchor(op: Op): nat { First(op) }

  // ----- targets

  datatype Target =
    | AnchorNumber(n: int)
    | IdAnchor(line: nat, hash: string)
    | IdRange(startLine: nat, startHash: string, endLine: nat, endHash: string)

  datatype TargetError = InvalidAnchor(n: int) | StaleIds(ids: seq<nat>) | Reversed(start: nat, end: nat)

  /** Whether line id "line:expected" names an existing line with that content hash. */
  predicate IdMatches(line: nat, expected: string, lines: seq<string>, hash: string -> string)
  {
    1 <= line <= |lines| && hash(lines[line - 1]) == expected
  }

  /** Turns a target into line positions, verifying every id against the file; both ids of a range
      are checked before it fails. */
  function Resolve(target: Target, lines: seq<string>, hash: string -> string): Result<LineRange, TargetError>
  {
    match target
    case AnchorNumber(n) =>
      if n == 0 then Ok(Single(0)) else if n == -1 then Ok(Single(|lines|)) else Err(InvalidAnchor(n))
    case IdAnchor(line, h) =>
      if IdMatches(line, h, lines, hash) then Ok(Single(line)) else Err(StaleIds([line]))
    case IdRange(s, sh, e, eh) =>
      var first := if IdMatches(s, sh, lines, hash) then [] else [s];
      var stale := first + if IdMatches(e, eh, lines, hash) then [] else [e];
      if stale != [] then Err(StaleIds(stale)) else if s > e then Err(Reversed(s, e)) else Ok(Range(s, e))
  }

  /** The target lies within a file of n lines and has the form its kind takes. */
  predicate Targeted(op: Op, n: nat)
  {
    match op.kind
    case Insertion => op.range.Single? && op.range.line <= n
    case Replacement => 1 <= First(op) <= Last(op) <= n
  }

  /** A resolved target is well formed: insertions come from anchors, replacements from id ranges. */
  lemma ResolvedIsTargeted(target: Target, lines: seq<string>, hash: string -> string, op: Op)
    requires Resolve(target, lines, hash) == Ok(op.range)
    requires op.kind == Replacement <==> target.IdRange?
    ensures Targeted(op, |lines|)
  {
  }

  // ----- conflicts

  /** Two operations that would disagree on what happens to a line or on the order of inserted lines. */
  predicate Conflict(p: Op, q: Op)
  {
    match (p.kind, q.kind)
    case (Replacement, Replacement) => First(p) <= Last(q) && First(q) <= Last(p)
    case (Insertion, Insertion) => Anchor(p) == Anchor(q)
    case (Insertion, Replacement) => First(q) <= Anchor(p) < Last(q)
    case (Replacement, Insertion) => First(p) <= Anchor(q) < Last(p)
  }

  /** The original lines and the gaps between them that an operation is about: a replacement is about the
      lines of its range and the gaps inside it, an insertion about its gap. */
  ghost predicate AboutLine(op: Op, t: int) { op.kind == Replacement && First(op) <= t <= Last(op) }

  ghost predicate AboutGap(op: Op, t: int)
  {
    match op.kind
    case Insertion => t == First(op)
    case Replacement => First(op) <= t < Last(op)
  }

  /** Operations on real ranges conflict exactly if they are about the same line, or about the same gap. */
  lemma ConflictsExactly(p: Op, q: Op)
    requires p.kind == Replacement ==> First(p) <= Last(p)
    requires q.kind == Replacement ==> First(q) <= Last(q)
    ensures Conflict(p, q) <==>
              || (exists t: int :: AboutLine(p, t) && AboutLine(q, t))
              || (exists t: int :: AboutGap(p, t) && AboutGap(q, t))
  {
    if Conflict(p, q) {
      if p.kind == Replacement && q.kind == Replacement {
        var t := if First(p) <= First(q) then First(q) else First(p);
        assert AboutLine(p, t) && AboutLine(q, t);
      } else {
        var t := if p.kind == Insertion then First(p) else First(q);
        assert AboutGap(p, t) && AboutGap(q, t);
      }
    }
  }

  predicate ConflictFree(ops: seq<Op>)
  {
    forall i, j | 0 <= i < j < |ops| :: !Conflict(ops[i], ops[j])
  }

  /** The first conflicting pair, if there is one. */
  method DetectConflicts(ops: seq<Op>) returns (r: Option<(nat, nat)>)
    ensures r.None? <==> ConflictFree(ops)
    ensures r.Some? ==> r.value.0 < r.value.1 < |ops| && Conflict(ops[r.value.0], ops[r.value.1])
  {
    for i := 0 to |ops|
      invariant forall g, h | 0 <= g < i && g < h < |ops| :: !Conflict(ops[g], ops[h])
    {
      for j := i + 1 to |ops|
        invariant forall h | i < h < j :: !Conflict(ops[i], ops[h])
      {
        if Conflict(ops[i], ops[j]) {
          return Some((i, j));
        }
      }
    }
    r := None;
  }

  // ----- simultaneous application

  /** Replacement r rewrites line t. */
  predicate Covers(r: Op, t: nat) { r.kind == Replacement && First(r) <= t <= Last(r) }

  ghost function Covering(ops: set<Op>, t: nat): Option<Op>
  {
    if r :| r in ops && Covers(r, t) then Some(r) else None
  }

  ghost function InsertedAt(ops: set<Op>, t: nat): Option<Op>
  {
    if i :| i in ops && i.kind == Insertion && Anchor(i) == t then Some(i) else None
  }

  /** What becomes of original line t: itself, the whole replacement if one starts here, or nothing. */
  ghost function Out(lines: seq<EditableLine>, ops: set<Op>, ending: Ending, t: nat): seq<EditableLine>
    requires 1 <= t <= |lines|
  {
    match Covering(ops, t)
    case None => [lines[t - 1]]
    case Some(r) => if First(r) == t then Block(r.lines, ending) else []
  }

  /** What goes into the gap after original line t. */
  ghost function Gap(ops: set<Op>, ending: Ending, t: nat): seq<EditableLine>
  {
    match InsertedAt(ops, t)
    case None => []
    case Some(i) => Block(i.lines, ending)
  }

  /** All operations at once, from the gap after original line t on: every target means the
      original file. */
  ghost function EditedFrom(lines: seq<EditableLine>, ops: set<Op>, ending: Ending, t: nat): seq<EditableLine>
    requires t <= |lines|
    decreases |lines| - t
  {
    Gap(ops, ending, t)
    + if t == |lines| then [] else Out(lines, ops, ending, t + 1) + EditedFrom(lines, ops, ending, t + 1)
  }

  ghost function Edited(lines: seq<EditableLine>, ops: set<Op>, ending: Ending): seq<EditableLine>
  {
    EditedFrom(lines, ops, ending, 0)
  }

  /** The replacements alone, for original lines from + 1 to t. */
  ghost function Segment(lines: seq<EditableLine>, ops: set<Op>, ending: Ending, from: nat, t: nat): seq<EditableLine>
    requires t <= |lines|
  {
    if t <= from then [] else Segment(lines, ops, ending, from, t - 1) + Out(lines, ops, ending, t)
  }

  /** The operations of a list do not conflict, and none is listed twice. */
  ghost predicate Compatible(ops: set<Op>)
  {
    forall p, q | p in ops && q in ops && p != q :: !Conflict(p, q)
  }

  ghost function AsSet(ops: seq<Op>): set<Op> { set op | op in ops }

  lemma ConflictFreeIsCompatible(ops: seq<Op>)
    requires ConflictFree(ops)
    ensures Compatible(AsSet(ops))
  {
    forall p, q | p in ops && q in ops && p != q
      ensures !Conflict(p, q)
    {
      var i :| 0 <= i < |ops| && ops[i] == p;
      var j :| 0 <= j < |ops| && ops[j] == q;
      assert i < j || j < i;
    }
  }

  lemma CoveringIs(ops: set<Op>, t: nat, r: Op)
    requires Compatible(ops) && r in ops && Covers(r, t)
    ensures Covering(ops, t) == Some(r)
  {
    var q := Covering(ops, t).value;
    assert q != r ==> !Conflict(q, r);
  }

  lemma InsertedIs(ops: set<Op>, t: nat, i: Op)
    requires Compatible(ops) && i in ops && i.kind == Insertion && Anchor(i) == t
    ensures InsertedAt(ops, t) == Some(i)
  {
    var q := InsertedAt(ops, t).value;
    assert q != i ==> !Conflict(q, i);
  }

  /** The piece that original line t becomes, and the piece in the gap after it, for proofs that only
      care for their order. */
  ghost function OutsOf(lines: seq<EditableLine>, ops: set<Op>, ending: Ending): nat -> seq<EditableLine>
  {
    (u: nat) => if 1 <= u <= |lines| then Out(lines, ops, ending, u) else []
  }

  ghost function GapsOf(ops: set<Op>, ending: Ending): nat -> seq<EditableLine>
  {
    (u: nat) => Gap(ops, ending, u)
  }

  ghost predicate Pieces(lines: seq<EditableLine>, ops: set<Op>, ending: Ending, gap: nat -> seq<EditableLine>,
                         piece: nat -> seq<EditableLine>)
  {
    gap == GapsOf(ops, ending) && piece == OutsOf(lines, ops, ending)
  }

  lemma PiecesExist(lines: seq<EditableLine>, ops: set<Op>, ending: Ending)
    returns (gap: nat -> seq<EditableLine>, piece: nat -> seq<EditableLine>)
    ensures Pieces(lines, ops, ending, gap, piece)
  {
    gap, piece := GapsOf(ops, ending), OutsOf(lines, ops, ending);
  }

  lemma PieceIs(lines: seq<EditableLine>, ops: set<Op>, ending: Ending, gap: nat -> seq<EditableLine>,
                piece: nat -> seq<EditableLine>, t: nat)
    requires Pieces(lines, ops, ending, gap, piece) && 1 <= t <= |lines|
    ensures piece(t) == Out(lines, ops, ending, t)
  {
  }

  lemma SegmentNext(lines: seq<EditableLine>, ops: set<Op>, ending: Ending, from: nat, t: nat, out: seq<EditableLine>)
    requires from < t <= |lines| && out == Out(lines, ops, ending, t)
    ensures Segment(lines, ops, ending, from, t) == Segment(lines, ops, ending, from, t - 1) + out
  {
  }

  lemma {:induction false} SegmentIsConcat(lines: seq<EditableLine>, ops: set<Op>, ending: Ending,
                                           gap: nat -> seq<EditableLine>,
                                           piece: nat -> seq<EditableLine>, from: nat, t: nat)
    requires t <= |lines| && Pieces(lines, ops, ending, gap, piece)
    ensures Segment(lines, ops, ending, from, t) == Concat(piece, from, t)
  {
    if from < t {
      SegmentIsConcat(lines, ops, ending, gap, piece, from, t - 1);
      PieceIs(lines, ops, ending, gap, piece, t);
      SegmentNext(lines, ops, ending, from, t, piece(t));
    }
  }

  lemma SegmentSplit(lines: seq<EditableLine>, ops: set<Op>, ending: Ending, from: nat, mid: nat, t: nat)
    requires from <= mid <= t <= |lines|
    ensures Segment(lines, ops, ending, from, t)
            == Segment(lines, ops, ending, from, mid) + Segment(lines, ops, ending, mid, t)
  {
    var gap, piece := PiecesExist(lines, ops, ending);
    SegmentIsConcat(lines, ops, ending, gap, piece, from, t);
    SegmentIsConcat(lines, ops, ending, gap, piece, from, mid);
    SegmentIsConcat(lines, ops, ending, gap, piece, mid, t);
    ConcatSplit(piece, from, mid, t);
  }

  lemma EditedNext(lines: seq<EditableLine>, ops: set<Op>, ending: Ending, t: nat, gap: seq<EditableLine>,
                   out: seq<EditableLine>)
    requires t <= |lines| && gap == Gap(ops, ending, t)
    requires out == if t < |lines| then Out(lines, ops, ending, t + 1) else []
    ensures EditedFrom(lines, ops, ending, t)
            == gap + if t == |lines| then [] else out + EditedFrom(lines, ops, ending, t + 1)
  {
  }

  lemma EditedIsWeave(lines: seq<EditableLine>, ops: set<Op>, ending: Ending, gap: nat -> seq<EditableLine>,
                      piece: nat -> seq<EditableLine>, t: nat)
    requires t <= |lines| && Pieces(lines, ops, ending, gap, piece)
    ensures EditedFrom(lines, ops, ending, t) == Weave(gap, piece, |lines|, t)
  {
    EditedWeaves(lines, ops, ending, gap, piece, t, EditedFrom(lines, ops, ending, t));
  }

  lemma {:induction false} EditedWeaves(lines: seq<EditableLine>, ops: set<Op>, ending: Ending,
                                        gap: nat -> seq<EditableLine>, piece: nat -> seq<EditableLine>, t: nat,
                                        all: seq<EditableLine>)
    requires t <= |lines| && Pieces(lines, ops, ending, gap, piece) && all == EditedFrom(lines, ops, ending, t)
    ensures all == Weave(gap, piece, |lines|, t)
    decreases |lines| - t
  {
    if t < |lines| {
      var rest := EditedFrom(lines, ops, ending, t + 1);
      assert all == gap(t) + (piece(t + 1) + rest) by {
        PieceIs(lines, ops, ending, gap, piece, t + 1);
        EditedNext(lines, ops, ending, t, gap(t), piece(t + 1));
      }
      EditedWeaves(lines, ops, ending, gap, piece, t + 1, rest);
    } else {
      assert all == gap(t) + [] by { EditedNext(lines, ops, ending, t, gap(t), []); }
    }
  }

  /** Where no replacement reaches, lines stay. */
  lemma {:induction false} SegmentUncovered(lines: seq<EditableLine>, ops: set<Op>, ending: Ending, from: nat, t: nat)
    requires from <= t <= |lines| && forall u, r | from < u <= t && r in ops :: !Covers(r, u)
    ensures Segment(lines, ops, ending, from, t) == lines[from..t]
  {
    if from < t {
      SegmentUncovered(lines, ops, ending, from, t - 1);
      assert Covering(ops, t) == None;
      assert lines[from..t] == lines[from..t - 1] + [lines[t - 1]];
    }
  }

  lemma OutOfReplaced(lines: seq<EditableLine>, ops: set<Op>, ending: Ending, r: Op, t: nat, block: seq<EditableLine>)
    requires Compatible(ops) && r in ops && Covers(r, t) && 1 <= t <= |lines|
    requires block == Block(r.lines, ending)
    ensures Out(lines, ops, ending, t) == if First(r) == t then block else []
  {
    CoveringIs(ops, t, r);
  }

  lemma {:induction false} ConcatOf<T>(piece: nat -> seq<T>, from: nat, t: nat, block: seq<T>)
    requires from < t && piece(from + 1) == block && forall u | from + 1 < u <= t :: piece(u) == []
    ensures Concat(piece, from, t) == block
    decreases t
  {
    if from + 1 < t {
      ConcatOf(piece, from, t - 1, block);
    } else {
      assert Concat(piece, from, from) == [];
    }
    CatEmpty(block);
  }

  lemma PieceOfReplaced(lines: seq<EditableLine>, ops: set<Op>, ending: Ending, gap: nat -> seq<EditableLine>,
                        piece: nat -> seq<EditableLine>, r: Op, t: nat, block: seq<EditableLine>)
    requires Pieces(lines, ops, ending, gap, piece) && Compatible(ops) && r in ops && Covers(r, t)
    requires 1 <= t <= |lines| && block == Block(r.lines, ending)
    ensures piece(t) == if First(r) == t then block else []
  {
    OutOfReplaced(lines, ops, ending, r, t, block);
    PieceIs(lines, ops, ending, gap, piece, t);
  }

  /** A replacement turns its range into its content. */
  lemma PiecesOfReplaced(lines: seq<EditableLine>, ops: set<Op>, ending: Ending, r: Op, block: seq<EditableLine>)
    returns (gap: nat -> seq<EditableLine>, piece: nat -> seq<EditableLine>)
    requires Compatible(ops) && r in ops && r.kind == Replacement
    requires 1 <= First(r) <= Last(r) <= |lines| && block == Block(r.lines, ending)
    ensures Pieces(lines, ops, ending, gap, piece)
    ensures piece(First(r)) == block && forall t | First(r) < t <= Last(r) :: piece(t) == []
  {
    gap, piece := PiecesExist(lines, ops, ending);
    PieceOfReplaced(lines, ops, ending, gap, piece, r, First(r), block);
    forall t | First(r) < t <= Last(r)
      ensures piece(t) == []
    {
      PieceOfReplaced(lines, ops, ending, gap, piece, r, t, block);
    }
  }

  lemma SegmentOfPieces(lines: seq<EditableLine>, ops: set<Op>, ending: Ending, gap: nat -> seq<EditableLine>,
                        piece: nat -> seq<EditableLine>, first: nat, last: nat, block: seq<EditableLine>)
    requires Pieces(lines, ops, ending, gap, piece) && 1 <= first <= last <= |lines|
    requires piece(first) == block && forall t | first < t <= last :: piece(t) == []
    ensures Segment(lines, ops, ending, first - 1, last) == block
  {
    ConcatOf(piece, first - 1, last, block);
    SegmentIsConcat(lines, ops, ending, gap, piece, first - 1, last);
  }

  // ----- lengths

  /** By how much an operation changes the number of lines. */
  function Growth(op: Op): int
  {
    |op.lines| - if op.kind == Insertion then 0 else Last(op) - First(op) + 1
  }

  /** By how much it has changed the number of lines once original line t and the gap after it are
      passed. */
  function Delta(op: Op, t: nat): int
  {
    if t < First(op) then 0
    else if op.kind == Insertion || Last(op) <= t then Growth(op)
    else |op.lines| - (t - First(op) + 1)
  }

  function SumDelta(rs: seq<Op>, t: nat): int
  {
    if rs == [] then 0 else SumDelta(rs[..|rs| - 1], t) + Delta(rs[|rs| - 1], t)
  }

  ghost predicate Distinct<T>(s: seq<T>)
  {
    forall i, j | 0 <= i < j < |s| :: s[i] != s[j]
  }

  lemma LastIsNew(rs: seq<Op>)
    requires rs != [] && Distinct(rs)
    ensures var front, last := rs[..|rs| - 1], rs[|rs| - 1];
            last !in front && Distinct(front) && forall r :: r in rs <==> r in front || r == last
  {
    LastSplit(rs);
  }

  /** Passing one more line and gap changes only the shares of the replacement that covers the line
      and of the insertion into the gap. */
  lemma {:induction false} SumDeltaStep(rs: seq<Op>, ops: set<Op>, t: nat)
    requires Compatible(ops) && Distinct(rs) && t > 0
    requires forall r | r in rs :: r in ops && (r.kind == Replacement ==> First(r) <= Last(r))
    ensures SumDelta(rs, t) - SumDelta(rs, t - 1) ==
            (match Covering(ops, t) case None => 0 case Some(r) => if r in rs then Delta(r, t) - Delta(r, t - 1) else 0)
            + (match InsertedAt(ops, t) case None => 0 case Some(i) => if i in rs then |i.lines| else 0)
  {
    if rs != [] {
      var front, last := rs[..|rs| - 1], rs[|rs| - 1];
      SumDeltaStep(front, ops, t);
      LastIsNew(rs);
      if Covers(last, t) {
        CoveringIs(ops, t, last);
        assert InsertedAt(ops, t) != Some(last);
      } else if last.kind == Insertion && Anchor(last) == t {
        InsertedIs(ops, t, last);
        assert Covering(ops, t) != Some(last);
      } else {
        assert Covering(ops, t) != Some(last) && InsertedAt(ops, t) != Some(last);
        assert Delta(last, t) == Delta(last, t - 1);
      }
    }
  }

  lemma {:induction false} NoDeltaYet(rs: seq<Op>)
    requires forall r | r in rs :: 1 <= First(r)
    ensures SumDelta(rs, 0) == 0
  {
    if rs != [] {
      NoDeltaYet(rs[..|rs| - 1]);
      assert rs[|rs| - 1] in rs;
    }
  }

  /** The length of the replaced file up to line t. */
  lemma {:induction false} SegmentLength(lines: seq<EditableLine>, rs: seq<Op>, ops: set<Op>, ending: Ending, t: nat)
    requires t <= |lines| && Compatible(ops) && Distinct(rs)
    requires forall op :: op in rs <==> op in ops && op.kind == Replacement
    requires forall r | r in rs :: First(r) <= Last(r)
    requires forall r | r in rs :: 1 <= First(r)
    ensures |Segment(lines, ops, ending, 0, t)| == t + SumDelta(rs, t)
  {
    if t == 0 {
      NoDeltaYet(rs);
    } else {
      SegmentLength(lines, rs, ops, ending, t - 1);
      SumDeltaStep(rs, ops, t);
    }
  }
}
