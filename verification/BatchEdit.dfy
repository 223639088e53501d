/** Applying batch operations in two phases on one line vector, proved to be the simultaneous edit
    of the original file. */
module BatchEdit {
  import opened Wrappers
  import opened LineText
  import opened Seqs
  import opened EditableText
  import opened BatchOps

  datatype ApplyError = NotOneIndexed | BeyondFile | InvalidRange | NotASingleLine

  // ----- sorting

  /** Puts op behind all operations that start at its line or later. */
  function InsertDesc(op: Op, s: seq<Op>): seq<Op>
  {
    if s == [] || First(s[0]) < First(op) then [op] + s else [s[0]] + InsertDesc(op, s[1..])
  }

  /** Stable sort by line, highest first. */
  function SortDesc(ops: seq<Op>): seq<Op>
  {
    if ops == [] then [] else InsertDesc(ops[|ops| - 1], SortDesc(ops[..|ops| - 1]))
  }

  ghost predicate Descending(s: seq<Op>)
  {
    forall i, j | 0 <= i < j < |s| :: First(s[i]) >= First(s[j])
  }

  ghost predicate NoneConflicts(op: Op, s: seq<Op>)
  {
    forall i | 0 <= i < |s| :: !Conflict(op, s[i])
  }

  lemma {:induction false} InsertDescSpec(op: Op, s: seq<Op>)
    requires Descending(s)
    ensures Descending(InsertDesc(op, s)) && forall x :: x in InsertDesc(op, s) <==> x == op || x in s
    ensures ConflictFree(s) && NoneConflicts(op, s) ==> ConflictFree(InsertDesc(op, s))
  {
    if s != [] && First(s[0]) >= First(op) {
      var head, tail := s[0], s[1..];
      InsertDescSpec(op, tail);
      HeadTail(s);
      HeadFirst(head, InsertDesc(op, tail), op, tail);
      if ConflictFree(s) && NoneConflicts(op, s) {
        HeadConflictFree(head, tail, s, op, InsertDesc(op, tail));
      }
    }
  }

  /** A head that is first before tail and op is first before their merge. */
  lemma HeadFirst(head: Op, r: seq<Op>, op: Op, tail: seq<Op>)
    requires (forall x :: x in r <==> x == op || x in tail) && Descending(r) && Descending([head] + tail)
             && First(head) >= First(op)
    ensures Descending([head] + r)
  {
    forall i | 0 <= i < |r|
      ensures First(head) >= First(r[i])
    {
      assert r[i] in r;
      if r[i] in tail {
        var j :| 0 <= j < |tail| && tail[j] == r[i];
        assert ([head] + tail)[0] == head && ([head] + tail)[j + 1] == r[i];
      }
    }
  }

  lemma HeadConflictFree(head: Op, tail: seq<Op>, s: seq<Op>, op: Op, r: seq<Op>)
    requires s == [head] + tail && ConflictFree(s) && NoneConflicts(op, s)
    requires (forall x :: x in r <==> x == op || x in tail)
             && (ConflictFree(tail) && NoneConflicts(op, tail) ==> ConflictFree(r))
    ensures ConflictFree([head] + r)
  {
    assert forall i | 0 <= i < |tail| :: s[i + 1] == tail[i];
    forall i | 0 <= i < |r|
      ensures !Conflict(head, r[i])
    {
      assert r[i] in r;
      if r[i] in tail {
        var j :| 0 <= j < |tail| && tail[j] == r[i];
        assert !Conflict(s[0], s[j + 1]);
      } else {
        assert !Conflict(op, s[0]);
      }
    }
  }

  lemma {:induction false} SortDescSpec(ops: seq<Op>)
    ensures Descending(SortDesc(ops)) && (forall x :: x in SortDesc(ops) <==> x in ops)
    ensures ConflictFree(ops) ==> ConflictFree(SortDesc(ops))
  {
    if ops != [] {
      var front, last := ops[..|ops| - 1], ops[|ops| - 1];
      SortDescSpec(front);
      InsertDescSpec(last, SortDesc(front));
      LastSplit(ops);
      if ConflictFree(ops) {
        LastConflictFree(ops, front, last, SortDesc(front));
      }
    }
  }

  /** The last of conflict-free operations conflicts with none of those before it, in any order. */
  lemma LastConflictFree(ops: seq<Op>, front: seq<Op>, last: Op, some: seq<Op>)
    requires ops == front + [last] && ConflictFree(ops) && forall x | x in some :: x in front
    ensures ConflictFree(front) && NoneConflicts(last, some)
  {
    forall i, j | 0 <= i < j < |front|
      ensures !Conflict(front[i], front[j])
    {
      assert !Conflict(ops[i], ops[j]);
    }
    forall i | 0 <= i < |some|
      ensures !Conflict(last, some[i])
    {
      assert some[i] in some;
      var j :| 0 <= j < |front| && front[j] == some[i];
      assert !Conflict(ops[j], ops[|front|]);
    }
  }

  function OfKind(ops: seq<Op>, kind: Kind): seq<Op>
  {
    if ops == [] then []
    else OfKind(ops[..|ops| - 1], kind) + if ops[|ops| - 1].kind == kind then [ops[|ops| - 1]] else []
  }

  lemma {:induction false} OfKindSpec(ops: seq<Op>, kind: Kind)
    ensures forall x :: x in OfKind(ops, kind) <==> x in ops && x.kind == kind
    ensures ConflictFree(ops) ==> ConflictFree(OfKind(ops, kind))
  {
    if ops != [] {
      var front, last := ops[..|ops| - 1], ops[|ops| - 1];
      OfKindSpec(front, kind);
      LastSplit(ops);
      if ConflictFree(ops) {
        LastConflictFree(ops, front, last, OfKind(front, kind));
        AppendConflictFree(OfKind(front, kind), last);
      }
    }
  }

  lemma AppendConflictFree(s: seq<Op>, last: Op)
    requires ConflictFree(s) && NoneConflicts(last, s)
    ensures ConflictFree(s + [last]) && ConflictFree(s + [])
  {
    CatEmpty(s);
    assert forall i | 0 <= i < |s| :: Conflict(s[i], last) == Conflict(last, s[i]);
  }

  /** What the applying loops know of the sorted operations of one kind. */
  ghost predicate Agenda(rs: seq<Op>, ops: set<Op>, kind: Kind)
  {
    Compatible(ops) && Descending(rs) && ConflictFree(rs) && forall x :: x in rs <==> x in ops && x.kind == kind
  }

  lemma SortedIsAgenda(ops: seq<Op>, kind: Kind)
    requires ConflictFree(ops)
    ensures Agenda(SortDesc(OfKind(ops, kind)), AsSet(ops), kind)
  {
    ConflictFreeIsCompatible(ops);
    OfKindSpec(ops, kind);
    SortDescSpec(OfKind(ops, kind));
  }

  /** A well-targeted operation conflicts with itself, so none of them is listed twice. */
  lemma TargetedIsDistinct(rs: seq<Op>, n: nat)
    requires ConflictFree(rs) && forall r | r in rs :: Targeted(r, n)
    ensures Distinct(rs)
  {
    forall i, j | 0 <= i < j < |rs|
      ensures rs[i] != rs[j]
    {
      assert rs[i] in rs && !Conflict(rs[i], rs[j]);
    }
  }

  // ----- vector primitives

  method RemoveLines(lines: seq<EditableLine>, at: nat, count: nat) returns (r: seq<EditableLine>)
    requires at + count <= |lines|
    ensures r == lines[..at] + lines[at + count..]
  {
    r := lines;
    for i := 0 to count
      invariant r == lines[..at] + lines[at + i..]
    {
      r := r[..at] + r[at + 1..];
    }
  }

  method InsertLines(lines: seq<EditableLine>, at: nat, block: seq<EditableLine>) returns (r: seq<EditableLine>)
    requires at <= |lines|
    ensures r == lines[..at] + block + lines[at..]
  {
    r := lines;
    for i := 0 to |block|
      invariant r == lines[..at] + block[..i] + lines[at..]
    {
      r := r[..at + i] + [block[i]] + r[at + i..];
    }
    assert block[..|block|] == block;
  }

  // ----- phase 1: replacements, highest first

  /** The replacements down to line b are done and everything above is untouched. */
  ghost predicate ReplacedDownTo(cur: seq<EditableLine>, lines: seq<EditableLine>, ops: set<Op>, ending: Ending, b: nat)
  {
    b <= |lines| && cur == lines[..b] + Segment(lines, ops, ending, b, |lines|)
  }

  lemma SpliceVector<T>(v: seq<T>, tail: seq<T>, s: nat, e: nat, b: nat, block: seq<T>)
    requires s <= e <= b <= |v|
    ensures var cur := v[..b] + tail; cur[..s] + block + cur[e..] == v[..s] + (block + (v[e..b] + tail))
  {
    var cur := v[..b] + tail;
    assert cur[..s] == v[..s];
    assert cur[e..] == v[e..b] + tail;
    Cat(v[..s], block, cur[e..]);
  }

  /** Replacing a range below line b + 1 on the vector extends the replaced part upwards. */
  lemma ReplaceStep(cur: seq<EditableLine>, lines: seq<EditableLine>, ops: set<Op>, ending: Ending, b: nat,
                    r: Op, block: seq<EditableLine>, cur': seq<EditableLine>)
    requires ReplacedDownTo(cur, lines, ops, ending, b) && Compatible(ops)
    requires r in ops && r.kind == Replacement && 1 <= First(r) <= Last(r) <= b
    requires block == Block(r.lines, ending)
    requires forall u, x | Last(r) < u <= b && x in ops :: !Covers(x, u)
    requires cur' == cur[..First(r) - 1] + block + cur[Last(r)..]
    ensures ReplacedDownTo(cur', lines, ops, ending, First(r) - 1)
  {
    var n := |lines|;
    var s, e := First(r) - 1, Last(r);
    var tail := Segment(lines, ops, ending, b, n);
    SegmentSplit(lines, ops, ending, s, e, n);
    var gap, piece := PiecesOfReplaced(lines, ops, ending, r, block);
    SegmentOfPieces(lines, ops, ending, gap, piece, First(r), e, block);
    SegmentSplit(lines, ops, ending, e, b, n);
    SegmentUncovered(lines, ops, ending, e, b);
    assert Segment(lines, ops, ending, s, n) == block + (lines[e..b] + tail);
    SpliceVector(lines, tail, s, e, b, block);
  }

  /** Replacements that start further up end above line b. */
  lemma EarlierEndAbove(rs: seq<Op>, ops: set<Op>, k: nat)
    requires k < |rs| && Agenda(rs, ops, Replacement) && First(rs[k]) <= Last(rs[k])
    ensures forall j | k < j < |rs| :: Last(rs[j]) < First(rs[k])
  {
    forall j | k < j < |rs|
      ensures Last(rs[j]) < First(rs[k])
    {
      assert rs[j] in rs && rs[k] in rs && !Conflict(rs[k], rs[j]);
    }
  }

  /** Between a replacement and the ones done before it no line is covered. */
  lemma GapUncovered(rs: seq<Op>, ops: set<Op>, k: nat, b: nat)
    requires k <= |rs| && Agenda(rs, ops, Replacement)
    requires forall j | 0 <= j < k :: b < First(rs[j])
    requires k < |rs| ==> First(rs[k]) <= Last(rs[k])
    ensures forall u, x | (if k < |rs| then Last(rs[k]) else 0) < u <= b && x in ops :: !Covers(x, u)
  {
    if k < |rs| {
      EarlierEndAbove(rs, ops, k);
    }
    forall u, x | (if k < |rs| then Last(rs[k]) else 0) < u <= b && x in ops
      ensures !Covers(x, u)
    {
      if x.kind == Replacement {
        var j :| 0 <= j < |rs| && rs[j] == x;
      }
    }
  }

  /** The first k replacements are done; the others lie above line b + 1. */
  ghost predicate DoneUpTo(rs: seq<Op>, n: nat, k: nat, b: nat)
    requires k <= |rs|
  {
    && (forall j | 0 <= j < k :: Targeted(rs[j], n) && b < First(rs[j]))
    && (if k == 0 then b == n else forall j | k <= j < |rs| :: Last(rs[j]) <= b)
  }

  lemma OneMoreDone(rs: seq<Op>, ops: set<Op>, n: nat, k: nat, b: nat)
    requires k < |rs| && Agenda(rs, ops, Replacement) && DoneUpTo(rs, n, k, b) && Targeted(rs[k], n)
    ensures rs[k] in ops && rs[k].kind == Replacement && 1 <= First(rs[k]) <= Last(rs[k]) <= b
    ensures DoneUpTo(rs, n, k + 1, First(rs[k]) - 1)
    ensures forall u, x | Last(rs[k]) < u <= b && x in ops :: !Covers(x, u)
  {
    assert rs[k] in rs;
    EarlierEndAbove(rs, ops, k);
    GapUncovered(rs, ops, k, b);
  }

  /** What is wrong with an operation whose target is outside a file of n lines: a replacement names line 0,
      or else a line below the last, or else runs backwards; an insertion has a range, or else names a line
      below the last. */
  ghost predicate IsFault(op: Op, n: nat, error: ApplyError)
  {
    match error
    case NotOneIndexed => op.kind == Replacement && (First(op) == 0 || Last(op) == 0)
    case BeyondFile =>
      if op.kind == Replacement then First(op) > 0 && Last(op) > 0 && (First(op) > n || Last(op) > n)
      else op.range.Single? && op.range.line > n
    case InvalidRange => op.kind == Replacement && n >= First(op) > Last(op) > 0
    case NotASingleLine => op.kind == Insertion && op.range.Range?
  }

  /** Rewrites the lines of one replacement. */
  method ReplaceOne(lines: seq<EditableLine>, ending: Ending, ghost ops: set<Op>, ghost rs: seq<Op>, ghost k: nat,
                    op: Op, cur: seq<EditableLine>, ghost b: nat)
    returns (r: Result<seq<EditableLine>, ApplyError>)
    requires k < |rs| && op == rs[k] && Agenda(rs, ops, Replacement) && DoneUpTo(rs, |lines|, k, b)
    requires ReplacedDownTo(cur, lines, ops, ending, b)
    ensures r.Ok? <==> Targeted(op, |lines|)
    ensures r.Err? ==> IsFault(op, |lines|, r.error)
    ensures r.Ok? ==> ReplacedDownTo(r.value, lines, ops, ending, First(op) - 1)
  {
    var n := |lines|;
    var start, end := First(op), Last(op);
    assert op in rs;
    if start == 0 || end == 0 {
      return Err(NotOneIndexed);
    }
    if start > n || end > n {
      return Err(BeyondFile);
    }
    if start > end {
      return Err(InvalidRange);
    }
    OneMoreDone(rs, ops, n, k, b);
    var block := Block(op.lines, ending);
    var next := RemoveLines(cur, start - 1, end - start + 1);
    next := InsertLines(next, start - 1, block);
    assert next == cur[..start - 1] + block + cur[end..];
    ReplaceStep(cur, lines, ops, ending, b, op, block, next);
    r := Ok(next);
  }

  method ApplyReplacements(lines: seq<EditableLine>, ending: Ending, ghost ops: set<Op>, rs: seq<Op>)
    returns (r: Result<(seq<EditableLine>, seq<(nat, int)>), ApplyError>)
    requires Agenda(rs, ops, Replacement)
    ensures r.Ok? <==> forall x | x in rs :: Targeted(x, |lines|)
    ensures r.Err? ==> exists x :: x in rs && IsFault(x, |lines|, r.error)
    ensures r.Ok? ==> r.value.0 == Segment(lines, ops, ending, 0, |lines|)
    ensures r.Ok? ==> |r.value.1| == |rs| && forall i | 0 <= i < |rs| :: r.value.1[i] == (Last(rs[i]), Growth(rs[i]))
  {
    var cur := lines;
    var deltas: seq<(nat, int)> := [];
    ghost var b: nat := |lines|;
    assert lines[..b] == lines;
    for k := 0 to |rs|
      invariant ReplacedDownTo(cur, lines, ops, ending, b) && DoneUpTo(rs, |lines|, k, b)
      invariant |deltas| == k && forall i | 0 <= i < k :: deltas[i] == (Last(rs[i]), Growth(rs[i]))
    {
      var next := ReplaceOne(lines, ending, ops, rs, k, rs[k], cur, b);
      if next.Err? {
        assert rs[k] in rs;
        return Err(next.error);
      }
      OneMoreDone(rs, ops, |lines|, k, b);
      cur, b := next.value, First(rs[k]) - 1;
      deltas := deltas + [(Last(rs[k]), Growth(rs[k]))];
    }
    AllReplaced(cur, lines, ops, ending, rs, b);
    r := Ok((cur, deltas));
  }

  lemma AllReplaced(cur: seq<EditableLine>, lines: seq<EditableLine>, ops: set<Op>, ending: Ending, rs: seq<Op>, b: nat)
    requires ReplacedDownTo(cur, lines, ops, ending, b) && Agenda(rs, ops, Replacement)
             && DoneUpTo(rs, |lines|, |rs|, b)
    ensures cur == Segment(lines, ops, ending, 0, |lines|)
  {
    GapUncovered(rs, ops, |rs|, b);
    SegmentUncovered(lines, ops, ending, 0, b);
    SegmentSplit(lines, ops, ending, 0, b, |lines|);
    assert lines[0..b] == lines[..b];
  }

  // ----- phase 2: insertions, highest first, at adjusted positions

  /** The file with all replacements done and the insertions from gap a on: each gap's lines go
      where the replaced lines before it end. */
  ghost function Placed(lines: seq<EditableLine>, ops: set<Op>, ending: Ending, a: nat): (r: seq<EditableLine>)
    ensures a <= |lines| ==> |Segment(lines, ops, ending, 0, a)| <= |r|
    decreases |lines| + 1 - a
  {
    if a > |lines| then Segment(lines, ops, ending, 0, |lines|)
    else
      var next := Placed(lines, ops, ending, a + 1);
      var p := |Segment(lines, ops, ending, 0, a)|;
      assert p <= |next|;
      next[..p] + Gap(ops, ending, a) + next[p..]
  }

  /** Placing every gap's lines on the replaced file is the simultaneous edit. */
  lemma {:induction false} PlacedText(lines: seq<EditableLine>, ops: set<Op>, ending: Ending, a: nat)
    requires a <= |lines|
    ensures Placed(lines, ops, ending, a) == Segment(lines, ops, ending, 0, a) + EditedFrom(lines, ops, ending, a)
    decreases |lines| - a
  {
    var head, gap := Segment(lines, ops, ending, 0, a), Gap(ops, ending, a);
    var next := Placed(lines, ops, ending, a + 1);
    if a < |lines| {
      PlacedText(lines, ops, ending, a + 1);
      var out, rest := Out(lines, ops, ending, a + 1), EditedFrom(lines, ops, ending, a + 1);
      Cat(head, out, rest);
      SplitPlaced(head, out + rest, gap);
    } else {
      assert next == head + [];
      SplitPlaced(head, [], gap);
    }
  }

  lemma SplitPlaced<T>(head: seq<T>, tail: seq<T>, gap: seq<T>)
    ensures var next := head + tail; next[..|head|] + gap + next[|head|..] == head + (gap + tail)
  {
  }

  /** A gap without insertion changes nothing. */
  lemma EmptyGap(lines: seq<EditableLine>, ops: set<Op>, ending: Ending, t: nat)
    requires t <= |lines| && InsertedAt(ops, t) == None
    ensures Placed(lines, ops, ending, t) == Placed(lines, ops, ending, t + 1)
  {
    InsertNothing(Placed(lines, ops, ending, t + 1), |Segment(lines, ops, ending, 0, t)|);
  }

  lemma InsertNothing<T>(s: seq<T>, p: nat)
    requires p <= |s|
    ensures s[..p] + [] + s[p..] == s
  {
  }

  lemma {:induction false} EmptyGaps(lines: seq<EditableLine>, ops: set<Op>, ending: Ending, t: nat, a: nat)
    requires t <= a <= |lines| + 1 && forall u | t <= u < a :: InsertedAt(ops, u) == None
    ensures Placed(lines, ops, ending, t) == Placed(lines, ops, ending, a)
    decreases a - t
  {
    if t < a {
      EmptyGaps(lines, ops, ending, t + 1, a);
      EmptyGap(lines, ops, ending, t);
    }
  }

  /** The sum that adjusts an insertion's anchor. */
  function Shift(deltas: seq<(nat, int)>, anchor: nat): int
  {
    if deltas == [] then 0
    else Shift(deltas[..|deltas| - 1], anchor) + if anchor >= deltas[|deltas| - 1].0 then deltas[|deltas| - 1].1 else 0
  }

  /** An anchor outside every replaced range is shifted by the whole change above it. */
  lemma {:induction false} ShiftIsSumDelta(rs: seq<Op>, deltas: seq<(nat, int)>, anchor: nat)
    requires |deltas| == |rs| && forall i | 0 <= i < |rs| :: deltas[i] == (Last(rs[i]), Growth(rs[i]))
    requires forall r | r in rs :: First(r) <= Last(r) && !(First(r) <= anchor < Last(r))
    ensures Shift(deltas, anchor) == SumDelta(rs, anchor)
  {
    if rs != [] {
      assert rs[|rs| - 1] in rs;
      ShiftIsSumDelta(rs[..|rs| - 1], deltas[..|rs| - 1], anchor);
    }
  }

  /** An adjusted anchor is exactly the number of lines before the insertion. */
  lemma AdjustedAnchor(lines: seq<EditableLine>, rs: seq<Op>, ops: set<Op>, ending: Ending, deltas: seq<(nat, int)>,
                       op: Op)
    requires Agenda(rs, ops, Replacement) && forall r | r in rs :: Targeted(r, |lines|)
    requires |deltas| == |rs| && forall i | 0 <= i < |rs| :: deltas[i] == (Last(rs[i]), Growth(rs[i]))
    requires op in ops && op.kind == Insertion && Anchor(op) <= |lines|
    ensures Anchor(op) + Shift(deltas, Anchor(op)) == |Segment(lines, ops, ending, 0, Anchor(op))|
  {
    forall r | r in rs
      ensures !(First(r) <= Anchor(op) < Last(r))
    {
      assert !Conflict(op, r);
    }
    ShiftIsSumDelta(rs, deltas, Anchor(op));
    TargetedIsDistinct(rs, |lines|);
    SegmentLength(lines, rs, ops, ending, Anchor(op));
  }

  /** No insertion goes into the gaps between one insertion and the next. */
  lemma GapsBetween(ins: seq<Op>, ops: set<Op>, k: nat, a: nat, u: nat)
    requires Agenda(ins, ops, Insertion)
    requires k <= |ins| && u < a && (k < |ins| ==> Anchor(ins[k]) < u)
    requires forall j | 0 <= j < k :: a <= Anchor(ins[j])
    ensures InsertedAt(ops, u) == None
  {
    forall x | x in ops && x.kind == Insertion
      ensures Anchor(x) != u
    {
      assert x in ins;
      var j :| 0 <= j < |ins| && ins[j] == x;
    }
  }

  /** The first k insertions are done, all at gap a or below; the others go further up. */
  ghost predicate PlacedUpTo(ins: seq<Op>, n: nat, k: nat, a: nat)
    requires k <= |ins|
  {
    && a <= n + 1
    && (forall j | 0 <= j < k :: Targeted(ins[j], n) && a <= Anchor(ins[j]))
    && (if k == 0 then a == n + 1 else forall j | k <= j < |ins| :: Anchor(ins[j]) < a)
  }

  lemma OneMorePlaced(n: nat, ops: set<Op>, ins: seq<Op>, k: nat, a: nat)
    requires k < |ins| && Agenda(ins, ops, Insertion) && PlacedUpTo(ins, n, k, a) && Targeted(ins[k], n)
    ensures ins[k] in ops && ins[k].kind == Insertion
    ensures PlacedUpTo(ins, n, k + 1, Anchor(ins[k]))
    ensures forall u | Anchor(ins[k]) < u < a :: InsertedAt(ops, u) == None
  {
    var t := Anchor(ins[k]);
    assert ins[k] in ins;
    forall j | k + 1 <= j < |ins|
      ensures Anchor(ins[j]) < t
    {
      assert ins[j] in ins && !Conflict(ins[k], ins[j]);
    }
    forall u | t < u < a
      ensures InsertedAt(ops, u) == None
    {
      GapsBetween(ins, ops, k, a, u);
    }
  }

  lemma GapIs(ops: set<Op>, ending: Ending, op: Op, block: seq<EditableLine>)
    requires Compatible(ops) && op in ops && op.kind == Insertion && block == Block(op.lines, ending)
    ensures Gap(ops, ending, Anchor(op)) == block
  {
    InsertedIs(ops, Anchor(op), op);
  }

  /** At its adjusted position an insertion goes exactly into its gap. */
  lemma InsertionPoint(lines: seq<EditableLine>, rs: seq<Op>, ops: set<Op>, ending: Ending, deltas: seq<(nat, int)>,
                       op: Op,
                       cur: seq<EditableLine>, a: nat, block: seq<EditableLine>, p: int)
    requires Agenda(rs, ops, Replacement) && forall r | r in rs :: Targeted(r, |lines|)
    requires |deltas| == |rs| && forall i | 0 <= i < |rs| :: deltas[i] == (Last(rs[i]), Growth(rs[i]))
    requires op in ops && op.kind == Insertion && Anchor(op) <= |lines|
    requires Anchor(op) < a <= |lines| + 1 && forall u | Anchor(op) < u < a :: InsertedAt(ops, u) == None
    requires cur == Placed(lines, ops, ending, a) && block == Block(op.lines, ending)
    requires p == Anchor(op) + Shift(deltas, Anchor(op))
    ensures 0 <= p <= |cur| && Placed(lines, ops, ending, Anchor(op)) == cur[..p] + block + cur[p..]
  {
    AdjustedAnchor(lines, rs, ops, ending, deltas, op);
    EmptyGaps(lines, ops, ending, Anchor(op) + 1, a);
    GapIs(ops, ending, op, block);
    PlacedNext(lines, ops, ending, Anchor(op), cur, block, p);
  }

  lemma PlacedNext(lines: seq<EditableLine>, ops: set<Op>, ending: Ending, t: nat, cur: seq<EditableLine>,
                   block: seq<EditableLine>, p: int)
    requires t <= |lines| && cur == Placed(lines, ops, ending, t + 1) && block == Gap(ops, ending, t)
    requires p == |Segment(lines, ops, ending, 0, t)|
    ensures 0 <= p <= |cur| && Placed(lines, ops, ending, t) == cur[..p] + block + cur[p..]
  {
  }

  lemma AllPlaced(lines: seq<EditableLine>, ops: set<Op>, ending: Ending, ins: seq<Op>, a: nat)
    requires Agenda(ins, ops, Insertion) && PlacedUpTo(ins, |lines|, |ins|, a)
    ensures Placed(lines, ops, ending, a) == Edited(lines, ops, ending)
  {
    forall u | 0 <= u < a
      ensures InsertedAt(ops, u) == None
    {
      GapsBetween(ins, ops, |ins|, a, u);
    }
    EmptyGaps(lines, ops, ending, 0, a);
    PlacedText(lines, ops, ending, 0);
    assert [] + Edited(lines, ops, ending) == Edited(lines, ops, ending);
  }

  /** The position as the code bounds it. */
  function Clamp(position: int, length: nat): nat
  {
    if position < 0 then 0 else if position < length then position else length
  }

  /** Puts the lines of one insertion at its adjusted position. Neither clamp ever takes effect. */
  method InsertOne(lines: seq<EditableLine>, ending: Ending, ghost ops: set<Op>, ghost rs: seq<Op>,
                   deltas: seq<(nat, int)>,
                   ghost ins: seq<Op>, ghost k: nat, op: Op, cur: seq<EditableLine>, ghost a: nat)
    returns (r: Result<seq<EditableLine>, ApplyError>)
    requires Agenda(rs, ops, Replacement) && forall x | x in rs :: Targeted(x, |lines|)
    requires |deltas| == |rs| && forall i | 0 <= i < |rs| :: deltas[i] == (Last(rs[i]), Growth(rs[i]))
    requires k < |ins| && op == ins[k] && Agenda(ins, ops, Insertion) && PlacedUpTo(ins, |lines|, k, a)
    requires cur == Placed(lines, ops, ending, a)
    ensures r.Ok? <==> Targeted(op, |lines|)
    ensures r.Err? ==> IsFault(op, |lines|, r.error)
    ensures r.Ok? ==> r.value == Placed(lines, ops, ending, Anchor(op))
  {
    assert op in ins;
    if op.range.Range? {
      return Err(NotASingleLine);
    }
    var anchor := op.range.line;
    if anchor > |lines| {
      return Err(BeyondFile);
    }
    var block := Block(op.lines, ending);
    OneMorePlaced(|lines|, ops, ins, k, a);
    var adjusted := anchor + Shift(deltas, anchor);
    InsertionPoint(lines, rs, ops, ending, deltas, op, cur, a, block, adjusted);
    var next := InsertLines(cur, Clamp(adjusted, |cur|), block);
    r := Ok(next);
  }

  method ApplyInsertions(lines: seq<EditableLine>, ending: Ending, ghost ops: set<Op>, ghost rs: seq<Op>,
                         ins: seq<Op>, deltas: seq<(nat, int)>, replaced: seq<EditableLine>)
    returns (r: Result<seq<EditableLine>, ApplyError>)
    requires Agenda(rs, ops, Replacement) && forall x | x in rs :: Targeted(x, |lines|)
    requires |deltas| == |rs| && forall i | 0 <= i < |rs| :: deltas[i] == (Last(rs[i]), Growth(rs[i]))
    requires Agenda(ins, ops, Insertion)
    requires replaced == Segment(lines, ops, ending, 0, |lines|)
    ensures r.Ok? <==> forall x | x in ins :: Targeted(x, |lines|)
    ensures r.Err? ==> exists x :: x in ins && IsFault(x, |lines|, r.error)
    ensures r.Ok? ==> r.value == Edited(lines, ops, ending)
  {
    var cur := replaced;
    ghost var a: nat := |lines| + 1;
    for k := 0 to |ins|
      invariant cur == Placed(lines, ops, ending, a) && PlacedUpTo(ins, |lines|, k, a)
    {
      var next := InsertOne(lines, ending, ops, rs, deltas, ins, k, ins[k], cur, a);
      if next.Err? {
        assert ins[k] in ins;
        return Err(next.error);
      }
      OneMorePlaced(|lines|, ops, ins, k, a);
      cur, a := next.value, Anchor(ins[k]);
    }
    AllPlaced(lines, ops, ending, ins, a);
    r := Ok(cur);
  }

  // ----- order

  /** The same operation, wherever it is listed. */
  predicate Alike(p: Op, q: Op) { p.(index := q.index) == q }

  /** Every operation of p has one alike in q. */
  ghost predicate FoundIn(p: set<Op>, q: set<Op>)
  {
    forall x | x in p :: exists y :: y in q && Alike(x, y)
  }

  /** The second result is there and alike if the first is there. */
  ghost predicate Follows(p: Option<Op>, q: Option<Op>)
  {
    p.Some? ==> q.Some? && Alike(p.value, q.value)
  }

  lemma CoveringFollows(p: set<Op>, q: set<Op>, t: nat)
    requires Compatible(q) && FoundIn(p, q)
    ensures Follows(Covering(p, t), Covering(q, t))
  {
    if Covering(p, t).Some? {
      var c := Covering(p, t).value;
      var d :| d in q && Alike(c, d);
      CoveringIs(q, t, d);
    }
  }

  lemma InsertedFollows(p: set<Op>, q: set<Op>, t: nat)
    requires Compatible(q) && FoundIn(p, q)
    ensures Follows(InsertedAt(p, t), InsertedAt(q, t))
  {
    if InsertedAt(p, t).Some? {
      var c := InsertedAt(p, t).value;
      var d :| d in q && Alike(c, d);
      InsertedIs(q, t, d);
    }
  }

  /** What p does to each line and gap, q does too, if p does anything there. */
  ghost predicate FollowsAll(p: set<Op>, q: set<Op>)
  {
    forall t: nat :: Follows(Covering(p, t), Covering(q, t)) && Follows(InsertedAt(p, t), InsertedAt(q, t))
  }

  lemma AlikeFollows(p: set<Op>, q: set<Op>)
    requires Compatible(q) && FoundIn(p, q)
    ensures FollowsAll(p, q)
  {
    forall t: nat
      ensures Follows(Covering(p, t), Covering(q, t)) && Follows(InsertedAt(p, t), InsertedAt(q, t))
    {
      CoveringFollows(p, q, t);
      InsertedFollows(p, q, t);
    }
  }

  /** The result depends on which operations there are, not on where they are listed. */
  lemma {:induction false} AlikeEdited(lines: seq<EditableLine>, ending: Ending, p: set<Op>, q: set<Op>, t: nat)
    requires FollowsAll(p, q) && FollowsAll(q, p) && t <= |lines|
    ensures EditedFrom(lines, p, ending, t) == EditedFrom(lines, q, ending, t)
    decreases |lines| - t
  {
    SameOut(lines, ending, p, q, t);
    if t < |lines| {
      SameOut(lines, ending, p, q, t + 1);
      AlikeEdited(lines, ending, p, q, t + 1);
    }
  }

  lemma SameOut(lines: seq<EditableLine>, ending: Ending, p: set<Op>, q: set<Op>, t: nat)
    requires FollowsAll(p, q) && FollowsAll(q, p)
    ensures 1 <= t <= |lines| ==> Out(lines, p, ending, t) == Out(lines, q, ending, t)
    ensures Gap(p, ending, t) == Gap(q, ending, t)
  {
    assert Follows(Covering(p, t), Covering(q, t)) && Follows(InsertedAt(p, t), InsertedAt(q, t));
    assert Follows(Covering(q, t), Covering(p, t)) && Follows(InsertedAt(q, t), InsertedAt(p, t));
  }

  // ----- both phases

  /** Applies a conflict-free batch. It fails exactly when a target lies outside the file; otherwise
      the result is the simultaneous edit of the original lines, whatever the order of the list. */
  method ApplyBatch(lines: seq<EditableLine>, ending: Ending, hadTrailingNewline: bool, ops: seq<Op>)
    returns (r: Result<seq<EditableLine>, ApplyError>)
    requires ConflictFree(ops)
    ensures r.Ok? <==> forall op | op in ops :: Targeted(op, |lines|)
    ensures r.Err? ==> exists op :: op in ops && IsFault(op, |lines|, r.error)
    ensures r.Ok? ==> r.value == Preserved(Edited(lines, AsSet(ops), ending), ending, hadTrailingNewline)
  {
    var rs := SortDesc(OfKind(ops, Replacement));
    var ins := SortDesc(OfKind(ops, Insertion));
    SortedIsAgenda(ops, Replacement);
    SortedIsAgenda(ops, Insertion);
    var replaced := ApplyReplacements(lines, ending, AsSet(ops), rs);
    if replaced.Err? {
      return Err(replaced.error);
    }
    var inserted := ApplyInsertions(lines, ending, AsSet(ops), rs, ins, replaced.value.1, replaced.value.0);
    if inserted.Err? {
      return Err(inserted.error);
    }
    r := Ok(Preserved(inserted.value, ending, hadTrailingNewline));
  }
}
