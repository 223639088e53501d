/** The trailing note of an edit result that tells how far original line numbers moved. */
module ShiftNote {
  import opened Wrappers
  import opened EditScript
  import opened DeltaHunks
  import opened DeltaRender

  /** "after line `anchor` (0 for the file start), lines moved by `total`". */
  datatype Part = Part(anchor: nat, total: int)

  /** A region ends at original line `end` and changes the number of lines by `delta`. */
  datatype Region = Region(end: nat, delta: int)

  /** The sum of the deltas of all regions that end before original line n. */
  ghost function SumBelow(regions: seq<Region>, n: nat): int
  {
    if regions == [] then 0
    else SumBelow(regions[..|regions| - 1], n)
         + if regions[|regions| - 1].end < n then regions[|regions| - 1].delta else 0
  }

  /** How a client reads a note: the last part anchored before line n tells its shift. */
  ghost function ReadParts(parts: seq<Part>, n: nat): int
  {
    if parts == [] then 0
    else if parts[|parts| - 1].anchor < n then parts[|parts| - 1].total
    else ReadParts(parts[..|parts| - 1], n)
  }

  ghost function ReadNote(note: Option<seq<Part>>, n: nat): int
  {
    if note.None? then 0 else ReadParts(note.value, n)
  }

  predicate Ascending(m: seq<Region>)
  {
    forall i, j | 0 <= i < j < |m| :: m[i].end < m[j].end
  }

  /** Adds `delta` to the entry of `end` in a table ordered by line. */
  function AddAt(m: seq<Region>, end: nat, delta: int): seq<Region>
  {
    if m == [] then [Region(end, delta)]
    else
      var last := m[|m| - 1];
      if last.end < end then m + [Region(end, delta)]
      else if last.end == end then m[..|m| - 1] + [Region(end, last.delta + delta)]
      else AddAt(m[..|m| - 1], end, delta) + [last]
  }

  lemma SumAppend(m: seq<Region>, r: Region, n: nat)
    ensures SumBelow(m + [r], n) == SumBelow(m, n) + if r.end < n then r.delta else 0
  {
    assert (m + [r])[..|m|] == m;
  }

  lemma {:induction false} AddAtAscends(m: seq<Region>, end: nat, delta: int)
    requires Ascending(m)
    ensures var m' := AddAt(m, end, delta);
            Ascending(m') && m' != []
            && m'[|m'| - 1].end == if m == [] || m[|m| - 1].end < end then end else m[|m| - 1].end
  {
    if m != [] && m[|m| - 1].end > end {
      AddAtAscends(m[..|m| - 1], end, delta);
      var front := AddAt(m[..|m| - 1], end, delta);
      assert forall i | 0 <= i < |front| - 1 :: front[i].end < front[|front| - 1].end;
    }
  }

  lemma {:induction false} AddAtAdds(m: seq<Region>, end: nat, delta: int, n: nat)
    ensures SumBelow(AddAt(m, end, delta), n) == SumBelow(m, n) + if end < n then delta else 0
  {
    if m == [] {
      SumAppend([], Region(end, delta), n);
      assert [] + [Region(end, delta)] == [Region(end, delta)];
    } else {
      var last := m[|m| - 1];
      var front := m[..|m| - 1];
      if last.end < end {
        SumAppend(m, Region(end, delta), n);
      } else if last.end == end {
        SumAppend(front, Region(end, last.delta + delta), n);
      } else {
        AddAtAdds(front, end, delta, n);
        SumAppend(AddAt(front, end, delta), last, n);
      }
    }
  }

  lemma ReadAppend(parts: seq<Part>, p: Part, n: nat)
    ensures ReadParts(parts + [p], n) == if p.anchor < n then p.total else ReadParts(parts, n)
  {
    assert (parts + [p])[..|parts|] == parts;
  }

  ghost function Total(m: seq<Region>): int
  {
    if m == [] then 0 else Total(m[..|m| - 1]) + m[|m| - 1].delta
  }

  lemma {:induction false} SumIsTotal(m: seq<Region>, n: nat)
    requires forall i | 0 <= i < |m| :: m[i].end < n
    ensures SumBelow(m, n) == Total(m)
  {
    if m != [] {
      SumIsTotal(m[..|m| - 1], n);
    }
  }

  lemma OneMoreRegion(byEnd: seq<Region>, regions: seq<Region>, i: nat, n: nat)
    requires i < |regions| && Ascending(byEnd) && SumBelow(byEnd, n) == SumBelow(regions[..i], n)
    ensures SumBelow(AddAt(byEnd, regions[i].end, regions[i].delta), n) == SumBelow(regions[..i + 1], n)
  {
    AddAtAdds(byEnd, regions[i].end, regions[i].delta, n);
    SumAppend(regions[..i], regions[i], n);
    assert regions[..i] + [regions[i]] == regions[..i + 1];
  }

  /** Adds up the deltas of regions that end at the same line, in line order. */
  method GroupByEnd(regions: seq<Region>) returns (byEnd: seq<Region>)
    ensures Ascending(byEnd)
    ensures forall n: nat :: SumBelow(byEnd, n) == SumBelow(regions, n)
  {
    byEnd := [];
    for i := 0 to |regions|
      invariant Ascending(byEnd)
      invariant forall n: nat :: SumBelow(byEnd, n) == SumBelow(regions[..i], n)
    {
      forall n: nat
        ensures SumBelow(AddAt(byEnd, regions[i].end, regions[i].delta), n) == SumBelow(regions[..i + 1], n)
      {
        OneMoreRegion(byEnd, regions, i, n);
      }
      AddAtAscends(byEnd, regions[i].end, regions[i].delta);
      byEnd := AddAt(byEnd, regions[i].end, regions[i].delta);
    }
    assert regions[..|regions|] == regions;
  }

  /** A note says nothing twice: its parts are in line order, above the last line, and each changes the shift
      that the one before leaves. */
  ghost predicate IsTerse(parts: seq<Part>, lineCount: nat)
  {
    parts == []
    || var front, last := parts[..|parts| - 1], parts[|parts| - 1];
       && IsTerse(front, lineCount) && last.anchor < lineCount
       && if front == [] then last.total != 0
          else front[|front| - 1].anchor < last.anchor && front[|front| - 1].total != last.total
  }

  /** Of the first i entries of a table ordered by line, all that the note is to say has been said. */
  ghost predicate Drafted(parts: seq<Part>, byEnd: seq<Region>, i: nat, total: int, lineCount: nat)
    requires i <= |byEnd|
  {
    && IsTerse(parts, lineCount)
    && (parts != [] ==> i > 0 && parts[|parts| - 1].anchor <= byEnd[i - 1].end)
    && (i == 0 || byEnd[i - 1].end < lineCount ==> total == if parts == [] then 0 else parts[|parts| - 1].total)
  }

  lemma DraftNext(parts: seq<Part>, byEnd: seq<Region>, i: nat, total: int, lineCount: nat)
    requires Ascending(byEnd) && i < |byEnd| && Drafted(parts, byEnd, i, total, lineCount)
    ensures var Region(end, delta) := byEnd[i];
            Drafted(if delta != 0 && end < lineCount then parts + [Part(end, total + delta)] else parts, byEnd, i + 1,
                    total + delta, lineCount)
  {
    var Region(end, delta) := byEnd[i];
    assert i > 0 ==> byEnd[i - 1].end < end;
    if delta != 0 && end < lineCount {
      TerseNext(parts, Part(end, total + delta), lineCount);
    }
  }

  lemma TerseNext(parts: seq<Part>, p: Part, lineCount: nat)
    requires IsTerse(parts, lineCount) && p.anchor < lineCount
    requires if parts == [] then p.total != 0
             else parts[|parts| - 1].anchor < p.anchor && p.total != parts[|parts| - 1].total
    ensures IsTerse(parts + [p], lineCount)
  {
    assert (parts + [p])[..|parts|] == parts;
  }

  /** The note for the given regions. Read at any original line, it tells the sum of the deltas of
      the regions that end before that line. */
  method MakeShiftNote(lineCount: nat, regions: seq<Region>) returns (note: Option<seq<Part>>)
    ensures note.Some? ==> note.value != [] && IsTerse(note.value, lineCount)
    ensures forall n | 1 <= n <= lineCount :: ReadNote(note, n) == SumBelow(regions, n)
  {
    var byEnd := GroupByEnd(regions);
    var total := 0;
    var parts: seq<Part> := [];
    for i := 0 to |byEnd|
      invariant total == Total(byEnd[..i]) && Drafted(parts, byEnd, i, total, lineCount)
      invariant Tells(parts, byEnd[..i], lineCount)
    {
      var Region(end, delta) := byEnd[i];
      DraftNext(parts, byEnd, i, total, lineCount);
      TellsNext(parts, byEnd, i, total, lineCount);
      if delta != 0 && end < lineCount {
        parts := parts + [Part(end, total + delta)];
      }
      total := total + delta;
    }
    assert byEnd[..|byEnd|] == byEnd;
    note := if parts == [] then None else Some(parts);
  }

  /** The parts tell every line the sum of the regions above it. */
  ghost predicate Tells(parts: seq<Part>, regions: seq<Region>, lineCount: nat)
  {
    forall n | 1 <= n <= lineCount :: ReadParts(parts, n) == SumBelow(regions, n)
  }

  lemma TellsNext(parts: seq<Part>, byEnd: seq<Region>, i: nat, total: int, lineCount: nat)
    requires Ascending(byEnd) && i < |byEnd| && total == Total(byEnd[..i]) && Tells(parts, byEnd[..i], lineCount)
    ensures var Region(end, delta) := byEnd[i];
            && total + delta == Total(byEnd[..i + 1])
            && Tells(if delta != 0 && end < lineCount then parts + [Part(end, total + delta)] else parts,
                     byEnd[..i + 1], lineCount)
  {
    var Region(end, delta) := byEnd[i];
    assert byEnd[..i] + [byEnd[i]] == byEnd[..i + 1] && byEnd[..i + 1][..i] == byEnd[..i];
    var next := if delta != 0 && end < lineCount then parts + [Part(end, total + delta)] else parts;
    forall n | 1 <= n <= lineCount
      ensures ReadParts(next, n) == SumBelow(byEnd[..i + 1], n)
    {
      SumAppend(byEnd[..i], byEnd[i], n);
      ReadAppend(parts, Part(end, total + delta), n);
      if end < n {
        SumIsTotal(byEnd[..i], n);
      }
    }
  }

  // ----- regions of a line diff

  /** The regions a script changes, adjacent changes taken together. */
  method DiffRegions<T>(ghost a: seq<T>, ghost b: seq<T>, ops: seq<DiffOp>) returns (regions: seq<Region>)
    requires IsScript(a, b, ops)
    ensures forall p | 0 <= p < |ops| && ops[p].Equal? :: SumBelow(regions, ops[p].i + 1) == ops[p].j - ops[p].i
  {
    ScriptIsIndexed(a, b, ops);
    regions := [];
    var oldEnd: nat := 0;
    var delta := 0;
    for p := 0 to |ops|
      invariant oldEnd == OldAt(ops, p)
      invariant forall n: nat | n > oldEnd :: SumBelow(regions, n) + delta == NewAt(ops, p) - OldAt(ops, p)
      invariant forall q | 0 <= q < p && ops[q].Equal? :: ops[q].i + 1 <= oldEnd
      invariant forall q | 0 <= q < p && ops[q].Equal? :: SumBelow(regions, ops[q].i + 1) == ops[q].j - ops[q].i
    {
      assert Placed(a, b, ops, p);
      match ops[p] {
        case Equal(i, j) =>
          if delta != 0 {
            forall n: nat
              ensures SumBelow(regions + [Region(oldEnd, delta)], n)
                      == SumBelow(regions, n) + if oldEnd < n then delta else 0
            {
              SumAppend(regions, Region(oldEnd, delta), n);
            }
            regions := regions + [Region(oldEnd, delta)];
            delta := 0;
          }
          oldEnd := i + 1;
        case Delete(i) =>
          oldEnd := i + 1;
          delta := delta - 1;
        case Insert(_) =>
          delta := delta + 1;
      }
    }
    if delta != 0 {
      forall n: nat
        ensures SumBelow(regions + [Region(oldEnd, delta)], n) == SumBelow(regions, n) + if oldEnd < n then delta else 0
      {
        SumAppend(regions, Region(oldEnd, delta), n);
      }
      regions := regions + [Region(oldEnd, delta)];
    }
  }

  /** The note of an edit diff tells every surviving line its new position. */
  method DiffShiftNote<T>(ghost a: seq<T>, ghost b: seq<T>, lineCount: nat, ops: seq<DiffOp>)
    returns (note: Option<seq<Part>>)
    requires IsScript(a, b, ops) && lineCount == |a|
    ensures forall p | 0 <= p < |ops| && ops[p].Equal? :: ReadNote(note, ops[p].i + 1) == ops[p].j - ops[p].i
    ensures note.Some? ==> note.value != [] && IsTerse(note.value, lineCount)
  {
    var regions := DiffRegions(a, b, ops);
    note := MakeShiftNote(lineCount, regions);
    ScriptIsIndexed(a, b, ops);
    assert forall p | 0 <= p < |ops| && ops[p].Equal? :: Placed(a, b, ops, p);
  }
}
