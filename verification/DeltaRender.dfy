/** Delta views: how they are rendered, and how a client that still holds the old lines reads them. */
module DeltaRender {
  import opened Wrappers
  import opened EditScript
  import opened EditDistance
  import opened MyersDiff
  import opened DeltaHunks
  import opened DeltaShape

  /** Edit-distance ceiling for a delta. */
  const MAX_EDIT_DISTANCE := 500

  // ----- reading a delta

  /** Where a reader stands: old lines consumed, new lines built, and whether lines were skipped. */
  datatype Reader<T> = Reader(cursor: nat, built: seq<T>, gap: bool)

  /** How a client that holds the lines a takes in one line of the view. A gap stands for
      unchanged lines, as many as the position of the next kept line tells. */
  ghost function Take<T>(a: seq<T>, st: Option<Reader<T>>, item: Item<T>): Option<Reader<T>>
  {
    if st.None? then None else
      var Reader(cursor, built, gap) := st.value;
      match item
      case Header(hunks, _) => Some(Reader(cursor, built, hunks == 0))
      case Gap => Some(Reader(cursor, built, true))
      case Keep(pos, text) =>
        var hidden := pos - 1 - |built|;
        if 0 <= hidden && cursor + hidden < |a| && (hidden > 0 ==> gap) && a[cursor + hidden] == text then
          Some(Reader(cursor + hidden + 1, built + a[cursor..cursor + hidden] + [text], false))
        else None
      case Add(pos, text) =>
        if !gap && pos == |built| + 1 then Some(Reader(cursor, built + [text], false)) else None
      case Remove(first, last) =>
        if !gap && first == cursor + 1 && first <= last <= |a| then Some(Reader(last, built, false)) else None
  }

  ghost function TakeAll<T>(a: seq<T>, items: seq<Item<T>>): Option<Reader<T>>
  {
    if items == [] then Some(Reader(0, [], false))
    else Take(a, TakeAll(a, items[..|items| - 1]), items[|items| - 1])
  }

  /** The lines a client that holds a has after reading the view; none if the view does not fit. */
  ghost function Read<T>(a: seq<T>, items: seq<Item<T>>): Option<seq<T>>
  {
    var st := TakeAll(a, items);
    if items == [] || !items[0].Header? || st.None? || st.value.cursor > |a| then None else
      var all := if st.value.gap then st.value.built + a[st.value.cursor..] else st.value.built;
      if |all| == items[0].total && (st.value.gap || st.value.cursor == |a|) then Some(all) else None
  }

  lemma TakeOne<T>(a: seq<T>, items: seq<Item<T>>, item: Item<T>)
    ensures TakeAll(a, items + [item]) == Take(a, TakeAll(a, items), item)
  {
    assert (items + [item])[..|items|] == items;
  }

  // ----- rendering

  /** The view so far brings a reader of a to op p, all ops from q to p being skipped kept lines. */
  ghost predicate ReadUpTo<T>(a: seq<T>, b: seq<T>, ops: seq<DiffOp>, items: seq<Item<T>>, q: nat, p: nat)
    requires q <= p <= |ops|
  {
    && NewAt(ops, q) <= |b|
    && TakeAll(a, items) == Some(Reader(OldAt(ops, q), b[..NewAt(ops, q)], q < p))
    && forall r | q <= r < p :: ops[r].Equal?
  }

  lemma TakeKept<T>(a: seq<T>, b: seq<T>, ops: seq<DiffOp>, items: seq<Item<T>>, q: nat, p: nat)
    requires Indexed(a, b, ops) && q <= p < |ops| && ops[p].Equal? && ReadUpTo(a, b, ops, items, q, p)
    ensures ops[p].j < |b|
    ensures ReadUpTo(a, b, ops, items + [Keep(ops[p].j + 1, b[ops[p].j])], p + 1, p + 1)
  {
    assert Placed(a, b, ops, p);
    KeptStretch(a, b, ops, q, p);
    TakeOne(a, items, Keep(ops[p].j + 1, b[ops[p].j]));
    PrefixGrows(b, NewAt(ops, q), NewAt(ops, p));
  }

  lemma PrefixGrows<T>(b: seq<T>, n: nat, m: nat)
    requires n <= m < |b|
    ensures b[..n] + b[n..m] == b[..m] && b[..m] + [b[m]] == b[..m + 1]
  {
  }

  lemma TakeAdded<T>(a: seq<T>, b: seq<T>, ops: seq<DiffOp>, items: seq<Item<T>>, p: nat)
    requires Indexed(a, b, ops) && p < |ops| && ops[p].Insert? && ReadUpTo(a, b, ops, items, p, p)
    ensures ops[p].j < |b|
    ensures ReadUpTo(a, b, ops, items + [Add(ops[p].j + 1, b[ops[p].j])], p + 1, p + 1)
  {
    assert Placed(a, b, ops, p);
    TakeOne(a, items, Add(ops[p].j + 1, b[ops[p].j]));
    assert b[..NewAt(ops, p)] + [b[NewAt(ops, p)]] == b[..NewAt(ops, p + 1)];
  }

  /** A run of deletions removes consecutive old lines and adds none. */
  lemma {:induction false} DeleteRun<T>(a: seq<T>, b: seq<T>, ops: seq<DiffOp>, p: nat, q: nat)
    requires Indexed(a, b, ops) && p <= q < |ops| && forall r | p <= r <= q :: ops[r].Delete?
    ensures OldAt(ops, q + 1) == OldAt(ops, p) + (q + 1 - p) <= |a| && NewAt(ops, q + 1) == NewAt(ops, p)
    ensures ops[p].i == OldAt(ops, p) && ops[q].i == OldAt(ops, q)
  {
    assert Placed(a, b, ops, p) && Placed(a, b, ops, q);
    if p < q {
      DeleteRun(a, b, ops, p, q - 1);
    }
  }

  lemma TakeRemoved<T>(a: seq<T>, b: seq<T>, ops: seq<DiffOp>, items: seq<Item<T>>, p: nat, q: nat)
    requires Indexed(a, b, ops) && p <= q < |ops| && forall r | p <= r <= q :: ops[r].Delete?
    requires ReadUpTo(a, b, ops, items, p, p)
    ensures ReadUpTo(a, b, ops, items + [Remove(ops[p].i + 1, ops[q].i + 1)], q + 1, q + 1)
  {
    DeleteRun(a, b, ops, p, q);
    TakeOne(a, items, Remove(ops[p].i + 1, ops[q].i + 1));
  }

  lemma TakeGap<T>(a: seq<T>, b: seq<T>, ops: seq<DiffOp>, items: seq<Item<T>>, q: nat, p: nat)
    requires q < p <= |ops| && ReadUpTo(a, b, ops, items, q, q) && forall r | q <= r < p :: ops[r].Equal?
    ensures ReadUpTo(a, b, ops, items + [Gap], q, p)
  {
    TakeOne(a, items, Gap);
  }

  /** The last op of a run of deletions within a hunk, and the line it deletes. */
  method DeletionRun(ops: seq<DiffOp>, from: nat, end: nat) returns (i: nat, last: nat)
    requires from <= end < |ops| && ops[from].Delete?
    ensures from <= i <= end && last == (if ops[i].Delete? then ops[i].i else 0)
    ensures (forall r | from <= r <= i :: ops[r].Delete?) && (i < end ==> !ops[i + 1].Delete?)
  {
    i, last := from, ops[from].i;
    while i < end && ops[i + 1].Delete?
      invariant from <= i <= end
      invariant forall r | from <= r <= i :: ops[r].Delete?
      invariant last == ops[i].i
    {
      last := ops[i + 1].i;
      i := i + 1;
    }
  }

  /** The ops from start to end are a stretch of the view. */
  ghost predicate IsStretch(ops: seq<DiffOp>, start: nat, end: nat)
  {
    && start <= end < |ops| && (forall p | start <= p <= end :: Near(ops, p))
    && (end + 1 < |ops| ==> !Near(ops, end + 1))
  }

  /** The items account for the ops before p, and the last of them is in a stretch if so wanted. */
  ghost predicate TracedTo<T>(ops: seq<DiffOp>, items: seq<Item<T>>, at: seq<nat>, p: nat, inStretch: bool)
  {
    && Traced(ops, items, at) && at[|items|] == p
    && (inStretch <==> |items| > 1 && !items[|items| - 1].Gap?)
  }

  lemma TracedItem<T>(ops: seq<DiffOp>, items: seq<Item<T>>, at: seq<nat>, p: nat, inStretch: bool, item: Item<T>,
                      q: nat)
    requires TracedTo(ops, items, at, p, inStretch) && StandsFor(ops, item, p, q)
    ensures TracedTo(ops, items + [item], at + [q], q, !item.Gap?)
    ensures Stretches(items + [item]) == Stretches(items) + if !item.Gap? && !inStretch then 1 else 0
  {
    TracedNext(ops, items, at, item, q);
    OneMoreItem(items, item);
  }

  lemma RemovedStands<T>(a: seq<T>, b: seq<T>, ops: seq<DiffOp>, from: nat, i: nat, start: nat, end: nat)
    requires Indexed(a, b, ops) && IsStretch(ops, start, end) && start <= from <= i <= end
    requires (forall r | from <= r <= i :: ops[r].Delete?) && (i < end ==> !ops[i + 1].Delete?)
    ensures StandsFor<T>(ops, Remove(ops[from].i + 1, ops[i].i + 1), from, i + 1)
  {
    DeleteRun(a, b, ops, from, i);
    KeptStretchless(a, b, ops, from, i);
    if i == end && end + 1 < |ops| {
      ChangedIsNear(ops, end + 1);
    }
  }

  lemma {:induction false} KeptStretchless<T>(a: seq<T>, b: seq<T>, ops: seq<DiffOp>, p: nat, q: nat)
    requires Indexed(a, b, ops) && p <= q < |ops| && forall r | p <= r <= q :: ops[r].Delete?
    ensures OldAt(ops, q) == OldAt(ops, p) + q - p
  {
    if p < q {
      KeptStretchless(a, b, ops, p, q - 1);
    }
  }

  /** Renders the next op of a hunk, or a run of deletions as one removed range. */
  method RenderNext<T>(a: seq<T>, b: seq<T>, ops: seq<DiffOp>, i: nat, end: nat, ghost start: nat,
                       ghost out: seq<Item<T>>, ghost q: nat)
    returns (item: Item<T>, last: nat)
    requires Indexed(a, b, ops) && IsStretch(ops, start, end) && start <= i <= end && q <= i
    requires ReadUpTo(a, b, ops, out, q, i) && (q < i ==> ops[i].Equal?)
    ensures i <= last <= end && !item.Gap? && StandsFor(ops, item, i, last + 1)
    ensures ReadUpTo(a, b, ops, out + [item], last + 1, last + 1)
  {
    assert Placed(a, b, ops, i) && Near(ops, i);
    last := i;
    match ops[i] {
      case Equal(_, j) =>
        TakeKept(a, b, ops, out, q, i);
        item := Keep(j + 1, b[j]);
      case Insert(j) =>
        TakeAdded(a, b, ops, out, i);
        item := Add(j + 1, b[j]);
      case Delete(first) =>
        var line;
        last, line := DeletionRun(ops, i, end);
        TakeRemoved(a, b, ops, out, i, last);
        RemovedStands(a, b, ops, i, last, start, end);
        item := Remove(first + 1, line + 1);
    }
  }

  /** Of the hunk that follows the first items, all ops before i are rendered. */
  ghost predicate Begun<T>(a: seq<T>, b: seq<T>, ops: seq<DiffOp>, out0: seq<Item<T>>, out: seq<Item<T>>,
                           at: seq<nat>, i: nat)
  {
    match i <= |ops|
    case false => false
    case true =>
      && out0 <= out && ReadUpTo(a, b, ops, out, i, i) && TracedTo(ops, out, at, i, true)
      && Stretches(out) == Stretches(out0) + 1
  }

  lemma BeginsHunk<T>(a: seq<T>, b: seq<T>, ops: seq<DiffOp>, out0: seq<Item<T>>, at: seq<nat>, i: nat, item: Item<T>,
                      next: nat)
    requires TracedTo(ops, out0, at, i, false) && StandsFor(ops, item, i, next) && !item.Gap? && next <= |ops|
    requires ReadUpTo(a, b, ops, out0 + [item], next, next)
    ensures Begun(a, b, ops, out0, out0 + [item], at + [next], next)
  {
    TracedItem(ops, out0, at, i, false, item, next);
  }

  lemma GoesOn<T>(a: seq<T>, b: seq<T>, ops: seq<DiffOp>, out0: seq<Item<T>>, out: seq<Item<T>>, at: seq<nat>, i: nat,
                  item: Item<T>, next: nat)
    requires Begun(a, b, ops, out0, out, at, i) && StandsFor(ops, item, i, next) && !item.Gap? && next <= |ops|
    requires ReadUpTo(a, b, ops, out + [item], next, next)
    ensures Begun(a, b, ops, out0, out + [item], at + [next], next)
  {
    TracedItem(ops, out, at, i, true, item, next);
  }

  /** Renders the ops of one hunk. */
  method RenderHunk<T>(a: seq<T>, b: seq<T>, ops: seq<DiffOp>, start: nat, end: nat, out0: seq<Item<T>>, ghost q0: nat,
                       ghost at0: seq<nat>)
    returns (out: seq<Item<T>>, ghost at: seq<nat>)
    requires Indexed(a, b, ops) && IsStretch(ops, start, end) && q0 <= start
    requires out0 != [] && ReadUpTo(a, b, ops, out0, q0, start) && (q0 < start ==> ops[start].Equal?)
    requires TracedTo(ops, out0, at0, start, false)
    ensures out0 <= out && ReadUpTo(a, b, ops, out, end + 1, end + 1)
    ensures TracedTo(ops, out, at, end + 1, true) && Stretches(out) == Stretches(out0) + 1
  {
    out, at := out0, at0;
    var i: nat := start;
    ghost var q := q0;
    while i <= end
      invariant start <= i <= end + 1
      invariant if i == start then q == q0 && out == out0 && at == at0 else q == i && Begun(a, b, ops, out0, out, at, i)
      decreases end + 1 - i
    {
      var item, last := RenderNext(a, b, ops, i, end, start, out, q);
      if i == start {
        BeginsHunk(a, b, ops, out, at, i, item, last + 1);
      } else {
        GoesOn(a, b, ops, out0, out, at, i, item, last + 1);
      }
      i := last + 1;
      q := i;
      out, at := out + [item], at + [i];
    }
  }

  /** A view that leads past every op, or skips the rest of them, reads as the new lines. */
  lemma ReadToEnd<T>(a: seq<T>, b: seq<T>, ops: seq<DiffOp>, items: seq<Item<T>>, q: nat)
    requires Indexed(a, b, ops) && q <= |ops| && ReadUpTo(a, b, ops, items, q, |ops|)
    requires items != [] && items[0].Header? && items[0].total == |b|
    ensures Read(a, items) == Some(b)
  {
    KeptStretch(a, b, ops, q, |ops|);
    assert b[..NewAt(ops, q)] + b[NewAt(ops, q)..|b|] == b;
    assert a[OldAt(ops, q)..] == a[OldAt(ops, q)..|a|] && b[..|b|] == b;
  }

  /** Without hunks every line is kept. */
  lemma ReadNoHunks<T>(a: seq<T>, b: seq<T>, ops: seq<DiffOp>)
    requires Indexed(a, b, ops) && forall r | 0 <= r < |ops| :: ops[r].Equal?
    ensures Read(a, [Header(0, |b|)]) == Some(b)
  {
    KeptStretch(a, b, ops, 0, |ops|);
    var items: seq<Item<T>> := [Header(0, |b|)];
    TakeOne(a, [], items[0]);
    assert [] + items == items;
    assert [] + a[0..] == a[0..|a|] == a && b[0..|b|] == b;
  }

  lemma {:induction false} NoChanges(ops: seq<DiffOp>)
    requires forall r | 0 <= r < |ops| :: ops[r].Equal?
    ensures Edits(ops) == 0
  {
    if ops != [] {
      NoChanges(ops[1..]);
    }
  }

  lemma ReadHeader<T>(a: seq<T>, b: seq<T>, ops: seq<DiffOp>, header: Item<T>)
    requires header.Header? && header.hunks > 0
    ensures ReadUpTo(a, b, ops, [header], 0, 0) && TracedTo(ops, [header], [0, 0], 0, false)
    ensures Stretches([header]) == 0
  {
    TakeOne(a, [], header);
    assert [] + [header] == [header];
  }

  /** A gap leads to the next hunk, or to the end. */
  lemma GapToHunk<T>(a: seq<T>, b: seq<T>, ops: seq<DiffOp>, hunks: seq<(nat, nat)>, h: nat, out: seq<Item<T>>,
                     at: seq<nat>, p: nat, start: nat, inStretch: bool)
    requires AreHunks(ops, |ops|, hunks) && h <= |hunks| && p == (if h == 0 then 0 else hunks[h - 1].1 + 1)
    requires start == (if h < |hunks| then hunks[h].0 else |ops|) && p < start <= |ops|
    requires ReadUpTo(a, b, ops, out, p, p) && TracedTo(ops, out, at, p, inStretch)
    ensures ReadUpTo(a, b, ops, out + [Gap], p, start) && TracedTo(ops, out + [Gap], at + [start], start, false)
    ensures Stretches(out + [Gap]) == Stretches(out)
  {
    SkippedToHunk(ops, hunks, h, p);
    TakeGap(a, b, ops, out, p, start);
    assert StandsFor<T>(ops, Gap, p, start) by {
      BetweenIsFar(ops, hunks, h, p);
      if h < |hunks| {
        HunkIsNear(ops, hunks, h);
      }
    }
    TracedItem(ops, out, at, p, inStretch, Gap, start);
  }

  /** Renders all hunks, a gap wherever lines are skipped. */
  method RenderHunks<T>(a: seq<T>, b: seq<T>, ops: seq<DiffOp>, hunks: seq<(nat, nat)>) returns (out: seq<Item<T>>)
    requires Indexed(a, b, ops) && AreHunks(ops, |ops|, hunks) && hunks != []
    ensures Read(a, out) == Some(b) && Shaped(out, Edits(ops), |b|)
  {
    out := [Header(|hunks|, |b|)];
    ghost var at: seq<nat> := [0, 0];
    ReadHeader(a, b, ops, out[0]);
    ghost var p: nat := 0;
    for h := 0 to |hunks|
      invariant [Header(|hunks|, |b|)] <= out && Stretches(out) == h
      invariant p == if h == 0 then 0 else hunks[h - 1].1 + 1
      invariant p <= |ops| && ReadUpTo(a, b, ops, out, p, p) && TracedTo(ops, out, at, p, h > 0)
    {
      var (start, end) := hunks[h];
      SkippedToHunk(ops, hunks, h, p);
      HunkIsNear(ops, hunks, h);
      if start > 0 {
        GapToHunk(a, b, ops, hunks, h, out, at, p, start, h > 0);
        out, at := out + [Gap], at + [start];
      }
      out, at := RenderHunk(a, b, ops, start, end, out, p, at);
      p := end + 1;
    }
    SkippedToHunk(ops, hunks, |hunks|, p);
    if hunks[|hunks| - 1].1 + 1 < |ops| {
      GapToHunk(a, b, ops, hunks, |hunks|, out, at, p, |ops|, true);
      out, at := out + [Gap], at + [|ops|];
    }
    ReadToEnd(a, b, ops, out, p);
    TracedIsShaped(ops, out, at, |b|);
  }

  /** A delta view, unless the files are further apart than a delta pays off for. A client that
      still holds the old lines reads the new ones off the view, which shows exactly the changes of a
      shortest script, each with its context, and hides all else. */
  method RenderDelta<T(==)>(a: seq<T>, b: seq<T>) returns (r: Option<seq<Item<T>>>)
    ensures r.None? <==> Distance(a, b) > MAX_EDIT_DISTANCE
    ensures r.Some? ==> Read(a, r.value) == Some(b) && Shaped(r.value, Distance(a, b), |b|)
  {
    var diff := DiffLines(a, b, MAX_EDIT_DISTANCE);
    if diff.None? {
      return None;
    }
    ScriptIsIndexed(a, b, diff.value);
    var hunks := Hunks(diff.value);
    if hunks == [] {
      ReadNoHunks(a, b, diff.value);
      NoChanges(diff.value);
      return Some([Header(0, |b|)]);
    }
    var out := RenderHunks(a, b, diff.value, hunks);
    r := Some(out);
  }
}
