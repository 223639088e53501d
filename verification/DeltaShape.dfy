/** What a delta view looks like, item by item: its changes, their context and its gaps. */
module DeltaShape {
  import opened EditScript
  import opened DeltaHunks

  /** One line of a delta view. Positions are 1-based: of kept and added lines in the new file,
      of removed ranges in the old one. */
  datatype Item<T> =
    | Header(hunks: nat, total: nat)
    | Gap
    | Keep(pos: nat, text: T)
    | Add(pos: nat, text: T)
    | Remove(first: nat, last: nat)

  // ----- the shape of a view

  predicate IsChange<T>(item: Item<T>) { item.Add? || item.Remove? }

  /** How many lines an item adds or removes. */
  function Weight<T>(item: Item<T>): nat
  {
    match item
    case Add(_, _) => 1
    case Remove(first, last) => if first <= last then last - first + 1 else 0
    case _ => 0
  }

  function Weights<T>(items: seq<Item<T>>): nat
  {
    if items == [] then 0 else Weights(items[..|items| - 1]) + Weight(items[|items| - 1])
  }

  /** The number of stretches of lines, each of which a gap or the header precedes. */
  function Stretches<T>(items: seq<Item<T>>): nat
  {
    var last := |items| - 1;
    if |items| <= 1 then 0
    else Stretches(items[..last]) + if !items[last].Gap? && (last == 1 || items[last - 1].Gap?) then 1 else 0
  }

  /** The last line of the new file that the items before the k-th show. */
  function ShownUpTo<T>(items: seq<Item<T>>, k: nat): nat
    requires k <= |items|
  {
    if k == 0 then 0 else
      match items[k - 1]
      case Keep(pos, _) => pos
      case Add(pos, _) => pos
      case _ => ShownUpTo(items, k - 1)
  }

  /** A kept line is shown only close to a change of its own stretch. */
  ghost predicate KeptNear<T>(items: seq<Item<T>>, k: nat)
    requires 1 <= k < |items|
  {
    items[k].Keep? ==>
      exists c :: 1 <= c < |items| && k - CONTEXT <= c <= k + CONTEXT && IsChange(items[c])
                  && forall l | (c < l < k || k < l < c) && 1 <= l < |items| :: items[l].Keep?
  }

  /** Behind a gap there are exactly so many kept lines and then a change, and in front of it exactly so many
      kept lines after a change, unless the view ends or begins with it; and the gap hides a line. */
  ghost predicate GapIsRight<T>(items: seq<Item<T>>, k: nat, total: nat)
    requires 1 <= k < |items|
  {
    items[k].Gap? ==>
      && (k + 1 < |items| ==>
            && k + CONTEXT + 1 < |items| && IsChange(items[k + CONTEXT + 1])
            && (forall l | k < l <= k + CONTEXT :: items[l].Keep?)
            && items[k + 1].pos > ShownUpTo(items, k) + 1)
      && (k + 1 == |items| ==> total > ShownUpTo(items, k))
      && (k > 1 ==>
            && k > CONTEXT + 1 && IsChange(items[k - CONTEXT - 1])
            && forall l | k - CONTEXT <= l < k :: items[l].Keep?)
  }

  /** A view of so many changed lines and a file of so many lines: one header that counts the stretches, and
      the changes with their context; deletions in a row are one item. */
  ghost predicate Shaped<T>(items: seq<Item<T>>, changed: nat, total: nat)
  {
    && items != [] && items[0] == Header(Stretches(items), total) && Weights(items) == changed
    && (forall k | 1 <= k < |items| :: !items[k].Header? && KeptNear(items, k) && GapIsRight(items, k, total))
    && forall k | 1 <= k < |items| - 1 :: !(items[k].Remove? && items[k + 1].Remove?)
  }

  // ----- the ops behind each item

  ghost predicate ChangeAt(ops: seq<DiffOp>, p: int) { 0 <= p < |ops| && !ops[p].Equal? }

  ghost predicate Near(ops: seq<DiffOp>, p: int)
  {
    match 0 <= p < |ops|
    case false => false
    case true =>
      ChangeAt(ops, p - 2) || ChangeAt(ops, p - 1) || ChangeAt(ops, p) || ChangeAt(ops, p + 1) || ChangeAt(ops, p + 2)
  }

  lemma ChangedIsNear(ops: seq<DiffOp>, p: nat)
    requires p < |ops|
    ensures ops[p].Equal? || Near(ops, p)
  {
    assert ops[p].Equal? || ChangeAt(ops, p);
  }

  lemma NearIs(ops: seq<DiffOp>, p: int)
    ensures Near(ops, p) <==> NearChange(ops, |ops|, p)
  {
    if NearChange(ops, |ops|, p) {
      var c :| 0 <= c < |ops| && !ops[c].Equal? && c - CONTEXT <= p <= c + CONTEXT;
      assert ChangeAt(ops, c) && (c == p - 2 || c == p - 1 || c == p || c == p + 1 || c == p + 2);
    }
  }

  /** The item stands for the ops from p to q. */
  ghost predicate StandsFor<T>(ops: seq<DiffOp>, item: Item<T>, p: nat, q: nat)
  {
    match item
    case Header(_, _) => false
    case Keep(pos, _) => q == p + 1 <= |ops| && ops[p].Equal? && Near(ops, p) && pos == NewAt(ops, p) + 1
    case Add(pos, _) => q == p + 1 <= |ops| && ops[p].Insert? && pos == NewAt(ops, p) + 1
    case Remove(first, last) =>
      && p < q <= |ops| && (forall r | p <= r < q :: ops[r].Delete?) && last - first + 1 == q - p
      && (q < |ops| ==> !ops[q].Delete?)
    case Gap => p < q <= |ops| && (forall r | p <= r < q :: !Near(ops, r)) && (q < |ops| ==> Near(ops, q))
  }

  /** Item k of the view stands for the ops from at[k] on, up to those of the next item. */
  ghost predicate Traced<T>(ops: seq<DiffOp>, items: seq<Item<T>>, at: seq<nat>)
  {
    && |at| == |items| + 1 && items != [] && items[0].Header? && at[0] == at[1] == 0
    && forall k | 1 <= k < |items| :: StandsFor(ops, items[k], at[k], at[k + 1])
  }

  lemma TracedNext<T>(ops: seq<DiffOp>, items: seq<Item<T>>, at: seq<nat>, item: Item<T>, q: nat)
    requires Traced(ops, items, at) && StandsFor(ops, item, at[|items|], q)
    ensures Traced(ops, items + [item], at + [q]) && (at + [q])[|items| + 1] == q
  {
    var items', at' := items + [item], at + [q];
    forall k | 1 <= k < |items'|
      ensures StandsFor(ops, items'[k], at'[k], at'[k + 1])
    {
      if k < |items| {
        assert StandsFor(ops, items[k], at[k], at[k + 1]);
      }
    }
  }

  /** The item that begins with op p. */
  lemma Begins<T>(ops: seq<DiffOp>, items: seq<Item<T>>, at: seq<nat>, k: nat)
    requires Traced(ops, items, at) && 1 <= k < |items|
    ensures at[k] < at[k + 1] <= |ops|
    ensures Near(ops, at[k]) && ops[at[k]].Equal? ==> items[k].Keep? && at[k + 1] == at[k] + 1
    ensures !ops[at[k]].Equal? ==> IsChange(items[k])
    ensures !Near(ops, at[k]) <==> items[k].Gap?
  {
    assert StandsFor(ops, items[k], at[k], at[k + 1]);
    ChangedIsNear(ops, at[k]);
  }

  /** The item that ends with the op before p. */
  lemma Ends<T>(ops: seq<DiffOp>, items: seq<Item<T>>, at: seq<nat>, k: nat)
    requires Traced(ops, items, at) && 1 <= k < |items|
    ensures at[k] < at[k + 1] <= |ops|
    ensures Near(ops, at[k + 1] - 1) && ops[at[k + 1] - 1].Equal? ==> items[k].Keep? && at[k] == at[k + 1] - 1
    ensures !ops[at[k + 1] - 1].Equal? ==> IsChange(items[k])
  {
    assert StandsFor(ops, items[k], at[k], at[k + 1]);
    ChangedIsNear(ops, at[k + 1] - 1);
  }

  // ----- a traced view has that shape

  /** The first op of a stretch that is not the first of all is followed by another kept one and a change. */
  lemma Opening(ops: seq<DiffOp>, p: nat)
    requires 0 < p < |ops| && Near(ops, p) && !Near(ops, p - 1)
    ensures p + 2 < |ops| && ops[p].Equal? && ops[p + 1].Equal? && Near(ops, p + 1) && !ops[p + 2].Equal?
  {
    assert ChangeAt(ops, p + 2);
  }

  lemma Closing(ops: seq<DiffOp>, q: nat)
    requires 0 < q < |ops| && !Near(ops, q) && Near(ops, q - 1)
    ensures q >= 3 && ops[q - 1].Equal? && ops[q - 2].Equal? && Near(ops, q - 2) && !ops[q - 3].Equal?
  {
    assert ChangeAt(ops, q - 3);
  }

  /** The whole script is traced. */
  ghost predicate Complete<T>(ops: seq<DiffOp>, items: seq<Item<T>>, at: seq<nat>)
  {
    Traced(ops, items, at) && at[|items|] == |ops|
  }

  lemma BehindGap<T>(ops: seq<DiffOp>, items: seq<Item<T>>, at: seq<nat>, k: nat)
    requires Complete(ops, items, at) && 1 <= k < |items| - 1 && items[k].Gap?
    ensures k + 3 < |items| && items[k + 1].Keep? && items[k + 2].Keep? && IsChange(items[k + 3])
  {
    assert StandsFor(ops, items[k], at[k], at[k + 1]);
    Begins(ops, items, at, k + 1);
    Opening(ops, at[k + 1]);
    Begins(ops, items, at, k + 2);
    Begins(ops, items, at, k + 3);
  }

  lemma BeforeGap<T>(ops: seq<DiffOp>, items: seq<Item<T>>, at: seq<nat>, k: nat)
    requires Complete(ops, items, at) && 1 < k < |items| && items[k].Gap?
    ensures k > 3 && items[k - 1].Keep? && items[k - 2].Keep? && IsChange(items[k - 3])
  {
    assert StandsFor(ops, items[k], at[k], at[k + 1]);
    assert StandsFor(ops, items[k - 1], at[k - 1], at[k]);
    assert !Near(ops, at[k]);
    LastIsNear(ops, items[k - 1], at[k - 1], at[k]);
    Closing(ops, at[k]);
    Ends(ops, items, at, k - 1);
    Ends(ops, items, at, k - 2);
    Ends(ops, items, at, k - 3);
  }

  lemma LastIsNear<T>(ops: seq<DiffOp>, item: Item<T>, p: nat, q: nat)
    requires StandsFor(ops, item, p, q) && q < |ops| && !Near(ops, q)
    ensures p < q && Near(ops, q - 1)
  {
    ChangedIsNear(ops, q - 1);
  }

  lemma KeptIsNear<T>(ops: seq<DiffOp>, items: seq<Item<T>>, at: seq<nat>, k: nat)
    requires Complete(ops, items, at) && 1 <= k < |items| && items[k].Keep?
    ensures KeptNear(items, k)
  {
    assert StandsFor(ops, items[k], at[k], at[k + 1]);
    var p: int := at[k];
    if ChangeAt(ops, p + 1) {
      Begins(ops, items, at, k + 1);
      NextTo(items, k, k + 1);
    } else if ChangeAt(ops, p - 1) {
      Ends(ops, items, at, k - 1);
      NextTo(items, k, k - 1);
    } else if ChangeAt(ops, p + 2) {
      Begins(ops, items, at, k + 1);
      Begins(ops, items, at, k + 2);
      NextTo(items, k, k + 2);
    } else {
      assert ChangeAt(ops, p - 2);
      Ends(ops, items, at, k - 1);
      Ends(ops, items, at, k - 2);
      NextTo(items, k, k - 2);
    }
  }

  lemma NextTo<T>(items: seq<Item<T>>, k: nat, c: nat)
    requires 1 <= k < |items| && 1 <= c < |items| && IsChange(items[c])
    requires c == k + 1 || c == k - 1 || (c == k + 2 && items[k + 1].Keep?) || (c == k - 2 && items[k - 1].Keep?)
    ensures KeptNear(items, k)
  {
  }

  // ----- lines shown and hidden

  /** Positions grow along a script, by one at each kept op. */
  lemma {:induction false} NewGrows(ops: seq<DiffOp>, p: nat, q: nat)
    requires p <= q <= |ops|
    ensures NewAt(ops, p) <= NewAt(ops, q)
    ensures p < q && ops[p].Equal? ==> NewAt(ops, p) < NewAt(ops, q)
  {
    if p < q {
      NewGrows(ops, p, q - 1);
    }
  }

  lemma {:induction false} NewAtDeletions(ops: seq<DiffOp>, p: nat, q: nat)
    requires p <= q <= |ops| && forall r | p <= r < q :: ops[r].Delete?
    ensures NewAt(ops, p) == NewAt(ops, q)
  {
    if p < q {
      NewAtDeletions(ops, p, q - 1);
    }
  }

  /** Unless a gap comes before it, an item follows the lines shown so far. */
  lemma {:induction false} ShownIsReached<T>(ops: seq<DiffOp>, items: seq<Item<T>>, at: seq<nat>, k: nat)
    requires Complete(ops, items, at) && 1 <= k <= |items| && (k == 1 || !items[k - 1].Gap?)
    ensures ShownUpTo(items, k) == NewAt(ops, at[k])
  {
    if k == 1 {
      assert ShownUpTo(items, 0) == 0;
    } else {
      assert StandsFor(ops, items[k - 1], at[k - 1], at[k]);
      if items[k - 1].Remove? {
        if k > 2 && items[k - 2].Gap? {
          BehindGap(ops, items, at, k - 2);
        }
        ShownIsReached(ops, items, at, k - 1);
        NewAtDeletions(ops, at[k - 1], at[k]);
      }
    }
  }

  lemma GapHides<T>(ops: seq<DiffOp>, items: seq<Item<T>>, at: seq<nat>, k: nat)
    requires Complete(ops, items, at) && 1 <= k < |items| && items[k].Gap?
    ensures ShownUpTo(items, k) < NewAt(ops, at[k + 1])
    ensures k + 1 < |items| && items[k + 1].Keep? ==> items[k + 1].pos > ShownUpTo(items, k) + 1
  {
    assert StandsFor(ops, items[k], at[k], at[k + 1]);
    if k > 1 {
      BeforeGap(ops, items, at, k);
    }
    ShownIsReached(ops, items, at, k);
    assert !Near(ops, at[k]);
    ChangedIsNear(ops, at[k]);
    NewGrows(ops, at[k], at[k + 1]);
    if k + 1 < |items| {
      assert StandsFor(ops, items[k + 1], at[k + 1], at[k + 2]);
    }
  }

  // ----- counting changes

  ghost function Changes(ops: seq<DiffOp>, p: nat): nat
    requires p <= |ops|
  {
    if p == 0 then 0 else Changes(ops, p - 1) + if ops[p - 1].Equal? then 0 else 1
  }

  lemma {:induction false} ChangesIsEdits(ops: seq<DiffOp>, p: nat)
    requires p <= |ops|
    ensures Changes(ops, p) + Edits(ops[p..]) == Edits(ops)
  {
    if p == 0 {
      assert ops[0..] == ops;
    } else {
      ChangesIsEdits(ops, p - 1);
      assert ops[p - 1..][0] == ops[p - 1] && ops[p - 1..][1..] == ops[p..];
    }
  }

  lemma {:induction false} ChangesOver(ops: seq<DiffOp>, p: nat, q: nat, changed: bool)
    requires p <= q <= |ops| && forall r | p <= r < q :: ops[r].Equal? <==> !changed
    ensures Changes(ops, q) == Changes(ops, p) + if changed then q - p else 0
  {
    if p < q {
      ChangesOver(ops, p, q - 1, changed);
    }
  }

  lemma ItemWeighs<T>(ops: seq<DiffOp>, item: Item<T>, p: nat, q: nat)
    requires StandsFor(ops, item, p, q)
    ensures p <= q <= |ops| && Changes(ops, q) == Changes(ops, p) + Weight(item)
  {
    match item {
      case Gap =>
        forall r | p <= r < q
          ensures ops[r].Equal?
        {
          ChangedIsNear(ops, r);
        }
        ChangesOver(ops, p, q, false);
      case Remove(_, _) => ChangesOver(ops, p, q, true);
      case _ =>
    }
  }

  lemma {:induction false} WeightsAre<T>(ops: seq<DiffOp>, items: seq<Item<T>>, at: seq<nat>, k: nat)
    requires Complete(ops, items, at) && 1 <= k <= |items|
    ensures at[k] <= |ops| && Weights(items[..k]) == Changes(ops, at[k])
  {
    if k == 1 {
      assert items[..1] == [items[0]] && items[..1][..0] == [];
    } else {
      WeightsAre(ops, items, at, k - 1);
      assert StandsFor(ops, items[k - 1], at[k - 1], at[k]);
      ItemWeighs(ops, items[k - 1], at[k - 1], at[k]);
      assert items[..k][..k - 1] == items[..k - 1];
    }
  }

  /** A view that accounts for a whole script has the shape. */
  lemma TracedIsShaped<T>(ops: seq<DiffOp>, items: seq<Item<T>>, at: seq<nat>, total: nat)
    requires Complete(ops, items, at) && NewAt(ops, |ops|) == total && items[0] == Header(Stretches(items), total)
    ensures Shaped(items, Edits(ops), total)
  {
    WeightsAre(ops, items, at, |items|);
    assert items[..|items|] == items;
    ChangesIsEdits(ops, |ops|);
    forall k | 1 <= k < |items|
      ensures !items[k].Header? && KeptNear(items, k) && GapIsRight(items, k, total)
    {
      assert StandsFor(ops, items[k], at[k], at[k + 1]);
      ItemIsRight(ops, items, at, k, total);
    }
    forall k | 1 <= k < |items| - 1
      ensures !(items[k].Remove? && items[k + 1].Remove?)
    {
      assert StandsFor(ops, items[k], at[k], at[k + 1]) && StandsFor(ops, items[k + 1], at[k + 1], at[k + 2]);
    }
  }

  lemma ItemIsRight<T>(ops: seq<DiffOp>, items: seq<Item<T>>, at: seq<nat>, k: nat, total: nat)
    requires Complete(ops, items, at) && NewAt(ops, |ops|) == total && 1 <= k < |items|
    ensures KeptNear(items, k) && GapIsRight(items, k, total)
  {
    if items[k].Keep? {
      KeptIsNear(ops, items, at, k);
    } else if items[k].Gap? {
      GapHides(ops, items, at, k);
      if k + 1 < |items| {
        BehindGap(ops, items, at, k);
      }
      if k > 1 {
        BeforeGap(ops, items, at, k);
      }
    }
  }

  // ----- what the hunks of a script give

  /** A hunk holds ops near changes, and no op right behind it is near one. */
  lemma HunkIsNear(ops: seq<DiffOp>, hunks: seq<(nat, nat)>, h: nat)
    requires AreHunks(ops, |ops|, hunks) && h < |hunks|
    ensures forall p | hunks[h].0 <= p <= hunks[h].1 :: Near(ops, p)
    ensures hunks[h].1 + 1 < |ops| ==> !Near(ops, hunks[h].1 + 1)
  {
    forall p | hunks[h].0 <= p <= hunks[h].1
      ensures Near(ops, p)
    {
      assert InHunk(hunks, p);
      NearIs(ops, p);
    }
    var q := hunks[h].1 + 1;
    if q < |ops| {
      NearIs(ops, q);
      if h + 1 < |hunks| {
        assert q < hunks[h + 1].0;
      }
      BetweenHunks(ops, hunks, h + 1, q);
    }
  }

  /** No op between the hunks is near a change. */
  lemma BetweenIsFar(ops: seq<DiffOp>, hunks: seq<(nat, nat)>, h: nat, p: nat)
    requires AreHunks(ops, |ops|, hunks) && h <= |hunks| && p == (if h == 0 then 0 else hunks[h - 1].1 + 1)
    ensures forall r | p <= r < (if h < |hunks| then hunks[h].0 else |ops|) :: !Near(ops, r)
  {
    forall r | p <= r < (if h < |hunks| then hunks[h].0 else |ops|)
      ensures !Near(ops, r)
    {
      BetweenHunks(ops, hunks, h, r);
      NearIs(ops, r);
    }
  }

  lemma OneMoreItem<T>(items: seq<Item<T>>, item: Item<T>)
    requires items != []
    ensures Stretches(items + [item])
         == Stretches(items) + if !item.Gap? && (|items| == 1 || items[|items| - 1].Gap?) then 1 else 0
  {
    assert (items + [item])[..|items|] == items;
  }
}
