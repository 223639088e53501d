/** Text replacement on files with mixed line terminators: the editable content object and the
    replacement of all matches from right to left. */
module TextReplace {
  import opened Wrappers
  import opened LineText
  import opened Seqs
  import opened EditableText

  // ----- matches and plain substitution

  predicate OccursAt(s: string, needle: string, p: nat)
  {
    p + |needle| <= |s| && s[p..p + |needle|] == needle
  }

  /** The positions of all matches at or after `from`, leftmost first, without overlaps. */
  function Matches(s: string, needle: string, from: nat): seq<nat>
    requires needle != ""
    decreases |s| - from
  {
    if from + |needle| > |s| then []
    else if OccursAt(s, needle, from) then [from] + Matches(s, needle, from + |needle|)
    else Matches(s, needle, from + 1)
  }

  /** The text from `from` on with every match substituted. */
  ghost function Substituted(s: string, needle: string, text: string, from: nat): string
    requires needle != "" && from <= |s|
    decreases |s| - from
  {
    if from + |needle| > |s| then s[from..]
    else if OccursAt(s, needle, from) then text + Substituted(s, needle, text, from + |needle|)
    else [s[from]] + Substituted(s, needle, text, from + 1)
  }

  /** The k-th match, and what the search finds from it and after it. */
  lemma {:induction false} MatchesSpec(s: string, needle: string, from: nat, k: nat)
    requires needle != "" && k < |Matches(s, needle, from)|
    ensures var ps := Matches(s, needle, from);
            && from <= ps[k] && ps[k] + |needle| <= |s|
            && Matches(s, needle, ps[k]) == ps[k..]
            && OccursAt(s, needle, ps[k])
    decreases |s| - from
  {
    var ps := Matches(s, needle, from);
    if !OccursAt(s, needle, from) {
      MatchesSpec(s, needle, from + 1, k);
    } else if k == 0 {
      assert ps[0..] == ps;
    } else {
      var rest := Matches(s, needle, from + |needle|);
      assert ps == [from] + rest;
      MatchesSpec(s, needle, from + |needle|, k - 1);
      assert ps[k..] == rest[k - 1..];
    }
  }

  lemma NextMatch(s: string, needle: string, from: nat, k: nat)
    requires needle != "" && k < |Matches(s, needle, from)|
    ensures var ps := Matches(s, needle, from);
            && Matches(s, needle, ps[k] + |needle|) == ps[k + 1..]
            && (k + 1 < |ps| ==> ps[k] + |needle| <= ps[k + 1])
  {
    MatchesSpec(s, needle, from, k);
    var ps := Matches(s, needle, from);
    var rest := Matches(s, needle, ps[k] + |needle|);
    assert ps[k..] == [ps[k]] + rest;
    assert ps[k + 1..] == ps[k..][1..];
    if k + 1 < |ps| {
      MatchesSpec(s, needle, ps[k] + |needle|, 0);
    }
  }

  /** The text stands at p, or begins inside an earlier one of the matches. */
  ghost predicate Accounted(ps: seq<nat>, len: nat, p: nat)
  {
    p in ps || exists i :: 0 <= i < |ps| && ps[i] < p < ps[i] + len
  }

  /** Wherever the text stands is a match, or overlaps an earlier one. */
  lemma {:induction false} MatchesComplete(s: string, needle: string, from: nat, p: nat)
    requires needle != "" && from <= p <= |s| && needle <= s[p..]
    ensures Accounted(Matches(s, needle, from), |needle|, p)
    decreases |s| - from
  {
    assert s[p..][..|needle|] == s[p..p + |needle|];
    var ps := Matches(s, needle, from);
    if !OccursAt(s, needle, from) {
      MatchesComplete(s, needle, from + 1, p);
    } else if p < from + |needle| {
      assert ps[0] == from;
    } else {
      var rest := Matches(s, needle, from + |needle|);
      MatchesComplete(s, needle, from + |needle|, p);
      assert ps == [from] + rest;
      if p !in rest {
        var i :| 0 <= i < |rest| && rest[i] < p < rest[i] + |needle|;
        assert ps[i + 1] == rest[i];
      }
    }
  }

  lemma MatchesSound(s: string, needle: string, k: nat)
    requires needle != "" && k < |Matches(s, needle, 0)|
    ensures var ps := Matches(s, needle, 0);
            ps[k] <= |s| && needle <= s[ps[k]..] && (k > 0 ==> ps[k - 1] + |needle| <= ps[k])
  {
    var p := Matches(s, needle, 0)[k];
    MatchesSpec(s, needle, 0, k);
    assert s[p..][..|needle|] == s[p..p + |needle|];
    if k > 0 {
      NextMatch(s, needle, 0, k - 1);
    }
  }

  /** Text up to the next match is copied. */
  lemma {:induction false} SubstitutedToNext(s: string, needle: string, text: string, from: nat)
    requires needle != "" && from <= |s|
    ensures var ps := Matches(s, needle, from);
            if ps == [] then Substituted(s, needle, text, from) == s[from..]
            else
              from <= ps[0] <= |s|
              && Substituted(s, needle, text, from) == s[from..ps[0]] + Substituted(s, needle, text, ps[0])
    decreases |s| - from
  {
    var ps := Matches(s, needle, from);
    if from + |needle| <= |s| && !OccursAt(s, needle, from) {
      SubstitutedToNext(s, needle, text, from + 1);
      if ps == [] {
        assert s[from..] == [s[from]] + s[from + 1..];
      } else {
        assert s[from..ps[0]] == [s[from]] + s[from + 1..ps[0]];
        Cat([s[from]], s[from + 1..ps[0]], Substituted(s, needle, text, ps[0]));
      }
    } else if from + |needle| <= |s| {
      assert ps[0] == from && s[from..from] == "";
    }
  }

  /** Plain replacement; a range outside the text leaves it alone. */
  ghost function SpliceIn(s: string, start: nat, end: nat, text: string): string
  {
    if start <= end <= |s| then Splice(s, start, end, text) else s
  }

  /** The text once the matches from index k on have been replaced, the last one first. */
  ghost function SplicesFrom(s: string, ps: seq<nat>, len: nat, text: string, k: nat): string
    requires k <= |ps|
    decreases |ps| - k
  {
    if k == |ps| then s else SpliceIn(SplicesFrom(s, ps, len, text, k + 1), ps[k], ps[k] + len, text)
  }

  lemma SpliceAfterHead(head: string, tail: string, p: nat, text: string)
    requires p <= |head|
    ensures Splice(head + tail, p, |head|, text) == head[..p] + (text + tail)
  {
    assert (head + tail)[..p] == head[..p] && (head + tail)[|head|..] == tail;
  }

  /** Copying from q up to the next match and substituting from there substitutes from q. */
  lemma CopyToNext(s: string, needle: string, text: string, q: nat)
    requires needle != "" && q <= |s|
    ensures var ps := Matches(s, needle, q);
            if ps == [] then s == s[..q] + Substituted(s, needle, text, q)
            else
              q <= ps[0] <= |s|
              && s[..ps[0]] + Substituted(s, needle, text, ps[0]) == s[..q] + Substituted(s, needle, text, q)
  {
    SubstitutedToNext(s, needle, text, q);
    var ps := Matches(s, needle, q);
    if ps == [] {
      assert s == s[..q] + s[q..];
    } else {
      assert s[..ps[0]] == s[..q] + s[q..ps[0]];
      Cat(s[..q], s[q..ps[0]], Substituted(s, needle, text, ps[0]));
    }
  }

  /** Replacing the match at p in a text substituted from its end on. */
  lemma SubstituteAt(s: string, needle: string, text: string, p: nat)
    requires needle != "" && OccursAt(s, needle, p)
    ensures var q := p + |needle|;
            Splice(s[..q] + Substituted(s, needle, text, q), p, q, text) == s[..p] + Substituted(s, needle, text, p)
  {
    var q := p + |needle|;
    SpliceAfterHead(s[..q], Substituted(s, needle, text, q), p, text);
    assert s[..q][..p] == s[..p];
  }

  lemma OneSplice(next: string, s: string, needle: string, text: string, p: nat)
    requires needle != "" && OccursAt(s, needle, p)
    requires next == s[..p + |needle|] + Substituted(s, needle, text, p + |needle|)
    ensures p + |needle| <= |next| && SpliceIn(next, p, p + |needle|, text) == s[..p] + Substituted(s, needle, text, p)
  {
    SubstituteAt(s, needle, text, p);
  }

  /** Substituted from the next match on is substituted from the end of this one. */
  lemma FromNextMatch(s: string, needle: string, text: string, ps: seq<nat>, k: nat, next: string)
    requires needle != "" && ps == Matches(s, needle, 0) && k < |ps|
    requires if k + 1 == |ps| then next == s
             else ps[k + 1] <= |s| && next == s[..ps[k + 1]] + Substituted(s, needle, text, ps[k + 1])
    ensures OccursAt(s, needle, ps[k]) && next == s[..ps[k] + |needle|] + Substituted(s, needle, text, ps[k] + |needle|)
  {
    assert OccursAt(s, needle, ps[k]) by { MatchesSpec(s, needle, 0, k); }
    var rest := ps[k + 1..];
    assert Matches(s, needle, ps[k] + |needle|) == rest by { NextMatch(s, needle, 0, k); }
    assert rest != [] ==> rest[0] == ps[k + 1];
    CopyUpTo(s, needle, text, ps[k] + |needle|, rest);
  }

  lemma CopyUpTo(s: string, needle: string, text: string, q: nat, rest: seq<nat>)
    requires needle != "" && q <= |s| && rest == Matches(s, needle, q)
    ensures if rest == [] then s == s[..q] + Substituted(s, needle, text, q)
            else
              rest[0] <= |s|
              && s[..rest[0]] + Substituted(s, needle, text, rest[0]) == s[..q] + Substituted(s, needle, text, q)
  {
    CopyToNext(s, needle, text, q);
  }

  /** With the matches from index k on replaced, the text is untouched up to the k-th match and
      fully substituted from there. */
  lemma {:induction false} SplicesText(s: string, needle: string, text: string, ps: seq<nat>, k: nat)
    requires needle != "" && ps == Matches(s, needle, 0) && k < |ps|
    ensures ps[k] + |needle| <= |SplicesFrom(s, ps, |needle|, text, k + 1)| && ps[k] <= |s|
    ensures SplicesFrom(s, ps, |needle|, text, k) == s[..ps[k]] + Substituted(s, needle, text, ps[k])
    decreases |ps| - k
  {
    var next := SplicesFrom(s, ps, |needle|, text, k + 1);
    if k + 1 < |ps| {
      SplicesText(s, needle, text, ps, k + 1);
    }
    FromNextMatch(s, needle, text, ps, k, next);
    OneSplice(next, s, needle, text, ps[k]);
  }

  /** Once the first match is replaced too, every match is. */
  lemma AllReplaced(s: string, needle: string, text: string)
    requires needle != ""
    ensures SplicesFrom(s, Matches(s, needle, 0), |needle|, text, 0) == Substituted(s, needle, text, 0)
  {
    var ps := Matches(s, needle, 0);
    SubstitutedToNext(s, needle, text, 0);
    if ps != [] {
      SplicesText(s, needle, text, ps, 0);
      assert s[0..ps[0]] == s[..ps[0]];
    } else {
      assert s[0..] == s;
    }
  }

  /** Finds all matches by repeated search: the text stands at each of them, none overlaps the one before,
      and wherever else the text stands it overlaps an earlier match. */
  method FindAllPositions(haystack: string, needle: string) returns (positions: seq<nat>)
    requires needle != ""
    ensures positions == Matches(haystack, needle, 0)
    ensures forall k | 0 <= k < |positions| ::
              && positions[k] <= |haystack| && needle <= haystack[positions[k]..]
              && (k > 0 ==> positions[k - 1] + |needle| <= positions[k])
    ensures forall p: nat | p <= |haystack| && needle <= haystack[p..] :: Accounted(positions, |needle|, p)
  {
    positions := SearchAll(haystack, needle);
    forall k | 0 <= k < |positions|
      ensures positions[k] <= |haystack| && needle <= haystack[positions[k]..]
      ensures k > 0 ==> positions[k - 1] + |needle| <= positions[k]
    {
      MatchesSound(haystack, needle, k);
    }
    forall p: nat | p <= |haystack| && needle <= haystack[p..]
      ensures Accounted(positions, |needle|, p)
    {
      MatchesComplete(haystack, needle, 0, p);
    }
  }

  method SearchAll(haystack: string, needle: string) returns (positions: seq<nat>)
    requires needle != ""
    ensures positions == Matches(haystack, needle, 0)
  {
    positions := [];
    var start: nat := 0;
    while start + |needle| <= |haystack|
      invariant start <= |haystack|
      invariant Matches(haystack, needle, 0) == positions + Matches(haystack, needle, start)
      decreases |haystack| - start
    {
      var pos := Find(haystack, needle, start);
      if pos.None? {
        CatEmpty(positions);
        return;
      }
      start := pos.value + |needle|;
      Cat(positions, [pos.value], Matches(haystack, needle, start));
      positions := positions + [pos.value];
    }
    CatEmpty(positions);
  }

  /** The first match at or after start. */
  method Find(haystack: string, needle: string, start: nat) returns (pos: Option<nat>)
    requires needle != "" && start <= |haystack|
    ensures pos.None? ==> Matches(haystack, needle, start) == []
    ensures pos.Some? ==> start <= pos.value && pos.value + |needle| <= |haystack|
                          && Matches(haystack, needle, start)
                             == [pos.value] + Matches(haystack, needle, pos.value + |needle|)
  {
    var p: nat := start;
    while p + |needle| <= |haystack|
      invariant start <= p && Matches(haystack, needle, start) == Matches(haystack, needle, p)
    {
      if haystack[p..p + |needle|] == needle {
        return Some(p);
      }
      p := p + 1;
    }
    pos := None;
  }

  // ----- replacing right to left on lines

  /** One step; ranges outside the text leave the lines alone. */
  ghost function Step(lines: seq<EditableLine>, ending: Ending, start: nat, end: nat, text: string): seq<EditableLine>
  {
    if WellFormed(lines) && start <= end <= |Normalized(lines)|
    then Replaced(lines, ending, start, end, text)
    else lines
  }

  /** A way to replace a range of lines read as text. */
  type Stepper = (seq<EditableLine>, nat, nat) -> seq<EditableLine>

  ghost function StepWith(ending: Ending, text: string): Stepper
  {
    (lines: seq<EditableLine>, start: nat, end: nat) => Step(lines, ending, start, end, text)
  }

  /** The lines once the matches from index k on have been replaced, the last one first. */
  ghost function StepsFrom(f: Stepper, lines: seq<EditableLine>, ps: seq<nat>, len: nat, k: nat): seq<EditableLine>
    requires k <= |ps|
    decreases |ps| - k
  {
    if k == |ps| then lines else f(StepsFrom(f, lines, ps, len, k + 1), ps[k], ps[k] + len)
  }

  /** The lines read as t, or as t with one final newline that only an unterminated rest of the
      text beyond `bound` received. */
  ghost predicate Near(lines: seq<EditableLine>, t: string, bound: nat)
  {
    && WellFormed(lines)
    && (Normalized(lines) == t || (Normalized(lines) == t + "\n" && bound < |t| && t[|t| - 1] != '\n'))
  }

  lemma SpliceAppend(t: string, start: nat, end: nat, text: string, tail: string)
    requires start <= end <= |t|
    ensures Splice(t + tail, start, end, text) == Splice(t, start, end, text) + tail
  {
    assert (t + tail)[..start] == t[..start];
    assert (t + tail)[end..] == t[end..] + tail;
  }

  /** Steps left of the bound keep the lines near the replaced text. */
  ghost predicate StaysNear(f: Stepper, text: string)
  {
    forall lines, t, bound: nat, start: nat, end: nat
      {:trigger Near(lines, t, bound), f(lines, start, end)}
      | Near(lines, t, bound) && start <= end <= |t| && end <= bound ::
      Near(f(lines, start, end), Splice(t, start, end, text), start)
  }

  lemma StepStaysNear(ending: Ending, text: string)
    requires ending != Unterminated
    ensures StaysNear(StepWith(ending, text), text)
  {
    var f := StepWith(ending, text);
    forall lines, t, bound: nat, start: nat, end: nat
      {:trigger Near(lines, t, bound), f(lines, start, end)}
      | Near(lines, t, bound) && start <= end <= |t| && end <= bound
      ensures Near(f(lines, start, end), Splice(t, start, end, text), start)
    {
      OneStepStaysNear(lines, ending, t, bound, start, end, text);
    }
  }

  lemma OneStepStaysNear(lines: seq<EditableLine>, ending: Ending, t: string, bound: nat, start: nat, end: nat,
                         text: string)
    requires Near(lines, t, bound) && start <= end <= |t| && end <= bound && ending != Unterminated
    ensures Near(Step(lines, ending, start, end, text), Splice(t, start, end, text), start)
  {
    ReplacedText(lines, ending, start, end, text);
    if Normalized(lines) != t {
      SpliceAppend(t, start, end, text, "\n");
      var u := Splice(t, start, end, text);
      assert t[end..][|t| - end - 1] == t[|t| - 1];
      assert u[|u| - 1] == t[|t| - 1];
    }
  }

  lemma SplicesUnfold(s: string, needle: string, text: string, k: nat)
    requires needle != "" && k < |Matches(s, needle, 0)|
    ensures var ps := Matches(s, needle, 0);
            var t := SplicesFrom(s, ps, |needle|, text, k + 1);
            && ps[k] + |needle| <= |t| && ps[k] + |needle| <= (if k + 1 < |ps| then ps[k + 1] else |s|)
            && SplicesFrom(s, ps, |needle|, text, k) == Splice(t, ps[k], ps[k] + |needle|, text)
  {
    SplicesText(s, needle, text, Matches(s, needle, 0), k);
    NextMatch(s, needle, 0, k);
    MatchesSpec(s, needle, 0, k);
  }

  /** Step by step from the right, the lines stay near the text replaced so far. */
  lemma {:induction false} StepsStayNear(f: Stepper, lines: seq<EditableLine>, s: string, needle: string, text: string,
                                         ps: seq<nat>, k: nat)
    requires StaysNear(f, text) && Near(lines, s, |s|) && needle != "" && ps == Matches(s, needle, 0) && k <= |ps|
    ensures Near(StepsFrom(f, lines, ps, |needle|, k), SplicesFrom(s, ps, |needle|, text, k),
              if k < |ps| then ps[k] else |s|)
    decreases |ps| - k
  {
    if k < |ps| {
      StepsStayNear(f, lines, s, needle, text, ps, k + 1);
      SplicesUnfold(s, needle, text, k);
    }
  }

  /** The lines after replacing every match and restoring the final newline. */
  ghost function EditedLines(lines: seq<EditableLine>, ending: Ending, had: bool, needle: string,
                             text: string): seq<EditableLine>
    requires needle != ""
  {
    Preserved(StepsFrom(StepWith(ending, text), lines, Matches(Normalized(lines), needle, 0), |needle|, 0), ending, had)
  }

  /** Right-to-left replacement on lines is substitution of every match in the plain text,
      followed by the rule for the final newline. */
  lemma EditedLinesText(lines: seq<EditableLine>, ending: Ending, had: bool, needle: string, text: string)
    requires WellFormed(lines) && needle != "" && ending != Unterminated
    ensures Normalized(EditedLines(lines, ending, had, needle, text))
         == TrailingRule(had, Substituted(Normalized(lines), needle, text, 0))
  {
    var s := Normalized(lines);
    var ps := Matches(s, needle, 0);
    var f := StepWith(ending, text);
    StepStaysNear(ending, text);
    StepsStayNear(f, lines, s, needle, text, ps, 0);
    AllReplaced(s, needle, text);
    NearPreserved(StepsFrom(f, lines, ps, |needle|, 0), ending, had, Substituted(s, needle, text, 0),
                  if 0 < |ps| then ps[0] else |s|);
  }

  lemma EditedWellFormed(lines: seq<EditableLine>, ending: Ending, had: bool, needle: string, text: string)
    requires WellFormed(lines) && ending != Unterminated && needle != ""
    ensures WellFormed(EditedLines(lines, ending, had, needle, text))
  {
    var f, ps := StepWith(ending, text), Matches(Normalized(lines), needle, 0);
    StepStaysNear(ending, text);
    StepsStayNear(f, lines, Normalized(lines), needle, text, ps, 0);
    PreservedWellFormed(StepsFrom(f, lines, ps, |needle|, 0), ending, had);
  }

  /** The final pass removes the newline that absorbing the last line may have added. */
  lemma NearPreserved(lines: seq<EditableLine>, ending: Ending, had: bool, t: string, bound: nat)
    requires Near(lines, t, bound) && ending != Unterminated
    ensures Normalized(Preserved(lines, ending, had)) == TrailingRule(had, t)
  {
    PreservedText(lines, ending, had);
    assert (t + "\n")[..|t|] == t;
  }

  // ----- terminators

  /** Every terminated line ends in e. */
  ghost predicate Uniform(lines: seq<EditableLine>, e: Ending)
  {
    forall i | 0 <= i < |lines| :: lines[i].ending == e || lines[i].ending == Unterminated
  }

  /** The text with each newline written as e. */
  ghost function Expand(s: string, e: Ending): string
  {
    if s == "" then "" else (if s[0] == '\n' then EndingText(e) else [s[0]]) + Expand(s[1..], e)
  }

  lemma {:induction false} ExpandAppend(s: string, t: string, e: Ending)
    ensures Expand(s + t, e) == Expand(s, e) + Expand(t, e)
  {
    if s == "" {
      assert s + t == t;
    } else {
      assert (s + t)[1..] == s[1..] + t;
      ExpandAppend(s[1..], t, e);
    }
  }

  lemma {:induction false} ExpandPlain(s: string, e: Ending)
    requires '\n' !in s
    ensures Expand(s, e) == s
  {
    if s != "" {
      ExpandPlain(s[1..], e);
    }
  }

  /** Lines with one kind of terminator render as their normalised text written with it. */
  lemma {:induction false} RenderedUniform(lines: seq<EditableLine>, e: Ending)
    requires Uniform(lines, e) && forall i | 0 <= i < |lines| :: '\n' !in lines[i].text
    ensures Rendered(lines) == Expand(Normalized(lines), e)
  {
    if lines != [] {
      var l := lines[0];
      RenderedUniform(lines[1..], e);
      ExpandAppend(LineLf(l), Normalized(lines[1..]), e);
      ExpandAppend(l.text, if l.ending == Unterminated then "" else "\n", e);
      ExpandPlain(l.text, e);
      assert "\n"[1..] == "";
      assert Expand("\n", e) == EndingText(e);
    }
  }

  lemma LinesWithEndingUniform(content: string, e: Ending)
    ensures Uniform(LinesWithEnding(content, e), e)
  {
    GiveEndingUniform(SplitInclusive(content), e);
  }

  lemma {:induction false} GiveEndingUniform(pieces: seq<string>, e: Ending)
    ensures Uniform(GiveEnding(pieces, e), e)
  {
    if pieces != [] {
      GiveEndingUniform(pieces[1..], e);
    }
  }

  lemma RejoinUniform(prefix: seq<EditableLine>, changed: seq<EditableLine>, suffix: seq<EditableLine>, e: Ending)
    requires Uniform(prefix, e) && Uniform(changed, e) && Uniform(suffix, e)
    ensures Uniform(Rejoin(prefix, changed, suffix, e), e)
  {
  }

  lemma StepUniform(lines: seq<EditableLine>, e: Ending, start: nat, end: nat, text: string)
    requires Uniform(lines, e)
    ensures Uniform(Step(lines, e, start, end, text), e)
  {
    if WellFormed(lines) && start <= end <= |Normalized(lines)| {
      if lines == [] {
        LinesWithEndingUniform(text, e);
      } else {
        var s, last, changed := RegionOfReplacement(lines, e, start, end, text);
        LinesWithEndingUniform(changed, e);
        RejoinUniform(lines[..s], LinesWithEnding(changed, e), lines[last + 1..], e);
      }
    }
  }

  lemma {:induction false} StepsUniform(lines: seq<EditableLine>, e: Ending, ps: seq<nat>, len: nat, text: string,
                                        k: nat)
    requires Uniform(lines, e) && k <= |ps|
    ensures Uniform(StepsFrom(StepWith(e, text), lines, ps, len, k), e)
    decreases |ps| - k
  {
    if k < |ps| {
      StepsUniform(lines, e, ps, len, text, k + 1);
      StepUniform(StepsFrom(StepWith(e, text), lines, ps, len, k + 1), e, ps[k], ps[k] + len, text);
    }
  }

  /** Preserving the final newline keeps text free of newlines and terminators of one kind. */
  lemma PreservedUniform(lines: seq<EditableLine>, e: Ending, had: bool)
    requires Uniform(lines, e) && forall i | 0 <= i < |lines| :: '\n' !in lines[i].text
    ensures Uniform(Preserved(lines, e, had), e)
    ensures forall i | 0 <= i < |Preserved(lines, e, had)| :: '\n' !in Preserved(lines, e, had)[i].text
  {
  }

  /** A file with terminators of one kind keeps them, whatever is replaced by whatever: the new
      raw text is the plain substitution written with that terminator. */
  lemma UniformFileStaysUniform(lines: seq<EditableLine>, e: Ending, had: bool, needle: string, text: string)
    requires WellFormed(lines) && Uniform(lines, e) && e != Unterminated && needle != ""
    ensures Rendered(EditedLines(lines, e, had, needle, text))
         == Expand(TrailingRule(had, Substituted(Normalized(lines), needle, text, 0)), e)
  {
    var s := Normalized(lines);
    var ps := Matches(s, needle, 0);
    StepsUniform(lines, e, ps, |needle|, text, 0);
    StepStaysNear(e, text);
    StepsStayNear(StepWith(e, text), lines, s, needle, text, ps, 0);
    PreservedUniform(StepsFrom(StepWith(e, text), lines, ps, |needle|, 0), e, had);
    EditedLinesText(lines, e, had, needle, text);
    RenderedUniform(EditedLines(lines, e, had, needle, text), e);
  }
}
