/** Where the replacement of all matches of a text moves the positions of the text around them. */
module MovedText {
  import opened LineText
  import opened EditableText
  import opened TextReplace

  /** A line of the text starts here. */
  predicate StartsLine(t: string, p: int)
  {
    match p
    case 0 => true
    case _ => 0 < p <= |t| && t[p - 1] == '\n'
  }

  /** Where the matches from index k on move an offset that none of them runs across. */
  ghost function MovedTo(ps: seq<nat>, len: nat, shift: int, k: nat, off: nat): int
    requires k <= |ps|
    decreases |ps| - k
  {
    if k == |ps| then off else MovedTo(ps, len, shift, k + 1, off) + if ps[k] + len <= off then shift else 0
  }

  /** No match runs across the offset. */
  ghost predicate Between(ps: seq<nat>, len: nat, off: nat)
  {
    forall k | 0 <= k < |ps| :: ps[k] + len <= off || off <= ps[k]
  }

  /** Where the run of adjacent matches that ends at the offset begins, among those from index k on;
      the offset itself if no match ends there. */
  ghost function RunStart(ps: seq<nat>, len: nat, k: nat, off: nat): nat
    requires k <= |ps|
    decreases |ps| - k
  {
    if k == |ps| then off else
      var next := RunStart(ps, len, k + 1, off);
      if ps[k] + len == next then ps[k] else next
  }

  /** Whether a line still starts at a line start of s, with the matches from index k on replaced:
      no match ends there, or the new text ends in a newline, or matches are deleted and the run of
      them begins at a line start. */
  ghost predicate StillStarts(s: string, ps: seq<nat>, len: nat, text: string, k: nat, off: nat)
    requires k <= |ps|
  {
    var run := RunStart(ps, len, k, off);
    run == off || if text != "" then text[|text| - 1] == '\n' else StartsLine(s, run)
  }

  /** Matches are in order and apart, and each is followed by its own text. */
  lemma MatchesApart(s: string, needle: string, k: nat)
    requires needle != "" && k < |Matches(s, needle, 0)|
    ensures var ps := Matches(s, needle, 0);
            && ps[k] + |needle| <= |s| && OccursAt(s, needle, ps[k])
            && (k + 1 < |ps| ==> ps[k] + |needle| <= ps[k + 1])
  {
    MatchesSpec(s, needle, 0, k);
    NextMatch(s, needle, 0, k);
  }

  lemma MatchEnd(s: string, needle: string, p: nat)
    requires needle != "" && OccursAt(s, needle, p)
    ensures s[p + |needle| - 1] == needle[|needle| - 1]
  {
    assert s[p..p + |needle|][|needle| - 1] == s[p + |needle| - 1];
  }

  /** Of the offset and the run that ends there, seen from the k-th match on. */
  lemma {:induction false} RunSpec(s: string, needle: string, ps: seq<nat>, k: nat, off: nat)
    requires needle != "" && ps == Matches(s, needle, 0) && k <= |ps| && off <= |s|
    ensures RunStart(ps, |needle|, k, off) <= off
    ensures k < |ps| && ps[k] < off ==> ps[k] <= RunStart(ps, |needle|, k, off)
    ensures k < |ps| && off <= ps[k] ==> RunStart(ps, |needle|, k, off) == off
    ensures RunStart(ps, |needle|, k, off) < off ==> s[off - 1] == needle[|needle| - 1]
    decreases |ps| - k
  {
    if k < |ps| {
      MatchesApart(s, needle, k);
      RunSpec(s, needle, ps, k + 1, off);
      var next := RunStart(ps, |needle|, k + 1, off);
      if ps[k] + |needle| == next && next == off {
        MatchEnd(s, needle, ps[k]);
      }
    }
  }

  /** A moved offset stays right of the matches before it, but for a deleted run that ends there. */
  lemma {:induction false} MovedSpec(s: string, needle: string, text: string, ps: seq<nat>, k: nat, off: nat)
    requires needle != "" && ps == Matches(s, needle, 0) && k <= |ps| && off <= |s| && Between(ps, |needle|, off)
    ensures var at := MovedTo(ps, |needle|, |text| - |needle|, k, off);
            var run := RunStart(ps, |needle|, k, off);
            if k < |ps| && ps[k] < off then ps[k] + |text| <= at && (at == ps[k] <==> text == "" && run == ps[k])
            else at == off == run
    decreases |ps| - k
  {
    if k < |ps| {
      MatchesApart(s, needle, k);
      MovedSpec(s, needle, text, ps, k + 1, off);
      RunSpec(s, needle, ps, k + 1, off);
      if k + 1 < |ps| {
        MatchesApart(s, needle, k + 1);
      }
    }
  }

  /** What one replacement does to the text before an offset to the right of it. */
  lemma SpliceBefore(t: string, start: nat, end: nat, text: string, at: nat)
    requires start < end <= at <= |t|
    ensures var u, at' := Splice(t, start, end, text), at + |text| - (end - start);
            && at' <= |u| && u[at'..] == t[at..] && u[..at'] == t[..start] + text + t[end..at]
  {
    var u, at' := Splice(t, start, end, text), at + |text| - (end - start);
    assert t[end..] == t[end..at] + t[at..];
    assert u == (t[..start] + text + t[end..at]) + t[at..];
  }

  /** Left of the matches from index k on the text is as it was. */
  lemma LeftAsWas(s: string, needle: string, text: string, ps: seq<nat>, k: nat, off: nat)
    requires needle != "" && ps == Matches(s, needle, 0) && k <= |ps| && off <= |s| && (k < |ps| ==> off <= ps[k])
    ensures off <= |SplicesFrom(s, ps, |needle|, text, k)| && SplicesFrom(s, ps, |needle|, text, k)[..off] == s[..off]
  {
    if k < |ps| {
      SplicesText(s, needle, text, ps, k);
      assert s[..ps[k]][..off] == s[..off];
    }
  }

  /** The offset lies within the text after each replacement. */
  lemma {:induction false} MovedInside(s: string, needle: string, text: string, ps: seq<nat>, k: nat, off: nat)
    requires needle != "" && ps == Matches(s, needle, 0) && k <= |ps| && off <= |s| && Between(ps, |needle|, off)
    ensures 0 <= MovedTo(ps, |needle|, |text| - |needle|, k, off) <= |SplicesFrom(s, ps, |needle|, text, k)|
    decreases |ps| - k
  {
    if k < |ps| && ps[k] < off {
      MovedInside(s, needle, text, ps, k + 1, off);
      MovedSpec(s, needle, text, ps, k + 1, off);
      MovedSpec(s, needle, text, ps, k, off);
      MatchesApart(s, needle, k);
      SplicesUnfold(s, needle, text, k);
      if k + 1 < |ps| {
        MatchesApart(s, needle, k + 1);
      }
      SpliceBefore(SplicesFrom(s, ps, |needle|, text, k + 1), ps[k], ps[k] + |needle|, text,
                   MovedTo(ps, |needle|, |text| - |needle|, k + 1, off));
    } else {
      LeftAsWas(s, needle, text, ps, k, off);
      MovedSpec(s, needle, text, ps, k, off);
    }
  }

  /** The replacement at index k lies left of the offset as moved so far. */
  lemma StepEnd(s: string, needle: string, text: string, ps: seq<nat>, k: nat, off: nat, at: int)
    requires needle != "" && ps == Matches(s, needle, 0) && k < |ps| && ps[k] < off <= |s| && Between(ps, |needle|, off)
    requires at == MovedTo(ps, |needle|, |text| - |needle|, k + 1, off)
    ensures ps[k] + |needle| <= at && ps[k] + |needle| <= off
    ensures MovedTo(ps, |needle|, |text| - |needle|, k, off) == at + |text| - |needle|
  {
    MatchesApart(s, needle, k);
    MovedSpec(s, needle, text, ps, k + 1, off);
    if k + 1 < |ps| {
      MatchesApart(s, needle, k + 1);
    }
  }

  /** Up to the end of the match at index k the text is as it was. */
  lemma StepFront(s: string, needle: string, text: string, ps: seq<nat>, k: nat, t: string)
    requires needle != "" && ps == Matches(s, needle, 0) && k < |ps| && t == SplicesFrom(s, ps, |needle|, text, k + 1)
    ensures var end := ps[k] + |needle|;
            end <= |s| && end <= |t| && t[..end] == s[..end] == s[..ps[k]] + needle && t[..ps[k]] == s[..ps[k]]
  {
    MatchesApart(s, needle, k);
    LeftAsWas(s, needle, text, ps, k + 1, ps[k] + |needle|);
    assert t[..ps[k]] == t[..ps[k] + |needle|][..ps[k]];
  }

  /** One replacement left of an offset, seen as text before the moved offset and after it. */
  lemma StepText(s: string, needle: string, text: string, ps: seq<nat>, k: nat, off: nat, at: int, at': int,
                 t: string, u: string)
    requires needle != "" && ps == Matches(s, needle, 0) && k < |ps| && ps[k] < off <= |s| && Between(ps, |needle|, off)
    requires at == MovedTo(ps, |needle|, |text| - |needle|, k + 1, off)
    requires at' == MovedTo(ps, |needle|, |text| - |needle|, k, off)
    requires t == SplicesFrom(s, ps, |needle|, text, k + 1) && u == SplicesFrom(s, ps, |needle|, text, k)
    ensures var end := ps[k] + |needle|;
            && end <= at <= |t| && 0 <= at' == at + |text| - |needle| <= |u|
            && u[..at'] == s[..ps[k]] + text + t[end..at] && u[at'..] == t[at..]
  {
    StepEnd(s, needle, text, ps, k, off, at);
    StepFront(s, needle, text, ps, k, t);
    assert at <= |t| by { MovedInside(s, needle, text, ps, k + 1, off); }
    assert u == Splice(t, ps[k], ps[k] + |needle|, text) by { SplicesUnfold(s, needle, text, k); }
    SpliceBefore(t, ps[k], ps[k] + |needle|, text, at);
  }

  lemma LastOf(u: string, at: int, front: string, mid: string, back: string)
    requires 0 <= at <= |u| && u[..at] == front + mid + back && at > 0
    ensures u[at - 1] == if back != "" then back[|back| - 1] else if mid != "" then mid[|mid| - 1]
                         else front[|front| - 1]
  {
    assert u[at - 1] == (front + mid + back)[at - 1];
  }

  lemma LastBetween(t: string, end: int, at: int)
    requires 0 <= end < at <= |t|
    ensures t[end..at][|t[end..at]| - 1] == t[at - 1]
  {
  }

  /** Whether a line starts at the moved offset after one more replacement left of it. */
  lemma StepStarts(s: string, needle: string, text: string, ps: seq<nat>, k: nat, off: nat, at: int, at': int)
    requires needle != "" && ps == Matches(s, needle, 0) && k < |ps| && ps[k] < off <= |s| && Between(ps, |needle|, off)
    requires at == MovedTo(ps, |needle|, |text| - |needle|, k + 1, off)
    requires at' == MovedTo(ps, |needle|, |text| - |needle|, k, off)
    ensures StartsLine(SplicesFrom(s, ps, |needle|, text, k), at') <==>
            if ps[k] + |needle| < at then StartsLine(SplicesFrom(s, ps, |needle|, text, k + 1), at)
            else if text != "" then text[|text| - 1] == '\n' else StartsLine(s, ps[k])
  {
    var t, u, end := SplicesFrom(s, ps, |needle|, text, k + 1), SplicesFrom(s, ps, |needle|, text, k), ps[k] + |needle|;
    StepText(s, needle, text, ps, k, off, at, at', t, u);
    assert |s[..ps[k]] + text + t[end..at]| == at';
    if at' > 0 {
      LastOf(u, at', s[..ps[k]], text, t[end..at]);
    }
    if end < at {
      LastBetween(t, end, at);
    }
  }

  /** The moved offset of a line start starts a line exactly if nothing joins it to the text before. */
  lemma {:induction false} StartsExactly(s: string, needle: string, text: string, ps: seq<nat>, k: nat, off: nat)
    requires needle != "" && ps == Matches(s, needle, 0) && k <= |ps| && off <= |s| && Between(ps, |needle|, off)
    requires StartsLine(s, off)
    ensures StartsLine(SplicesFrom(s, ps, |needle|, text, k), MovedTo(ps, |needle|, |text| - |needle|, k, off))
       <==> StillStarts(s, ps, |needle|, text, k, off)
    decreases |ps| - k
  {
    var at' := MovedTo(ps, |needle|, |text| - |needle|, k, off);
    MovedSpec(s, needle, text, ps, k, off);
    if k < |ps| && ps[k] < off {
      var at := MovedTo(ps, |needle|, |text| - |needle|, k + 1, off);
      StartsExactly(s, needle, text, ps, k + 1, off);
      StepStarts(s, needle, text, ps, k, off, at, at');
      MovedSpec(s, needle, text, ps, k + 1, off);
      RunSpec(s, needle, ps, k + 1, off);
      MatchesApart(s, needle, k);
      if k + 1 < |ps| {
        MatchesApart(s, needle, k + 1);
      }
    } else {
      LeftAsWas(s, needle, text, ps, k, off);
      assert off > 0 ==> SplicesFrom(s, ps, |needle|, text, k)[..off][off - 1] == s[..off][off - 1];
    }
  }

  lemma EndOfMatchStarts(s: string, needle: string, ps: seq<nat>, k: nat, off: nat)
    requires needle != "" && ps == Matches(s, needle, 0) && k < |ps| && off <= |s| && StartsLine(s, off)
    requires ps[k] + |needle| == RunStart(ps, |needle|, k + 1, off)
    ensures StartsLine(s, ps[k] + |needle|)
  {
    RunSpec(s, needle, ps, k + 1, off);
    MatchesApart(s, needle, k);
    MatchEnd(s, needle, ps[k]);
  }

  /** Once joined, always joined: what starts a line in the end started one after every step. */
  lemma StillStartsBefore(s: string, needle: string, text: string, ps: seq<nat>, k: nat, off: nat)
    requires needle != "" && ps == Matches(s, needle, 0) && k < |ps| && off <= |s| && StartsLine(s, off)
    requires StillStarts(s, ps, |needle|, text, k, off)
    ensures StillStarts(s, ps, |needle|, text, k + 1, off)
  {
    if ps[k] + |needle| == RunStart(ps, |needle|, k + 1, off) {
      EndOfMatchStarts(s, needle, ps, k, off);
      assert ps[k] < off by {
        RunSpec(s, needle, ps, k + 1, off);
      }
    }
  }

  // ----- lines

  function Newlines(t: string): nat
  {
    if t == "" then 0 else Newlines(t[..|t| - 1]) + if t[|t| - 1] == '\n' then 1 else 0
  }

  lemma {:induction false} NewlinesAppend(t: string, u: string)
    ensures Newlines(t + u) == Newlines(t) + Newlines(u)
  {
    if u == "" {
      assert t + u == t;
    } else {
      assert (t + u)[..|t + u| - 1] == t + u[..|u| - 1];
      NewlinesAppend(t, u[..|u| - 1]);
    }
  }

  lemma NewlinesAround(s: string, front: string, needle: string, text: string, between: string, u: string)
    requires s == front + needle + between && u == front + text + between
    ensures Newlines(u) == Newlines(s) + Newlines(text) - Newlines(needle)
  {
    NewlinesAppend(front + needle, between);
    NewlinesAppend(front, needle);
    NewlinesAppend(front + text, between);
    NewlinesAppend(front, text);
  }

  lemma NewlinesStep(s: string, needle: string, text: string, ps: seq<nat>, k: nat, off: nat, at: int, at': int,
                     t: string, u: string)
    requires needle != "" && ps == Matches(s, needle, 0) && k < |ps| && ps[k] < off <= |s| && Between(ps, |needle|, off)
    requires at == MovedTo(ps, |needle|, |text| - |needle|, k + 1, off)
    requires at' == MovedTo(ps, |needle|, |text| - |needle|, k, off)
    requires t == SplicesFrom(s, ps, |needle|, text, k + 1) && u == SplicesFrom(s, ps, |needle|, text, k)
    ensures 0 <= at <= |t| && 0 <= at' <= |u|
    ensures Newlines(u[..at']) == Newlines(t[..at]) + Newlines(text) - Newlines(needle)
  {
    StepText(s, needle, text, ps, k, off, at, at', t, u);
    StepFront(s, needle, text, ps, k, t);
    var end := ps[k] + |needle|;
    assert t[..at] == t[..end] + t[end..at];
    NewlinesAround(t[..at], s[..ps[k]], needle, text, t[end..at], u[..at']);
  }

  /** Before a moved offset there are as many newlines more as each match before it brings. */
  lemma {:induction false} NewlinesMoved(s: string, needle: string, text: string, ps: seq<nat>, k: nat, off: nat)
    requires needle != "" && ps == Matches(s, needle, 0) && k <= |ps| && off <= |s| && Between(ps, |needle|, off)
    ensures var t, at := SplicesFrom(s, ps, |needle|, text, k), MovedTo(ps, |needle|, |text| - |needle|, k, off);
            && 0 <= at <= |t|
            && Newlines(t[..at]) - Newlines(s[..off])
               == MovedTo(ps, |needle|, Newlines(text) - Newlines(needle), k, off) - off
    decreases |ps| - k
  {
    var t, at := SplicesFrom(s, ps, |needle|, text, k), MovedTo(ps, |needle|, |text| - |needle|, k, off);
    if k < |ps| && ps[k] < off {
      NewlinesMoved(s, needle, text, ps, k + 1, off);
      NewlinesStep(s, needle, text, ps, k, off, MovedTo(ps, |needle|, |text| - |needle|, k + 1, off), at,
                   SplicesFrom(s, ps, |needle|, text, k + 1), t);
      assert ps[k] + |needle| <= off by {
        StepEnd(s, needle, text, ps, k, off, MovedTo(ps, |needle|, |text| - |needle|, k + 1, off));
      }
    } else {
      assert at == off by { MovedSpec(s, needle, text, ps, k, off); }
      LeftAsWas(s, needle, text, ps, k, off);
      NoneMoved(s, needle, ps, Newlines(text) - Newlines(needle), k, off);
    }
  }

  /** Matches at or after the offset do not move it. */
  lemma {:induction false} NoneMoved(s: string, needle: string, ps: seq<nat>, shift: int, k: nat, off: nat)
    requires needle != "" && ps == Matches(s, needle, 0) && k <= |ps| && (k < |ps| ==> off <= ps[k])
    ensures MovedTo(ps, |needle|, shift, k, off) == off
    decreases |ps| - k
  {
    if k < |ps| {
      MatchesApart(s, needle, k);
      NoneMoved(s, needle, ps, shift, k + 1, off);
    }
  }
}
