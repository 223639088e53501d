/** What the answer to a replacement in one file tells: the lines where the replacements start, and how
    far the lines below them moved (`text_editing.rs`). */
module ReplaceReport {
  import opened Wrappers
  import opened Seqs
  import opened LineText
  import opened EditableText
  import opened TextReplace
  import opened EditableContent
  import opened MovedText
  import opened ShiftNote

  /** The number of the line that holds an offset. */
  function LineOf(t: string, off: nat): nat
    requires off <= |t|
  {
    Newlines(t[..off]) + 1
  }

  function Min(a: nat, b: nat): nat { if a < b then a else b }
  function Max(a: nat, b: nat): nat { if a > b then a else b }

  // ----- counting lines

  lemma {:induction false} PlainHasNone(t: string)
    requires '\n' !in t
    ensures Newlines(t) == 0
  {
    if t != "" {
      PlainHasNone(t[..|t| - 1]);
    }
  }

  /** A text has a line for each newline, and one for what follows the last newline. */
  lemma {:induction false} LineCount(t: string)
    ensures |RawLines(t)| == Newlines(t) + if t == "" || EndsWithNewline(t) then 0 else 1
    decreases |t|
  {
    if t != "" {
      var piece := SplitInclusive(t)[0];
      var rest := t[|piece|..];
      SplitHead(t);
      LineCount(rest);
      LineCountCons(piece, rest);
    }
  }

  lemma LineCountCons(piece: string, rest: string)
    requires piece != "" && '\n' !in piece[..|piece| - 1] && (piece[|piece| - 1] != '\n' ==> rest == "")
    ensures |RawLines(piece + rest)| == 1 + |RawLines(rest)|
    ensures Newlines(piece + rest) == Newlines(rest) + if EndsWithNewline(piece) then 1 else 0
    ensures EndsWithNewline(piece + rest) == EndsWithNewline(if rest == "" then piece else rest)
    ensures rest != "" ==> EndsWithNewline(piece)
  {
    RawLinesCons(piece, rest);
    NewlinesAppend(piece, rest);
    PlainHasNone(piece[..|piece| - 1]);
    if rest == "" {
      CatEmpty(piece);
    }
  }

  lemma NewlinesUpTo(t: string, p: nat, q: nat)
    requires p <= q <= |t|
    ensures Newlines(t[..q]) == Newlines(t[..p]) + Newlines(t[p..q])
  {
    assert t[..q] == t[..p] + t[p..q];
    NewlinesAppend(t[..p], t[p..q]);
  }

  /** A newline between two offsets is counted. */
  lemma NewlineBetween(t: string, p: nat, i: nat, q: nat)
    requires p <= i < q <= |t| && t[i] == '\n'
    ensures Newlines(t[..p]) < Newlines(t[..q])
  {
    NewlinesUpTo(t, p, i);
    NewlinesUpTo(t, i, i + 1);
    NewlinesUpTo(t, i + 1, q);
    assert t[i..i + 1] == "\n" && Newlines("\n") == Newlines("\n"[..0]) + 1;
  }

  // ----- where the replacements start

  /** The k-th match and those after it, up to the i-th, move the start of the i-th. */
  lemma {:induction false} StartMoved(s: string, needle: string, ps: seq<nat>, shift: int, i: nat, k: nat)
    requires needle != "" && ps == Matches(s, needle, 0) && k <= i < |ps|
    ensures Between(ps, |needle|, ps[i])
    ensures MovedTo(ps, |needle|, shift, k, ps[i]) == ps[i] + (i - k) * shift
    decreases i - k
  {
    MatchesInOrder(s, needle, ps, i);
    if k == i {
      NoneMoved(s, needle, ps, shift, i, ps[i]);
    } else {
      StartMoved(s, needle, ps, shift, i, k + 1);
      OneMore(i - k - 1, shift);
    }
  }

  lemma MatchesInOrder(s: string, needle: string, ps: seq<nat>, i: nat)
    requires needle != "" && ps == Matches(s, needle, 0) && i < |ps|
    ensures forall j | 0 <= j < i :: ps[j] + |needle| <= ps[i]
    ensures Between(ps, |needle|, ps[i])
  {
    forall j | 0 <= j < |ps|
      ensures j < i ==> ps[j] + |needle| <= ps[i]
      ensures ps[j] + |needle| <= ps[i] || ps[i] <= ps[j]
    {
      if j < i {
        Apart(s, needle, ps, j, i);
      } else if i < j {
        Apart(s, needle, ps, i, j);
      }
    }
  }

  lemma {:induction false} Apart(s: string, needle: string, ps: seq<nat>, j: nat, i: nat)
    requires needle != "" && ps == Matches(s, needle, 0) && j < i < |ps|
    ensures ps[j] + |needle| <= ps[i]
    decreases i
  {
    MatchesApart(s, needle, i - 1);
    if j < i - 1 {
      Apart(s, needle, ps, j, i - 1);
    }
  }

  lemma OneMore(n: nat, d: int)
    ensures (n + 1) * d == n * d + d
  {
  }

  /** The new text stands where the i-th match moved to. */
  lemma {:induction false} TextStands(s: string, needle: string, text: string, ps: seq<nat>, i: nat, k: nat, at: int)
    requires needle != "" && ps == Matches(s, needle, 0) && k <= i < |ps|
    requires at == MovedTo(ps, |needle|, |text| - |needle|, k, ps[i])
    ensures 0 <= at <= |SplicesFrom(s, ps, |needle|, text, k)| && text <= SplicesFrom(s, ps, |needle|, text, k)[at..]
    decreases i - k
  {
    var u := SplicesFrom(s, ps, |needle|, text, k);
    MatchesInOrder(s, needle, ps, i);
    if k == i {
      StartMoved(s, needle, ps, |text| - |needle|, i, i);
      LastStands(s, needle, text, ps, i, u);
    } else {
      var next := MovedTo(ps, |needle|, |text| - |needle|, k + 1, ps[i]);
      TextStands(s, needle, text, ps, i, k + 1, next);
      MatchesApart(s, needle, k);
      MatchesApart(s, needle, i);
      StepText(s, needle, text, ps, k, ps[i], next, at, SplicesFrom(s, ps, |needle|, text, k + 1), u);
    }
  }

  lemma LastStands(s: string, needle: string, text: string, ps: seq<nat>, i: nat, u: string)
    requires needle != "" && ps == Matches(s, needle, 0) && i < |ps| && u == SplicesFrom(s, ps, |needle|, text, i)
    ensures ps[i] <= |u| && text <= u[ps[i]..]
  {
    SplicesUnfold(s, needle, text, i);
    var t := SplicesFrom(s, ps, |needle|, text, i + 1);
    assert u == t[..ps[i]] + (text + t[ps[i] + |needle|..]);
  }

  /** Where the i-th replacement starts in the new text. */
  ghost function StartOf(ps: seq<nat>, shift: int, i: nat): int
    requires i < |ps|
  {
    ps[i] + shift * i
  }

  lemma StartIsMoved(s: string, needle: string, ps: seq<nat>, shift: int, i: nat)
    requires needle != "" && ps == Matches(s, needle, 0) && i < |ps|
    ensures MovedTo(ps, |needle|, shift, 0, ps[i]) == StartOf(ps, shift, i)
  {
    StartMoved(s, needle, ps, shift, i, 0);
  }

  /** The new text stands there, as many lines further down as the replacements before it bring. */
  lemma ReplacementStarts(s: string, needle: string, text: string, ps: seq<nat>, i: nat)
    requires needle != "" && ps == Matches(s, needle, 0) && i < |ps|
    ensures ps[i] <= |s|
    ensures var t, at := Substituted(s, needle, text, 0), StartOf(ps, |text| - |needle|, i);
            && 0 <= at <= |t| && text <= t[at..]
            && LineOf(t, at) == LineOf(s, ps[i]) + i * (Newlines(text) - Newlines(needle))
  {
    AllReplaced(s, needle, text);
    MatchesApart(s, needle, i);
    StartIsMoved(s, needle, ps, |text| - |needle|, i);
    StandsAt(s, needle, text, ps, i, SplicesFrom(s, ps, |needle|, text, 0), StartOf(ps, |text| - |needle|, i),
             Newlines(text) - Newlines(needle));
  }

  lemma StandsAt(s: string, needle: string, text: string, ps: seq<nat>, i: nat, t: string, at: int, d: int)
    requires needle != "" && ps == Matches(s, needle, 0) && i < |ps| && ps[i] <= |s|
    requires t == SplicesFrom(s, ps, |needle|, text, 0) && at == MovedTo(ps, |needle|, |text| - |needle|, 0, ps[i])
    requires d == Newlines(text) - Newlines(needle)
    ensures 0 <= at <= |t| && text <= t[at..]
    ensures Newlines(t[..at]) == Newlines(s[..ps[i]]) + i * d
  {
    MatchesInOrder(s, needle, ps, i);
    TextStands(s, needle, text, ps, i, 0, at);
    NewlinesMoved(s, needle, text, ps, 0, ps[i]);
    StartIsMoved(s, needle, ps, d, i);
  }

  /** A line number in the new text, as the report has it: read off the text with its final newline
      restored, and never past its last line. */
  lemma ClampedLine(t: string, had: bool, at: nat, edited: string)
    requires at <= |t| && edited == TrailingRule(had, t)
    ensures Min(LineOf(edited, Min(at, |edited|)), Max(1, |RawLines(edited)|))
         == Min(LineOf(t, at), Max(1, |RawLines(edited)|))
  {
    if |edited| < at {
      assert edited[..|edited|] == edited && t[..at] == t && t[..|t| - 1] == edited;
      LineCount(edited);
    } else if |t| <= |edited| {
      assert t <= edited;
      assert edited[..at] == t[..at];
    } else {
      assert edited[..at] == t[..at];
    }
  }

  /** The reported line is the one the i-th replacement starts on or, if the file has no such line, its last
      one; the only line there is if it is empty. */
  ghost predicate SiteIsRight(site: nat, s: string, needle: string, text: string, ps: seq<nat>, i: nat, edited: string)
    requires needle != "" && i < |ps|
  {
    var t, at, count := Substituted(s, needle, text, 0), StartOf(ps, |text| - |needle|, i), |RawLines(edited)|;
    && 0 <= at <= |t|
    && if LineOf(t, at) <= count then site == LineOf(t, at) else if count == 0 then site == 1 else site == count
  }

  lemma SiteAt(s: string, needle: string, text: string, ps: seq<nat>, i: nat, edited: string, had: bool, at: int)
    requires needle != "" && ps == Matches(s, needle, 0) && i < |ps|
    requires edited == TrailingRule(had, Substituted(s, needle, text, 0)) && at == StartOf(ps, |text| - |needle|, i)
    ensures at >= 0
    ensures SiteIsRight(Min(LineOf(edited, Min(at, |edited|)), Max(1, |RawLines(edited)|)), s, needle, text, ps, i,
                        edited)
  {
    ReplacementStarts(s, needle, text, ps, i);
    ClampedLine(Substituted(s, needle, text, 0), had, at, edited);
  }

  /** The lines reported for the replacements. */
  method ReplacementSites(edited: string, needle: string, text: string, positions: seq<nat>, ghost s: string,
                          ghost had: bool)
    returns (sites: seq<nat>)
    requires needle != "" && positions == Matches(s, needle, 0)
    requires edited == TrailingRule(had, Substituted(s, needle, text, 0))
    ensures |sites| == |positions|
    ensures forall i | 0 <= i < |positions| :: SiteIsRight(sites[i], s, needle, text, positions, i, edited)
  {
    var delta := |text| - |needle|;
    var count := |RawLines(edited)|;
    sites := [];
    for i := 0 to |positions|
      invariant |sites| == i
      invariant forall k | 0 <= k < i :: SiteIsRight(sites[k], s, needle, text, positions, k, edited)
    {
      var moved := positions[i] + delta * i;
      SiteAt(s, needle, text, positions, i, edited, had, moved);
      var start := if moved < 0 then 0 else moved;
      sites := sites + [Min(LineOf(edited, Min(start, |edited|)), Max(1, count))];
    }
  }

  // ----- the note on the lines below

  function TrimNewlines(t: string): (r: string)
    ensures r <= t && (forall i | |r| <= i < |t| :: t[i] == '\n') && (r != "" ==> r[|r| - 1] != '\n')
  {
    if t != "" && t[|t| - 1] == '\n' then TrimNewlines(t[..|t| - 1]) else t
  }

  /** The line a match ends on, which a final newline does not lead past. */
  function RegionOf(s: string, needle: string, text: string, p: nat): Region
    requires p + |needle| <= |s|
  {
    Region(LineOf(s, p + |TrimNewlines(needle)|), Newlines(text) - Newlines(needle))
  }

  /** At a line start that no match runs across, the region of a match is above exactly if the match is. */
  lemma RegionAbove(s: string, needle: string, text: string, p: nat, off: nat)
    requires needle != "" && OccursAt(s, needle, p) && off <= |s| && StartsLine(s, off)
    requires p + |needle| <= off || off <= p
    ensures RegionOf(s, needle, text, p).end < LineOf(s, off) <==> p + |needle| <= off
  {
    var trimmed := TrimNewlines(needle);
    var end := p + |trimmed|;
    assert s[p..p + |needle|] == needle;
    if off <= p {
      NewlinesUpTo(s, off, end);
    } else if |trimmed| < |needle| {
      assert s[end] == needle[|trimmed|];
      NewlineBetween(s, end, end, off);
    } else {
      assert s[off - 1] == '\n';
      MatchEnd(s, needle, p);
      NewlineBetween(s, end, off - 1, off);
    }
  }

  ghost predicate RegionsFor(regions: seq<Region>, s: string, needle: string, text: string, ps: seq<nat>)
  {
    |regions| == |ps| && forall i | 0 <= i < |ps| ::
      ps[i] + |needle| <= |s| && regions[i] == RegionOf(s, needle, text, ps[i])
  }

  /** Above a line start the regions sum up to what the matches above it bring. */
  lemma {:induction false} RegionsAbove(s: string, needle: string, text: string, ps: seq<nat>, regions: seq<Region>,
                                        k: nat, off: nat, n: nat, d: int)
    requires needle != "" && ps == Matches(s, needle, 0) && k <= |ps| && RegionsFor(regions, s, needle, text, ps)
    requires off <= |s| && StartsLine(s, off) && Between(ps, |needle|, off)
    requires n == LineOf(s, off) && d == Newlines(text) - Newlines(needle)
    ensures SumBelow(regions[..k], n) + MovedTo(ps, |needle|, d, k, off) == MovedTo(ps, |needle|, d, 0, off)
  {
    if k > 0 {
      RegionsAbove(s, needle, text, ps, regions, k - 1, off, n, d);
      MatchesApart(s, needle, k - 1);
      RegionAbove(s, needle, text, ps[k - 1], off);
      assert regions[..k] == regions[..k - 1] + [regions[k - 1]];
      SumAppend(regions[..k - 1], regions[k - 1], n);
    }
  }

  lemma AllRegionsAbove(s: string, needle: string, text: string, ps: seq<nat>, regions: seq<Region>, off: nat, n: nat,
                        d: int)
    requires needle != "" && ps == Matches(s, needle, 0) && RegionsFor(regions, s, needle, text, ps)
    requires off <= |s| && StartsLine(s, off) && Between(ps, |needle|, off)
    requires n == LineOf(s, off) && d == Newlines(text) - Newlines(needle)
    ensures SumBelow(regions, n) == MovedTo(ps, |needle|, d, 0, off) - off
  {
    RegionsAbove(s, needle, text, ps, regions, |ps|, off, n, d);
    assert regions[..|ps|] == regions;
  }

  /** The note is right at a line start: it leads to the line of the new text that the offset moved to. */
  ghost predicate LeadsThere(note: Option<seq<Part>>, s: string, needle: string, text: string, ps: seq<nat>, off: nat)
    requires needle != "" && off <= |s|
  {
    var t, at := Substituted(s, needle, text, 0), MovedTo(ps, |needle|, |text| - |needle|, 0, off);
    0 <= at <= |t| && LineOf(t, at) == LineOf(s, off) + ReadNote(note, LineOf(s, off))
  }

  ghost predicate RightEverywhere(note: Option<seq<Part>>, s: string, needle: string, text: string, ps: seq<nat>)
    requires needle != ""
  {
    forall off: nat | off < |s| && StartsLine(s, off) && Between(ps, |needle|, off) ::
      LeadsThere(note, s, needle, text, ps, off)
  }

  lemma LineInside(s: string, off: nat)
    requires off < |s|
    ensures 1 <= LineOf(s, off) <= |RawLines(s)|
  {
    LineCount(s);
    NewlinesUpTo(s, off, |s|);
    assert s[..|s|] == s;
    if EndsWithNewline(s) {
      NewlineBetween(s, off, |s| - 1, |s|);
    }
  }

  lemma NoteLeads(note: Option<seq<Part>>, s: string, needle: string, text: string, ps: seq<nat>, off: nat)
    requires needle != "" && ps == Matches(s, needle, 0) && off < |s| && Between(ps, |needle|, off)
    requires ReadNote(note, LineOf(s, off)) == MovedTo(ps, |needle|, Newlines(text) - Newlines(needle), 0, off) - off
    ensures LeadsThere(note, s, needle, text, ps, off)
  {
    NewlinesMoved(s, needle, text, ps, 0, off);
    AllReplaced(s, needle, text);
  }

  /** The note of a replacement of all matches: right for every line that no match runs into. */
  method ReplaceAllNote(s: string, needle: string, text: string, positions: seq<nat>) returns (note: Option<seq<Part>>)
    requires needle != "" && positions == Matches(s, needle, 0)
    ensures RightEverywhere(note, s, needle, text, positions)
    ensures note.Some? ==> note.value != [] && IsTerse(note.value, |RawLines(s)|)
  {
    var regions: seq<Region> := [];
    for i := 0 to |positions|
      invariant RegionsFor(regions, s, needle, text, positions[..i])
    {
      MatchesApart(s, needle, i);
      regions := regions + [RegionOf(s, needle, text, positions[i])];
    }
    assert positions[..|positions|] == positions;
    note := MakeShiftNote(|RawLines(s)|, regions);
    forall off: nat | off < |s| && StartsLine(s, off) && Between(positions, |needle|, off)
      ensures LeadsThere(note, s, needle, text, positions, off)
    {
      LineInside(s, off);
      AllRegionsAbove(s, needle, text, positions, regions, off, LineOf(s, off),
                      Newlines(text) - Newlines(needle));
      NoteLeads(note, s, needle, text, positions, off);
    }
  }

  // ----- the note of a single replacement

  /** What follows the only match decides how the new text ends. */
  lemma SingleEnd(s: string, p: nat, e: nat, text: string, t: string)
    requires p <= e < |s| && t == s[..p] + text + s[e..]
    ensures t != ""
    ensures EndsWithNewline(t) <==> EndsWithNewline(s)
    ensures TrailingRule(EndsWithNewline(s), t) == t
  {
    assert t[|t| - 1] == s[|s| - 1];
  }

  lemma SingleNewlines(s: string, needle: string, text: string, p: nat, t: string)
    requires OccursAt(s, needle, p) && t == s[..p] + text + s[p + |needle|..]
    ensures Newlines(t) - Newlines(s) == Newlines(text) - Newlines(needle)
  {
    assert s == s[..p] + needle + s[p + |needle|..] by {
      assert s[p..p + |needle|] == needle;
    }
    NewlinesAround(s, s[..p], needle, text, s[p + |needle|..], t);
  }

  /** The last line a match takes up, counted from the line it starts on, is above the lines behind it. */
  lemma LastLineAbove(s: string, needle: string, p: nat, off: nat)
    requires needle != "" && OccursAt(s, needle, p) && p + |needle| <= off <= |s| && StartsLine(s, off)
    ensures LineOf(s, p) - 1 + |RawLines(needle)| < LineOf(s, off)
  {
    var e := p + |needle|;
    LineCount(needle);
    assert s[p..e] == needle;
    NewlinesUpTo(s, p, e);
    NewlinesUpTo(s, e, off);
    if !EndsWithNewline(needle) {
      assert s[off - 1] == '\n';
      MatchEnd(s, needle, p);
      NewlineBetween(s, e, off - 1, off);
    }
  }

  lemma LastLineBelow(s: string, needle: string, p: nat, off: nat)
    requires needle != "" && off <= p <= |s|
    ensures LineOf(s, p) - 1 + |RawLines(needle)| >= LineOf(s, off)
  {
    RawWellFormed(needle);
    NewlinesUpTo(s, off, p);
  }

  lemma OnlyMatch(s: string, needle: string, text: string, p: nat)
    requires needle != "" && Matches(s, needle, 0) == [p]
    ensures OccursAt(s, needle, p) && Substituted(s, needle, text, 0) == s[..p] + text + s[p + |needle|..]
  {
    MatchesApart(s, needle, 0);
    AllReplaced(s, needle, text);
    SplicesUnfold(s, needle, text, 0);
  }

  /** The note of a single replacement: one region, from the line the match starts on over as many lines
      as the old text has, that changes the number of lines by that of the whole file. It is right for
      every line that the match does not run into. */
  method UniqueNote(s: string, needle: string, text: string, p: nat, edited: string) returns (note: Option<seq<Part>>)
    requires needle != "" && Matches(s, needle, 0) == [p]
    requires edited == TrailingRule(EndsWithNewline(s), Substituted(s, needle, text, 0))
    ensures RightEverywhere(note, s, needle, text, [p])
    ensures note.Some? ==> note.value != [] && IsTerse(note.value, |RawLines(s)|)
  {
    OnlyMatch(s, needle, text, p);
    var region := Region(LineOf(s, p) - 1 + |RawLines(needle)|, |RawLines(edited)| - |RawLines(s)|);
    note := MakeShiftNote(|RawLines(s)|, [region]);
    forall off: nat | off < |s| && StartsLine(s, off) && Between([p], |needle|, off)
      ensures LeadsThere(note, s, needle, text, [p], off)
    {
      assert [p][0] + |needle| <= off || off <= [p][0];
      UniqueRead(note, s, needle, text, p, edited, region, off, Newlines(text) - Newlines(needle));
      UniqueLeads(note, s, needle, text, [p], p, off, Newlines(text) - Newlines(needle));
    }
  }

  lemma UniqueRead(note: Option<seq<Part>>, s: string, needle: string, text: string, p: nat, edited: string,
                   region: Region, off: nat, d: int)
    requires needle != "" && OccursAt(s, needle, p) && d == Newlines(text) - Newlines(needle)
    requires edited == TrailingRule(EndsWithNewline(s), s[..p] + text + s[p + |needle|..])
    requires region == Region(LineOf(s, p) - 1 + |RawLines(needle)|, |RawLines(edited)| - |RawLines(s)|)
    requires forall n | 1 <= n <= |RawLines(s)| :: ReadNote(note, n) == SumBelow([region], n)
    requires off < |s| && StartsLine(s, off) && (p + |needle| <= off || off <= p)
    ensures ReadNote(note, LineOf(s, off)) == if p + |needle| <= off then d else 0
  {
    LineInside(s, off);
    SumAppend([], region, LineOf(s, off));
    assert [] + [region] == [region];
    OneRegion(s, needle, text, p, edited, off);
  }

  lemma UniqueLeads(note: Option<seq<Part>>, s: string, needle: string, text: string, ps: seq<nat>, p: nat, off: nat,
                    d: int)
    requires needle != "" && ps == Matches(s, needle, 0) && ps == [p] && d == Newlines(text) - Newlines(needle)
    requires off < |s| && (p + |needle| <= off || off <= p)
    requires ReadNote(note, LineOf(s, off)) == if p + |needle| <= off then d else 0
    ensures LeadsThere(note, s, needle, text, ps, off)
  {
    MovedByOne(p, |needle|, d, off);
    NoteLeads(note, s, needle, text, ps, off);
  }

  lemma MovedByOne(p: nat, len: nat, d: int, off: nat)
    ensures MovedTo([p], len, d, 0, off) == off + if p + len <= off then d else 0
    ensures Between([p], len, off) <==> p + len <= off || off <= p
  {
    assert MovedTo([p], len, d, 1, off) == off && [p][0] == p;
  }

  lemma OneRegion(s: string, needle: string, text: string, p: nat, edited: string, off: nat)
    requires needle != "" && OccursAt(s, needle, p)
    requires edited == TrailingRule(EndsWithNewline(s), s[..p] + text + s[p + |needle|..])
    requires off < |s| && StartsLine(s, off) && (p + |needle| <= off || off <= p)
    ensures (if LineOf(s, p) - 1 + |RawLines(needle)| < LineOf(s, off) then |RawLines(edited)| - |RawLines(s)| else 0)
         == if p + |needle| <= off then Newlines(text) - Newlines(needle) else 0
  {
    if p + |needle| <= off {
      LastLineAbove(s, needle, p, off);
      SingleGrows(s, needle, text, p, edited);
    } else {
      LastLineBelow(s, needle, p, off);
    }
  }

  lemma SingleGrows(s: string, needle: string, text: string, p: nat, edited: string)
    requires OccursAt(s, needle, p) && p + |needle| < |s|
    requires edited == TrailingRule(EndsWithNewline(s), s[..p] + text + s[p + |needle|..])
    ensures |RawLines(edited)| - |RawLines(s)| == Newlines(text) - Newlines(needle)
  {
    var t := s[..p] + text + s[p + |needle|..];
    SingleEnd(s, p, p + |needle|, text, t);
    SingleNewlines(s, needle, text, p, t);
    LineCount(s);
    LineCount(t);
  }
}
