/** Editing lines with mixed terminators as if they were one LF-normalised text. */
module EditableText {
  import opened LineText

  /** Where line i starts in the normalised text. */
  ghost function Offset(lines: seq<EditableLine>, i: nat): nat
    requires i <= |lines|
  {
    |Normalized(lines[..i])|
  }

  /** The line that holds offset off of the normalised text; the last one for its end. */
  ghost function LineAt(lines: seq<EditableLine>, off: nat): (i: nat)
    requires lines != []
    ensures i < |lines|
  {
    if |lines| == 1 || off < |LineLf(lines[0])| then 0 else 1 + LineAt(lines[1..], off - |LineLf(lines[0])|)
  }

  /** Plain text replacement. */
  ghost function Splice(s: string, start: nat, end: nat, replacement: string): string
    requires start <= end <= |s|
  {
    s[..start] + replacement + s[end..]
  }

  lemma {:induction false} LineAtSpec(lines: seq<EditableLine>, off: nat)
    requires lines != [] && off <= |Normalized(lines)|
    ensures var i := LineAt(lines, off);
            Offset(lines, i) <= off && (off < Offset(lines, i + 1) || i == |lines| - 1)
  {
    if !(|lines| == 1 || off < |LineLf(lines[0])|) {
      var rest := lines[1..];
      var off' := off - |LineLf(lines[0])|;
      LineAtSpec(rest, off');
      var i := LineAt(rest, off');
      OffsetStep(lines, i);
      OffsetStep(lines, i + 1);
    } else {
      assert lines[..1] == [lines[0]] && [lines[0]][1..] == [];
    }
  }

  lemma {:induction false} LineAtMonotone(lines: seq<EditableLine>, off: nat, later: nat)
    requires lines != [] && off <= later
    ensures LineAt(lines, off) <= LineAt(lines, later)
  {
    if |lines| > 1 && |LineLf(lines[0])| <= off {
      LineAtMonotone(lines[1..], off - |LineLf(lines[0])|, later - |LineLf(lines[0])|);
    }
  }

  lemma OffsetStep(lines: seq<EditableLine>, i: nat)
    requires i < |lines|
    ensures Offset(lines, i + 1) == |LineLf(lines[0])| + Offset(lines[1..], i)
  {
    assert lines[..i + 1][1..] == lines[1..][..i];
  }

  lemma {:induction false} LineAtUnique(lines: seq<EditableLine>, off: nat, i: nat)
    requires i < |lines| && Offset(lines, i) <= off
    requires off < Offset(lines, i + 1) || i == |lines| - 1
    ensures LineAt(lines, off) == i
  {
    OffsetStep(lines, i);
    if i > 0 {
      OffsetStep(lines, i - 1);
      LineAtUnique(lines[1..], off - |LineLf(lines[0])|, i - 1);
    }
  }

  lemma OffsetNext(lines: seq<EditableLine>, i: nat)
    requires i < |lines|
    ensures Offset(lines, i + 1) == Offset(lines, i) + |LineLf(lines[i])|
    ensures Normalized(lines[..i + 1]) == Normalized(lines[..i]) + LineLf(lines[i])
  {
    assert lines[..i + 1] == lines[..i] + [lines[i]] && [lines[i]][1..] == [];
    NormalizedAppend(lines[..i], [lines[i]]);
    assert Normalized([lines[i]]) == LineLf(lines[i]) + "";
  }

  lemma {:induction false} OffsetMonotone(lines: seq<EditableLine>, i: nat, j: nat)
    requires i <= j <= |lines|
    ensures Offset(lines, i) <= Offset(lines, j)
    ensures WellFormed(lines) && i < j ==> Offset(lines, i) < Offset(lines, j)
  {
    if i < j {
      OffsetMonotone(lines, i, j - 1);
      OffsetNext(lines, j - 1);
    }
  }

  lemma NormalizedSplit(lines: seq<EditableLine>, i: nat, j: nat)
    requires i <= j <= |lines|
    ensures Normalized(lines) == Normalized(lines[..i]) + Normalized(lines[i..j]) + Normalized(lines[j..])
    ensures Offset(lines, j) == Offset(lines, i) + |Normalized(lines[i..j])|
  {
    assert lines == lines[..j] + lines[j..] && lines[..j] == lines[..i] + lines[i..j];
    NormalizedAppend(lines[..j], lines[j..]);
    NormalizedAppend(lines[..i], lines[i..j]);
  }

  /** The offset of the last character a replacement touches. */
  function LastTouched(length: nat, start: nat, end: nat): nat
    requires start <= end <= length
  {
    if end > start then end - 1
    else if start < length then start
    else if length > 0 then length - 1 else 0
  }

  /** The region of whole lines that a replacement rewrites encloses it. */
  lemma RegionEncloses(lines: seq<EditableLine>, start: nat, end: nat)
    requires WellFormed(lines) && lines != [] && start <= end <= |Normalized(lines)|
    ensures var s := LineAt(lines, start);
            var e := LineAt(lines, LastTouched(|Normalized(lines)|, start, end));
            s <= e && Offset(lines, s) <= start && end <= Offset(lines, e + 1) <= |Normalized(lines)|
  {
    var length := |Normalized(lines)|;
    assert lines[..|lines|] == lines;
    OffsetMonotone(lines, 0, |lines|);
    var last := LastTouched(length, start, end);
    LineAtSpec(lines, start);
    LineAtSpec(lines, last);
    OffsetMonotone(lines, LineAt(lines, last) + 1, |lines|);
    if start <= last {
      LineAtMonotone(lines, start, last);
    }
  }

  /** Puts rewritten lines back. If the last of them lost its terminator it absorbs the next line. */
  function Rejoin(prefix: seq<EditableLine>, changed: seq<EditableLine>, suffix: seq<EditableLine>,
                  ending: Ending): seq<EditableLine>
  {
    if changed != [] && changed[|changed| - 1].ending == Unterminated && suffix != [] then
      var merged := EditableLine(changed[|changed| - 1].text + suffix[0].text, ending);
      prefix + (changed[..|changed| - 1] + [merged]) + suffix[1..]
    else
      prefix + changed + suffix
  }

  /** The new text of the whole lines that a replacement touches. */
  ghost function NewRegion(lines: seq<EditableLine>, start: nat, end: nat, replacement: string): string
    requires WellFormed(lines) && lines != [] && start <= end <= |Normalized(lines)|
  {
    RegionEncloses(lines, start, end);
    var content := Normalized(lines);
    var s, e := LineAt(lines, start), LineAt(lines, LastTouched(|content|, start, end));
    content[Offset(lines, s)..start] + replacement + content[end..Offset(lines, e + 1)]
  }

  /** The new text does not end its last line, so the line after it is joined on. */
  ghost predicate Absorbs(lines: seq<EditableLine>, start: nat, end: nat, replacement: string)
    requires WellFormed(lines) && lines != [] && start <= end <= |Normalized(lines)|
  {
    var region := NewRegion(lines, start, end, replacement);
    region != "" && region[|region| - 1] != '\n'
  }

  /** The lines after replacing start..end of their normalised text. */
  ghost function Replaced(lines: seq<EditableLine>, ending: Ending, start: nat, end: nat,
                          replacement: string): seq<EditableLine>
    requires WellFormed(lines) && start <= end <= |Normalized(lines)|
  {
    if lines == [] then LinesWithEnding(replacement, ending) else
      RegionEncloses(lines, start, end);
      var s, e := LineAt(lines, start), LineAt(lines, LastTouched(|Normalized(lines)|, start, end));
      var changed := LinesWithEnding(NewRegion(lines, start, end, replacement), ending);
      Rejoin(lines[..s], changed, lines[e + 1..], ending)
  }

  lemma CatMerged(p: string, c: string, t: string, u: string, rest: string)
    ensures (p + (c + (t + u + "\n"))) + rest == (p + (c + t)) + ((u + "\n") + rest)
  {
  }

  lemma NormalizedOne(line: EditableLine)
    ensures Normalized([line]) == LineLf(line)
  {
    assert [line][1..] == [];
  }

  /** Absorbing the next line keeps the text, but terminates that line. */
  lemma AbsorbText(prefix: seq<EditableLine>, changed: seq<EditableLine>, suffix: seq<EditableLine>, ending: Ending)
    requires ending != Unterminated && WellFormed(changed) && WellFormed(suffix)
    requires changed != [] && changed[|changed| - 1].ending == Unterminated && suffix != []
    ensures var r := Normalized(Rejoin(prefix, changed, suffix, ending));
            var plain := Normalized(prefix) + Normalized(changed) + Normalized(suffix);
            r == if suffix[0].ending == Unterminated then plain + "\n" else plain
  {
    var l := |changed| - 1;
    var p, c, rest := Normalized(prefix), Normalized(changed[..l]), Normalized(suffix[1..]);
    var t, u := changed[l].text, suffix[0].text;
    assert Normalized(changed) == c + t by { LastOfNormalized(changed); }
    var merged := EditableLine(t + u, ending);
    assert Normalized(Rejoin(prefix, changed, suffix, ending)) == (p + (c + (t + u + "\n"))) + rest by {
      NormalizedMerged(prefix, changed[..l], merged, suffix[1..]);
    }
    CatMerged(p, c, t, u, rest);
    if suffix[0].ending == Unterminated {
      assert suffix[1..] == [];
      assert Normalized(suffix) == u;
      CatFinal(p, c, t, u);
    }
  }

  lemma CatFinal(p: string, c: string, t: string, u: string)
    ensures (p + (c + t)) + ((u + "\n") + "") == ((p + (c + t)) + u) + "\n"
  {
  }

  lemma NormalizedMerged(prefix: seq<EditableLine>, front: seq<EditableLine>, merged: EditableLine,
                         tail: seq<EditableLine>)
    ensures Normalized((prefix + (front + [merged])) + tail)
         == (Normalized(prefix) + (Normalized(front) + LineLf(merged))) + Normalized(tail)
  {
    NormalizedAppend(prefix + (front + [merged]), tail);
    NormalizedAppend(prefix, front + [merged]);
    NormalizedAppend(front, [merged]);
    NormalizedOne(merged);
  }

  /** Reading the rejoined lines: the pieces in order, with a newline more only if an unterminated
      last line was absorbed. */
  lemma RejoinText(prefix: seq<EditableLine>, changed: seq<EditableLine>, suffix: seq<EditableLine>, ending: Ending)
    requires ending != Unterminated && WellFormed(changed) && WellFormed(suffix)
    ensures var r := Normalized(Rejoin(prefix, changed, suffix, ending));
            var plain := Normalized(prefix) + Normalized(changed) + Normalized(suffix);
            r == plain || (r == plain + "\n" && suffix != [] && suffix[|suffix| - 1].ending == Unterminated)
  {
    if changed != [] && changed[|changed| - 1].ending == Unterminated && suffix != [] {
      AbsorbText(prefix, changed, suffix, ending);
    } else {
      NormalizedAppend(prefix, changed);
      NormalizedAppend(prefix + changed, suffix);
    }
  }

  ghost predicate AllTerminated(lines: seq<EditableLine>)
  {
    forall i | 0 <= i < |lines| :: '\n' !in lines[i].text && lines[i].ending != Unterminated
  }

  lemma AppendWellFormed(p: seq<EditableLine>, q: seq<EditableLine>)
    requires WellFormed(q) && (AllTerminated(p) || (WellFormed(p) && q == []))
    ensures WellFormed(p + q)
  {
    if q == [] {
      assert p + q == p;
    }
  }

  lemma RejoinWellFormed(prefix: seq<EditableLine>, changed: seq<EditableLine>, suffix: seq<EditableLine>,
                         ending: Ending)
    requires ending != Unterminated && WellFormed(changed) && WellFormed(suffix) && AllTerminated(prefix)
    ensures WellFormed(Rejoin(prefix, changed, suffix, ending))
  {
    if changed != [] && changed[|changed| - 1].ending == Unterminated && suffix != [] {
      var l := |changed| - 1;
      var merged := EditableLine(changed[l].text + suffix[0].text, ending);
      SuffixWellFormed(suffix, 1);
      assert AllTerminated(changed[..l] + [merged]);
      assert AllTerminated(prefix + (changed[..l] + [merged]));
      AppendWellFormed(prefix + (changed[..l] + [merged]), suffix[1..]);
    } else {
      AppendWellFormed(changed, suffix);
      AppendWellFormed(prefix, changed + suffix);
      assert prefix + (changed + suffix) == prefix + changed + suffix;
    }
  }

  /** A replacement inside a region of the text, seen as pieces before, in and after the region. */
  lemma SpliceRegion(content: string, before: string, region: string, after: string,
                     start: nat, end: nat, replacement: string)
    requires content == before + region + after
    requires |before| <= start <= end <= |before| + |region|
    ensures var text := content[|before|..start] + replacement + content[end..|before| + |region|];
            Splice(content, start, end, replacement) == before + text + after
  {
    assert content[..start] == before + content[|before|..start];
    assert content[end..] == content[end..|before| + |region|] + after;
  }

  /** The plain replacement in pieces: the lines before the region, its new text, the lines after it. */
  lemma PlainParts(lines: seq<EditableLine>, s: nat, e: nat, start: nat, end: nat, replacement: string, text: string)
    requires s <= e < |lines| && Offset(lines, s) <= start <= end <= Offset(lines, e + 1) <= |Normalized(lines)|
    requires text
             == Normalized(lines)[Offset(lines, s)..start] + replacement + Normalized(lines)[end..Offset(lines, e + 1)]
    ensures Splice(Normalized(lines), start, end, replacement)
            == Normalized(lines[..s]) + text + Normalized(lines[e + 1..])
    ensures Normalized(lines[e + 1..]) != "" ==> end < |Normalized(lines)|
  {
    var before, region, after := Normalized(lines[..s]), Normalized(lines[s..e + 1]), Normalized(lines[e + 1..]);
    NormalizedSplit(lines, s, e + 1);
    SpliceRegion(Normalized(lines), before, region, after, start, end, replacement);
  }

  /** New text between whole lines, read back. */
  lemma RejoinedRegion(prefix: seq<EditableLine>, text: string, suffix: seq<EditableLine>, ending: Ending,
                       r: seq<EditableLine>, plain: string)
    requires ending != Unterminated && WellFormed(suffix) && AllTerminated(prefix)
    requires r == Rejoin(prefix, LinesWithEnding(text, ending), suffix, ending)
    requires plain == Normalized(prefix) + text + Normalized(suffix)
    ensures WellFormed(r)
    ensures Normalized(r) == plain
            || (Normalized(r) == plain + "\n" && Normalized(suffix) != "" && plain[|plain| - 1] != '\n')
  {
    var changed := LinesWithEnding(text, ending);
    assert Normalized(changed) == text by { LinesWithEndingText(text, ending); }
    assert WellFormed(changed) by { LinesWithEndingWellFormed(text, ending); }
    RejoinText(prefix, changed, suffix, ending);
    RejoinWellFormed(prefix, changed, suffix, ending);
    LastOfPlain(Normalized(prefix) + text, suffix, plain);
  }

  /** Replacing a range of the normalised text is plain text replacement, except that absorbing
      the unterminated last line may add one final newline. */
  lemma ReplacedText(lines: seq<EditableLine>, ending: Ending, start: nat, end: nat, replacement: string)
    requires WellFormed(lines) && start <= end <= |Normalized(lines)| && ending != Unterminated
    ensures var r := Replaced(lines, ending, start, end, replacement);
            var plain := Splice(Normalized(lines), start, end, replacement);
            && WellFormed(r)
            && (Normalized(r) == plain
                || (Normalized(r) == plain + "\n" && end < |Normalized(lines)| && plain[|plain| - 1] != '\n'))
  {
    if lines == [] {
      ReplacedEmpty(lines, ending, start, end, replacement);
    } else {
      ReplacedRegionText(lines, ending, start, end, replacement, Replaced(lines, ending, start, end, replacement),
                         Splice(Normalized(lines), start, end, replacement));
    }
  }

  lemma ReplacedEmpty(lines: seq<EditableLine>, ending: Ending, start: nat, end: nat, replacement: string)
    requires lines == [] && start <= end <= |Normalized(lines)| && ending != Unterminated
    ensures var r := Replaced(lines, ending, start, end, replacement);
            WellFormed(r) && Normalized(r) == Splice(Normalized(lines), start, end, replacement)
  {
    LinesWithEndingText(replacement, ending);
    LinesWithEndingWellFormed(replacement, ending);
    assert "" + replacement + "" == replacement;
  }

  lemma ReplacedRegionText(lines: seq<EditableLine>, ending: Ending, start: nat, end: nat, replacement: string,
                           r: seq<EditableLine>, plain: string)
    requires WellFormed(lines) && lines != [] && start <= end <= |Normalized(lines)| && ending != Unterminated
    requires r == Replaced(lines, ending, start, end, replacement)
    requires plain == Splice(Normalized(lines), start, end, replacement)
    ensures WellFormed(r)
    ensures Normalized(r) == plain
            || (Normalized(r) == plain + "\n" && end < |Normalized(lines)| && plain[|plain| - 1] != '\n')
  {
    var s, e, text := RegionOfReplacement(lines, ending, start, end, replacement);
    PlainParts(lines, s, e, start, end, replacement, text);
    SuffixWellFormed(lines, e + 1);
    RejoinedRegion(lines[..s], text, lines[e + 1..], ending, r, plain);
  }

  /** The lines a replacement rewrites, and their new text. */
  lemma RegionOfReplacement(lines: seq<EditableLine>, ending: Ending, start: nat, end: nat, replacement: string)
    returns (s: nat, e: nat, text: string)
    requires WellFormed(lines) && lines != [] && start <= end <= |Normalized(lines)|
    ensures s <= e < |lines| && Offset(lines, s) <= start && end <= Offset(lines, e + 1) <= |Normalized(lines)|
    ensures text
            == Normalized(lines)[Offset(lines, s)..start] + replacement + Normalized(lines)[end..Offset(lines, e + 1)]
    ensures Replaced(lines, ending, start, end, replacement)
            == Rejoin(lines[..s], LinesWithEnding(text, ending), lines[e + 1..], ending)
  {
    RegionEncloses(lines, start, end);
    s, e := LineAt(lines, start), LineAt(lines, LastTouched(|Normalized(lines)|, start, end));
    text := NewRegion(lines, start, end, replacement);
  }

  lemma LastOfPlain(front: string, suffix: seq<EditableLine>, plain: string)
    requires WellFormed(suffix) && plain == front + Normalized(suffix)
    ensures suffix != [] && suffix[|suffix| - 1].ending == Unterminated ==>
              Normalized(suffix) != "" && plain[|plain| - 1] != '\n'
  {
    if suffix != [] {
      LastOfNormalized(suffix);
    }
  }

  lemma SuffixWellFormed(lines: seq<EditableLine>, i: nat)
    requires WellFormed(lines) && i <= |lines|
    ensures WellFormed(lines[i..])
  {
    assert forall k | 0 <= k < |lines| - i :: lines[i..][k] == lines[i + k];
  }

  /** Lines before the one a replacement starts in, and lines after the one that follows its end,
      keep their text and their exact terminator; so does the one that follows, exactly if it is not
      joined on. */
  lemma ReplacedKeepsOtherLines(lines: seq<EditableLine>, ending: Ending, start: nat, end: nat, replacement: string)
    requires WellFormed(lines) && lines != [] && start <= end <= |Normalized(lines)| && ending != Unterminated
    ensures var r := Replaced(lines, ending, start, end, replacement);
            var s := LineAt(lines, start);
            var e := LineAt(lines, LastTouched(|Normalized(lines)|, start, end));
            && lines[..s] <= r && (e + 2 <= |lines| ==> EndsWith(r, lines[e + 2..]))
            && (e + 1 < |lines| ==> (EndsWith(r, lines[e + 1..]) <==> !Absorbs(lines, start, end, replacement)))
  {
    var e := LineAt(lines, LastTouched(|Normalized(lines)|, start, end));
    var r := Replaced(lines, ending, start, end, replacement);
    FartherLinesKept(lines, ending, start, end, replacement, LineAt(lines, start), e, r);
    if e + 1 < |lines| {
      NextLineExactly(lines, ending, start, end, replacement, e, NewRegion(lines, start, end, replacement), r);
    }
  }

  lemma FartherLinesKept(lines: seq<EditableLine>, ending: Ending, start: nat, end: nat, replacement: string,
                         s: nat, e: nat, r: seq<EditableLine>)
    requires WellFormed(lines) && lines != [] && start <= end <= |Normalized(lines)|
    requires s == LineAt(lines, start) && e == LineAt(lines, LastTouched(|Normalized(lines)|, start, end))
    requires r == Replaced(lines, ending, start, end, replacement)
    ensures lines[..s] <= r && (e + 2 <= |lines| ==> EndsWith(r, lines[e + 2..]))
  {
    assert s <= e by { RegionEncloses(lines, start, end); }
    RejoinKeeps(lines[..s], LinesWithEnding(NewRegion(lines, start, end, replacement), ending), lines[e + 1..], ending);
    assert e + 2 <= |lines| ==> lines[e + 1..][1..] == lines[e + 2..];
  }

  lemma NextLineExactly(lines: seq<EditableLine>, ending: Ending, start: nat, end: nat, replacement: string, e: nat,
                        region: string, r: seq<EditableLine>)
    requires WellFormed(lines) && lines != [] && start <= end <= |Normalized(lines)| && ending != Unterminated
    requires e == LineAt(lines, LastTouched(|Normalized(lines)|, start, end)) && e + 1 < |lines|
    requires region == NewRegion(lines, start, end, replacement)
    requires r == Replaced(lines, ending, start, end, replacement)
    ensures EndsWith(r, lines[e + 1..]) <==> !Absorbs(lines, start, end, replacement)
  {
    assert LineAt(lines, start) <= e by { RegionEncloses(lines, start, end); }
    var changed := LinesWithEnding(region, ending);
    assert r == Rejoin(lines[..LineAt(lines, start)], changed, lines[e + 1..], ending);
    LastTerminated(region, ending);
    RejoinAbsorbs(lines[..LineAt(lines, start)], changed, lines[e + 1..], ending, r);
  }

  ghost predicate EndsWith<T>(s: seq<T>, t: seq<T>)
  {
    |t| <= |s| && s[|s| - |t|..] == t
  }

  lemma RejoinKeeps(prefix: seq<EditableLine>, changed: seq<EditableLine>, suffix: seq<EditableLine>, ending: Ending)
    ensures var r := Rejoin(prefix, changed, suffix, ending);
            prefix <= r && (suffix != [] ==> EndsWith(r, suffix[1..]))
  {
  }

  lemma RejoinAbsorbs(prefix: seq<EditableLine>, changed: seq<EditableLine>, suffix: seq<EditableLine>,
                      ending: Ending, r: seq<EditableLine>)
    requires r == Rejoin(prefix, changed, suffix, ending) && suffix != []
    requires changed != [] && changed[|changed| - 1].ending == Unterminated ==> changed[|changed| - 1].text != ""
    ensures EndsWith(r, suffix) <==> !(changed != [] && changed[|changed| - 1].ending == Unterminated)
  {
    if changed != [] && changed[|changed| - 1].ending == Unterminated {
      assert |r[|r| - |suffix|].text| == |changed[|changed| - 1].text| + |suffix[0].text|;
    }
  }

  // ----- the final newline

  /** The lines with every inner line terminated and the final newline as the file had it. */
  function Preserved(lines: seq<EditableLine>, ending: Ending, hadTrailingNewline: bool): seq<EditableLine>
  {
    if lines == [] then
      if hadTrailingNewline then [EditableLine("", ending)] else []
    else
      var last := lines[|lines| - 1];
      Terminated(lines[..|lines| - 1], ending)
      + [if hadTrailingNewline then (if last.ending == Unterminated then last.(ending := ending) else last)
         else if last.text != "" then last.(ending := Unterminated) else last]
  }

  function Terminated(lines: seq<EditableLine>, ending: Ending): (r: seq<EditableLine>)
    ensures |r| == |lines|
    ensures forall i | 0 <= i < |lines| ::
              r[i] == if lines[i].ending == Unterminated then lines[i].(ending := ending) else lines[i]
  {
    if lines == [] then []
    else
      [if lines[0].ending == Unterminated then lines[0].(ending := ending) else lines[0]]
      + Terminated(lines[1..], ending)
  }

  /** The rule on plain text: a file that ended with a newline ends with one again; in any other
      file the final newline goes, unless it closes an empty line. */
  ghost function TrailingRule(hadTrailingNewline: bool, s: string): string
  {
    if hadTrailingNewline then
      if s == "" || s[|s| - 1] != '\n' then s + "\n" else s
    else if |s| > 1 && s[|s| - 1] == '\n' && s[|s| - 2] != '\n' then s[..|s| - 1]
    else s
  }

  /** The trailing rule on a text of some complete lines and one last line. */
  lemma RuleOnLast(front: string, text: string, terminated: bool, had: bool)
    requires terminated || text != ""
    requires '\n' !in text && (front != "" ==> front[|front| - 1] == '\n')
    ensures TrailingRule(had, front + (text + if terminated then "\n" else ""))
         == front + (text + if had || (terminated && text == "") then "\n" else "")
  {
    var s := front + (text + if terminated then "\n" else "");
    assert s + "\n" == front + (text + (if terminated then "\n" else "") + "\n");
    if text != "" {
      assert s[|front| + |text| - 1] == text[|text| - 1];
    } else {
      assert front + text == front;
    }
    if terminated {
      assert s[..|s| - 1] == front + text;
    }
  }

  lemma PreservedText(lines: seq<EditableLine>, ending: Ending, had: bool)
    requires WellFormed(lines) && ending != Unterminated
    ensures Normalized(Preserved(lines, ending, had)) == TrailingRule(had, Normalized(lines))
  {
    var r := Preserved(lines, ending, had);
    if lines == [] {
      assert had ==> r[1..] == [];
    } else {
      var l := |lines| - 1;
      assert Terminated(lines[..l], ending) == lines[..l];
      assert r == lines[..l] + [r[l]];
      NormalizedAppend(lines[..l], [r[l]]);
      NormalizedOne(r[l]);
      LastOfNormalized(lines);
      if l > 0 {
        PrefixWellFormed(lines, l);
        LastOfNormalized(lines[..l]);
      }
      RuleOnLast(Normalized(lines[..l]), lines[l].text, lines[l].ending != Unterminated, had);
    }
  }

  lemma PreservedWellFormed(lines: seq<EditableLine>, ending: Ending, had: bool)
    requires WellFormed(lines) && ending != Unterminated
    ensures WellFormed(Preserved(lines, ending, had))
  {
  }

  lemma PrefixWellFormed(lines: seq<EditableLine>, l: nat)
    requires WellFormed(lines) && l < |lines|
    ensures WellFormed(lines[..l])
  {
  }

  /** The trailing pass changes no text, and no terminator but a missing one or the final one of a
      file without trailing newline. */
  lemma PreservedKeepsTerminators(lines: seq<EditableLine>, ending: Ending, had: bool, i: nat)
    requires i < |lines|
    ensures var r := Preserved(lines, ending, had);
            && |r| == |lines| && r[i].text == lines[i].text
            && (lines[i].ending != Unterminated && (i < |lines| - 1 || had || lines[i].text == "") ==> r[i] == lines[i])
            && (i < |lines| - 1 || had ==> lines[i].ending == Unterminated ==> r[i].ending == ending)
  {
  }

  // ----- inserting lines

  /** Lines that others are put behind: the last one gets a terminator. */
  function Closed(lines: seq<EditableLine>, ending: Ending): seq<EditableLine>
  {
    var last := |lines| - 1;
    if lines != [] && lines[last].ending == Unterminated then lines[..last] + [EditableLine(lines[last].text, ending)]
    else lines
  }

  /** New lines, the last one without a terminator if so wanted. */
  function Laid(block: seq<string>, ending: Ending, terminated: bool): seq<EditableLine>
    requires block != []
  {
    var last := |block| - 1;
    Block(block[..last], ending) + [EditableLine(block[last], if terminated then ending else Unterminated)]
  }

  /** Puts new lines at a position. At the end of the text they end in a newline only if so wanted. */
  function Inserted(lines: seq<EditableLine>, ending: Ending, at: nat, block: seq<string>,
                    trailing: bool): seq<EditableLine>
    requires at <= |lines|
  {
    if block == [] then lines
    else Closed(lines[..at], ending) + Laid(block, ending, at < |lines| || trailing) + lines[at..]
  }

  lemma {:induction false} BlockAppend(p: seq<string>, x: string, ending: Ending)
    ensures Block(p + [x], ending) == Block(p, ending) + [EditableLine(x, ending)]
  {
    if p == [] {
      assert [x][1..] == [] && p + [x] == [x];
    } else {
      assert (p + [x])[1..] == p[1..] + [x];
      BlockAppend(p[1..], x, ending);
    }
  }
}
