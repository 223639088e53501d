/** The editable content object of `text_editing.rs` and the single replacement of `multi_edit.rs`. */
module EditableContent {
  import opened Wrappers
  import opened LineText
  import opened Seqs
  import opened EditableText
  import opened TextReplace
  import opened ReadBack

  ghost function CountEnding(lines: seq<EditableLine>, e: Ending): nat
  {
    if lines == [] then 0 else (if lines[0].ending == e then 1 else 0) + CountEnding(lines[1..], e)
  }

  /** The terminator of most lines; LF on a tie. */
  ghost function DominantEnding(lines: seq<EditableLine>): Ending
  {
    if CountEnding(lines, Crlf) > CountEnding(lines, Lf) then Crlf else Lf
  }

  predicate EndsWithNewline(raw: string) { raw != "" && raw[|raw| - 1] == '\n' }

  lemma RenderedNext(lines: seq<EditableLine>, i: nat)
    requires i < |lines|
    ensures Rendered(lines[i..]) == lines[i].text + EndingText(lines[i].ending) + Rendered(lines[i + 1..])
  {
    assert lines[i..][1..] == lines[i + 1..];
  }

  lemma ParseNext(pieces: seq<string>, i: nat)
    requires i < |pieces|
    ensures var line, rest := ParseLine(pieces[i]), ParseAll(pieces[i + 1..]);
            && ParseAll(pieces[i..]) == [line] + rest
            && forall e ::
              CountEnding(ParseAll(pieces[i..]), e) == (if line.ending == e then 1 else 0) + CountEnding(rest, e)
  {
    assert pieces[i..][1..] == pieces[i + 1..];
    assert ([ParseLine(pieces[i])] + ParseAll(pieces[i + 1..]))[1..] == ParseAll(pieces[i + 1..]);
  }

  /** Cuts the terminator off every piece and counts the kinds. */
  method ParsePieces(pieces: seq<string>) returns (parsed: seq<EditableLine>, lfCount: nat, crlfCount: nat)
    ensures parsed == ParseAll(pieces)
    ensures lfCount == CountEnding(parsed, Lf) && crlfCount == CountEnding(parsed, Crlf)
  {
    parsed, lfCount, crlfCount := [], 0, 0;
    ghost var all := ParseAll(pieces);
    assert pieces[0..] == pieces;
    CatEmpty(all);
    for i := 0 to |pieces|
      invariant all == parsed + ParseAll(pieces[i..])
      invariant CountEnding(all, Lf) == lfCount + CountEnding(ParseAll(pieces[i..]), Lf)
      invariant CountEnding(all, Crlf) == crlfCount + CountEnding(ParseAll(pieces[i..]), Crlf)
    {
      var line := ParseLine(pieces[i]);
      ParseNext(pieces, i);
      Cat(parsed, [line], ParseAll(pieces[i + 1..]));
      if line.ending == Crlf {
        crlfCount := crlfCount + 1;
      } else if line.ending == Lf {
        lfCount := lfCount + 1;
      }
      parsed := parsed + [line];
    }
    assert pieces[|pieces|..] == [];
    CatEmpty(parsed);
  }

  class Content {
    var lines: seq<EditableLine>
    var dominant: Ending
    var hadTrailingNewline: bool

    ghost predicate Valid()
      reads this
    {
      WellFormed(lines) && dominant != Unterminated
    }

    constructor FromRaw(raw: string)
      ensures Valid() && lines == RawLines(raw)
      ensures dominant == DominantEnding(lines) && hadTrailingNewline == EndsWithNewline(raw)
    {
      var parsed, lfCount, crlfCount := ParsePieces(SplitInclusive(raw));
      lines := parsed;
      dominant := if crlfCount > lfCount then Crlf else Lf;
      hadTrailingNewline := EndsWithNewline(raw);
      RawWellFormed(raw);
    }

    method NormalizedText() returns (content: string)
      ensures content == Normalized(lines)
    {
      content := "";
      for i := 0 to |lines|
        invariant content == Normalized(lines[..i])
      {
        OffsetNext(lines, i);
        content := content + lines[i].text + if lines[i].ending == Unterminated then "" else "\n";
      }
      assert lines[..|lines|] == lines;
    }

    method RenderedText() returns (content: string)
      ensures content == Rendered(lines)
    {
      content := "";
      for i := 0 to |lines|
        invariant Rendered(lines) == content + Rendered(lines[i..])
      {
        RenderedNext(lines, i);
        Cat(content, lines[i].text + EndingText(lines[i].ending), Rendered(lines[i + 1..]));
        content := content + (lines[i].text + EndingText(lines[i].ending));
      }
      assert lines[|lines|..] == [];
    }

    /** The lines and offsets of the region that a replacement rewrites. */
    method FindRegion(content: string, start: nat, end: nat)
      returns (startLine: nat, endLine: nat, regionStart: nat, regionEnd: nat)
      requires Valid() && lines != [] && content == Normalized(lines) && start <= end <= |content|
      ensures startLine == LineAt(lines, start) && endLine == LineAt(lines, LastTouched(|content|, start, end))
      ensures startLine <= endLine && regionStart == Offset(lines, startLine) && regionEnd == Offset(lines, endLine + 1)
    {
      RegionEncloses(lines, start, end);
      NextOffset(lines, 0);
      var lastOffset := if end > start then end - 1 else if start < |content| then start else |content| - 1;
      var found := false;
      startLine, regionStart := 0, 0;
      var offset: nat := 0;
      var index: nat := 0;
      while true
        invariant index < |lines| && offset == Offset(lines, index) <= lastOffset
        invariant found ==> startLine == LineAt(lines, start) && regionStart == Offset(lines, startLine)
        invariant !found ==> offset <= start
        invariant found ==> startLine < index
        decreases |lines| - index
      {
        var next := offset + |LineLf(lines[index])|;
        NextOffset(lines, index);
        if !found && (start < next || (start == |content| && index + 1 == |lines|)) {
          LineAtUnique(lines, start, index);
          found, startLine, regionStart := true, index, offset;
        }
        if lastOffset < next {
          LineAtUnique(lines, lastOffset, index);
          endLine, regionEnd := index, next;
          return;
        }
        offset, index := next, index + 1;
      }
    }

    /** Puts the rewritten text of a region of lines in place of them. */
    method RewriteRegion(startLine: nat, endLine: nat, changed: string)
      requires Valid() && startLine <= endLine < |lines|
      modifies this`lines
      ensures
        var front, rest := old(lines)[..startLine], old(lines)[endLine + 1..];
        lines == Rejoin(front, LinesWithEnding(changed, dominant), rest, dominant)
    {
      LastTerminated(changed, dominant);
      var suffix := lines[endLine + 1..];
      var changedLines := LinesWithEnding(changed, dominant);
      if changed != "" && changed[|changed| - 1] != '\n' && suffix != [] {
        var tail := changedLines[|changedLines| - 1];
        changedLines := changedLines[..|changedLines| - 1] + [EditableLine(tail.text + suffix[0].text, dominant)];
        suffix := suffix[1..];
      }
      lines := lines[..startLine] + changedLines + suffix;
    }

    /** Replaces a range of the normalised text; the range must lie within it. */
    method ReplaceNormalizedRange(start: nat, end: nat, replacement: string) returns (r: Result<(), string>)
      requires Valid()
      modifies this`lines
      ensures r.Ok? <==> start <= end <= |Normalized(old(lines))|
      ensures lines == Step(old(lines), dominant, start, end, replacement)
      ensures Valid()
    {
      var content := NormalizedText();
      if start > end || end > |content| {
        return Err("Invalid internal replacement range");
      }
      assert WellFormed(Step(lines, dominant, start, end, replacement)) by {
        ReplacedText(lines, dominant, start, end, replacement);
      }
      if lines == [] {
        lines := LinesWithEnding(replacement, dominant);
      } else {
        RewriteRange(content, start, end, replacement);
      }
      r := Ok(());
    }

    /** Replaces a range of the text by rewriting the lines that it touches. */
    method RewriteRange(content: string, start: nat, end: nat, replacement: string)
      requires Valid() && lines != [] && content == Normalized(lines) && start <= end <= |content|
      modifies this`lines
      ensures lines == Replaced(old(lines), dominant, start, end, replacement)
    {
      var startLine, endLine, regionStart, regionEnd := FindRegion(content, start, end);
      RegionEncloses(lines, start, end);
      RewriteRegion(startLine, endLine, content[regionStart..start] + replacement + content[end..regionEnd]);
    }

    /** Replaces one match. */
    method ReplaceMatch(start: nat, end: nat, text: string, ghost f: Stepper)
      requires Valid() && start <= end <= |Normalized(lines)| && Computes(f, dominant, text)
      modifies this`lines
      ensures Valid() && lines == f(old(lines), start, end)
    {
      assert IsStep(f, dominant, text, lines, start, end);
      var step := ReplaceNormalizedRange(start, end, text);
      assert step.Ok?;
    }

    /** Replaces all matches, the last one first, so that earlier positions stay valid. */
    method ReplaceMatches(ghost normalized: string, needle: string, text: string, positions: seq<nat>, ghost f: Stepper)
      requires Valid() && normalized == Normalized(lines) && needle != "" && positions == Matches(normalized, needle, 0)
      requires Computes(f, dominant, text) && StaysNear(f, text)
      modifies this`lines
      ensures Valid() && lines == StepsFrom(f, old(lines), positions, |needle|, 0)
    {
      var i := |positions|;
      ghost var lines0 := lines;
      while i > 0
        invariant 0 <= i <= |positions| && Valid()
        invariant lines == StepsFrom(f, lines0, positions, |needle|, i)
      {
        i := i - 1;
        StepInRange(f, lines0, normalized, needle, text, positions, i);
        ReplaceMatch(positions[i], positions[i] + |needle|, text, f);
      }
    }

    /** Terminates inner lines and restores the final newline the way the file had it. */
    method PreserveTrailingNewline()
      requires dominant != Unterminated
      modifies this`lines
      ensures lines == Preserved(old(lines), dominant, hadTrailingNewline)
    {
      if lines == [] {
        if hadTrailingNewline {
          lines := [EditableLine("", dominant)];
        }
        return;
      }
      var last := |lines| - 1;
      ghost var inner := Terminated(lines[..last], dominant);
      for i := 0 to last
        invariant |lines| == last + 1
        invariant forall k | 0 <= k <= last :: lines[k] == if k < i then inner[k] else old(lines)[k]
      {
        if lines[i].ending == Unterminated {
          lines := lines[i := lines[i].(ending := dominant)];
        }
      }
      assert lines[..last] == inner;
      assert lines == inner + [old(lines)[last]];
      if hadTrailingNewline {
        if lines[last].ending == Unterminated {
          lines := lines[last := lines[last].(ending := dominant)];
        }
      } else if lines[last].text != "" {
        lines := lines[last := lines[last].(ending := Unterminated)];
      }
    }

    /** Inserts lines in front of the one at the position, which must lie within the text or at its end. */
    method InsertLines(position: nat, content: seq<string>, trailingNewline: bool) returns (r: Result<(), string>)
      modifies this`lines, this`hadTrailingNewline
      ensures r.Ok? <==> position <= |old(lines)|
      ensures lines == if r.Ok? then Inserted(old(lines), dominant, position, TrimAll(content), trailingNewline)
                       else old(lines)
      ensures hadTrailingNewline == if r.Ok? && content != [] then trailingNewline else old(hadTrailingNewline)
    {
      if position > |lines| {
        return Err("Invalid internal insertion position");
      }
      var block := TrimAll(content);
      var inserted := Block(block, dominant);
      if inserted == [] {
        return Ok(());
      }
      var last := |block| - 1;
      assert inserted == Block(block[..last], dominant) + [EditableLine(block[last], dominant)] by {
        BlockAppend(block[..last], block[last], dominant);
        LastSplit(block);
      }
      ghost var front := lines[..position];
      if position > 0 && lines[position - 1].ending == Unterminated {
        lines := lines[position - 1 := lines[position - 1].(ending := dominant)];
      }
      assert lines[..position] == Closed(front, dominant);
      if position == |lines| && !trailingNewline {
        inserted := inserted[last := inserted[last].(ending := Unterminated)];
      }
      lines := lines[..position] + inserted + lines[position..];
      hadTrailingNewline := trailingNewline;
      r := Ok(());
    }
  }

  /** Lines follow one another without gaps and none is empty. */
  lemma NextOffset(lines: seq<EditableLine>, i: nat)
    requires WellFormed(lines) && i < |lines|
    ensures Offset(lines, i) < Offset(lines, i + 1) == Offset(lines, i) + |LineLf(lines[i])| <= |Normalized(lines)|
    ensures i + 1 < |lines| <==> Offset(lines, i + 1) < |Normalized(lines)|
    ensures Offset(lines, 0) == 0
  {
    assert lines[..|lines|] == lines;
    OffsetNext(lines, i);
    OffsetMonotone(lines, i, i + 1);
    OffsetMonotone(lines, i + 1, |lines|);
  }

  ghost predicate IsStep(f: Stepper, ending: Ending, text: string, lines: seq<EditableLine>, start: nat, end: nat)
  {
    f(lines, start, end) == Step(lines, ending, start, end, text)
  }

  /** f replaces ranges by the given text. */
  ghost predicate Computes(f: Stepper, ending: Ending, text: string)
  {
    forall lines, start: nat, end: nat :: IsStep(f, ending, text, lines, start, end)
  }

  lemma StepWithComputes(ending: Ending, text: string)
    ensures Computes(StepWith(ending, text), ending, text)
  {
  }

  /** With the later matches replaced, the i-th one still lies within the text. */
  lemma StepInRange(f: Stepper, lines: seq<EditableLine>, s: string, needle: string, text: string, ps: seq<nat>, i: nat)
    requires StaysNear(f, text) && Near(lines, s, |s|)
    requires needle != "" && ps == Matches(s, needle, 0) && i < |ps|
    ensures ps[i] + |needle| <= |Normalized(StepsFrom(f, lines, ps, |needle|, i + 1))|
    ensures StepsFrom(f, lines, ps, |needle|, i) == f(StepsFrom(f, lines, ps, |needle|, i + 1), ps[i], ps[i] + |needle|)
  {
    StepsStayNear(f, lines, s, needle, text, ps, i + 1);
    SplicesUnfold(s, needle, text, i);
  }

  // ----- one replacement of a multi-file edit

  datatype ReplaceError = EmptyOldText | NotFound | Ambiguous(positions: seq<nat>) | InternalError

  /** What replacing a piece of a raw file text yields. */
  ghost function ReplaceText(raw: string, oldText: string, newText: string,
                             replaceAll: bool): Result<string, ReplaceError>
  {
    if oldText == "" then Err(EmptyOldText) else
      LfTextNonEmpty(oldText);
      var lines := RawLines(raw);
      var needle := LfText(oldText);
      var ps := Matches(Normalized(lines), needle, 0);
      if ps == [] then Err(NotFound)
      else if |ps| > 1 && !replaceAll then Err(Ambiguous(ps))
      else
        var incoming := SanitizeIncoming(newText);
        Ok(Rendered(EditedLines(lines, DominantEnding(lines), EndsWithNewline(raw), needle, incoming)))
  }

  lemma LfTextNonEmpty(s: string)
    requires s != ""
    ensures LfText(s) != ""
  {
  }

  /** The lines that a replacement writes. */
  ghost function EditedRaw(raw: string, oldText: string, newText: string): seq<EditableLine>
    requires LfText(oldText) != ""
  {
    EditedLines(RawLines(raw), DominantEnding(RawLines(raw)), EndsWithNewline(raw), LfText(oldText),
                SanitizeIncoming(newText))
  }

  /** The LF text of the file with every match substituted, up to the rule for the final newline. */
  ghost function TargetText(raw: string, oldText: string, newText: string): string
    requires LfText(oldText) != ""
  {
    TrailingRule(EndsWithNewline(raw), Substituted(LfText(raw), LfText(oldText), SanitizeIncoming(newText), 0))
  }

  lemma EditedRawText(raw: string, oldText: string, newText: string)
    requires LfText(oldText) != ""
    ensures WellFormed(EditedRaw(raw, oldText, newText))
    ensures Normalized(EditedRaw(raw, oldText, newText)) == TargetText(raw, oldText, newText)
  {
    var lines := RawLines(raw);
    RawNormalized(raw);
    RawWellFormed(raw);
    EditedLinesText(lines, DominantEnding(lines), EndsWithNewline(raw), LfText(oldText), SanitizeIncoming(newText));
    EditedWellFormed(lines, DominantEnding(lines), EndsWithNewline(raw), LfText(oldText), SanitizeIncoming(newText));
  }

  /** New text without carriage returns at line ends is substituted as it is, and those at line ends make
      no difference. */
  lemma IncomingTextIs(raw: string, oldText: string, newText: string)
    requires LfText(oldText) != "" && NoLineEndCr(newText)
    ensures TargetText(raw, oldText, newText)
         == TrailingRule(EndsWithNewline(raw), Substituted(LfText(raw), LfText(oldText), newText, 0))
  {
    SanitizeKeeps(newText);
  }

  lemma LineEndCrIsIgnored(raw: string, oldText: string, p: string, q: string, replaceAll: bool)
    requires q == "" || q[0] == '\n'
    ensures ReplaceText(raw, oldText, p + "\r" + q, replaceAll) == ReplaceText(raw, oldText, p + q, replaceAll)
  {
    SanitizeDrops(p, q);
  }

  /** When a replacement fails, and why. */
  lemma ReplaceErrors(raw: string, oldText: string, newText: string, replaceAll: bool)
    ensures var r := ReplaceText(raw, oldText, newText, replaceAll);
            && (r == Err(EmptyOldText) <==> oldText == "")
            && (oldText != "" ==>
                  && LfText(oldText) != ""
                  && (r == Err(NotFound) <==>
                      forall p: nat | p <= |LfText(raw)| :: !(LfText(oldText) <= LfText(raw)[p..]))
                  && (r.Err? && r != Err(NotFound) <==> |Matches(LfText(raw), LfText(oldText), 0)| > 1 && !replaceAll)
                  && (r.Err? && r != Err(NotFound) ==> r.error == Ambiguous(Matches(LfText(raw), LfText(oldText), 0))))
  {
    if oldText != "" {
      LfTextNonEmpty(oldText);
      RawNormalized(raw);
      var s, needle := LfText(raw), LfText(oldText);
      var ps := Matches(s, needle, 0);
      forall p: nat | p <= |s| && needle <= s[p..]
        ensures ps != []
      {
        MatchesComplete(s, needle, 0, p);
      }
      if ps != [] {
        MatchesSound(s, needle, 0);
      }
    }
  }

  /** What a successful replacement means for the text: the lines written are those of the LF-normalised
      file with every match substituted; the file reads back as that text exactly if no LF line among
      them ends in a carriage return. A file with one kind of terminator is that text written with it,
      and reads back as it exactly if the kind is CRLF or the text has no carriage return before a
      newline. */
  lemma ReplaceTextMeaning(raw: string, oldText: string, newText: string, replaceAll: bool)
    requires oldText != "" && LfText(oldText) != ""
    ensures var matches := Matches(LfText(raw), LfText(oldText), 0);
            var r := ReplaceText(raw, oldText, newText, replaceAll);
            var edited, target := EditedRaw(raw, oldText, newText), TargetText(raw, oldText, newText);
            && (r.Ok? <==> matches != [] && (|matches| == 1 || replaceAll))
            && (NoLineEndCr(newText) ==>
                  target == TrailingRule(EndsWithNewline(raw), Substituted(LfText(raw), LfText(oldText), newText, 0)))
            && (r.Ok? ==> r.value == Rendered(edited) && Normalized(edited) == target
                          && (LfText(r.value) == target <==> NoLooseCr(edited)))
    ensures var dominant := DominantEnding(RawLines(raw));
            var r, target := ReplaceText(raw, oldText, newText, replaceAll), TargetText(raw, oldText, newText);
            r.Ok? && Uniform(RawLines(raw), dominant) ==>
              && r.value == Expand(target, dominant)
              && (LfText(r.value) == target <==> dominant == Crlf || !HasCrlf(target))
  {
    var lines, dominant := RawLines(raw), DominantEnding(RawLines(raw));
    RawNormalized(raw);
    EditedRawText(raw, oldText, newText);
    if NoLineEndCr(newText) {
      IncomingTextIs(raw, oldText, newText);
    }
    ReadsBackExactly(EditedRaw(raw, oldText, newText));
    if Uniform(lines, dominant) {
      RawWellFormed(raw);
      UniformFileStaysUniform(lines, dominant, EndsWithNewline(raw), LfText(oldText), SanitizeIncoming(newText));
      ExpandedReadsBack(TargetText(raw, oldText, newText), dominant);
    }
  }

  lemma WitnessLines()
    ensures LfText("b") == "b" && LfText("a\rb\n") == "a\rb\n"
    ensures RawLines("a\rb\n") == [EditableLine("a\rb", Lf)]
    ensures DominantEnding(RawLines("a\rb\n")) == Lf && Uniform(RawLines("a\rb\n"), Lf)
  {
    LfTextPlain("b", "");
    LfTextPlain("a\rb", "\n");
    assert "b" + "" == "b" && "a\rb" + "\n" == "a\rb\n" && LfText("\n") == "\n";
    var raw := "a\rb\n";
    assert raw[..|raw| - 1] == "a\rb" && raw + "" == raw;
    RawLinesCons(raw, "");
    assert RawLines(raw) == [ParseLine(raw)];
    assert CountEnding(RawLines(raw)[1..], Crlf) == 0 && CountEnding(RawLines(raw)[1..], Lf) == 0;
  }

  lemma WitnessText()
    ensures Matches("a\rb\n", "b", 0) == [2] && Substituted("a\rb\n", "b", "", 0) == "a\r\n"
    ensures SanitizeIncoming("") == "" && LfText("a\r\n") == "a\n"
  {
    var s := "a\rb\n";
    assert !OccursAt(s, "b", 3) && OccursAt(s, "b", 2) && !OccursAt(s, "b", 1) && !OccursAt(s, "b", 0) by {
      assert s[3..4][0] == '\n' && s[2..3] == "b" && s[1..2][0] == '\r' && s[0..1][0] == 'a';
    }
    assert Matches(s, "b", 3) == [] && Substituted(s, "b", "", 3) == ['\n'];
    assert Matches(s, "b", 2) == [2] && Substituted(s, "b", "", 2) == "" + "\n" == "\n";
    assert Matches(s, "b", 1) == [2] && Substituted(s, "b", "", 1) == ['\r'] + "\n" == "\r\n";
    assert Substituted(s, "b", "", 0) == ['a'] + "\r\n";
    assert Split("") == [""] && TrimAll([""]) == [""];
    assert "a\r\n"[1..] == "\r\n" && "\r\n"[2..] == "";
  }

  /** A replacement can bring a carriage return in front of a newline, which is then read as CRLF. */
  lemma CarriageReturnIsLost()
    ensures ReplaceText("a\rb\n", "b", "", false) == Ok("a\r\n")
    ensures LfText("b") == "b" && TargetText("a\rb\n", "b", "") == "a\r\n" && LfText("a\r\n") == "a\n"
  {
    WitnessLines();
    WitnessText();
    ReplaceTextMeaning("a\rb\n", "b", "", false);
    assert TargetText("a\rb\n", "b", "") == "a\r\n";
    ExpandLf("a\r\n");
  }

  /** Replaces one piece of a raw file text, or every occurrence of it. */
  method Replace(raw: string, oldText: string, newText: string, replaceAll: bool)
    returns (r: Result<string, ReplaceError>)
    ensures r == ReplaceText(raw, oldText, newText, replaceAll)
  {
    if oldText == "" {
      return Err(EmptyOldText);
    }
    LfTextNonEmpty(oldText);
    var content := new Content.FromRaw(raw);
    var normalized := content.NormalizedText();
    var needle := LfText(oldText);
    var text := SanitizeIncoming(newText);
    var positions := FindAllPositions(normalized, needle);
    if positions == [] {
      return Err(NotFound);
    }
    if |positions| > 1 && !replaceAll {
      return Err(Ambiguous(positions));
    }
    StepStaysNear(content.dominant, text);
    StepWithComputes(content.dominant, text);
    content.ReplaceMatches(normalized, needle, text, positions, StepWith(content.dominant, text));
    content.PreserveTrailingNewline();
    var rendered := content.RenderedText();
    r := Ok(rendered);
  }
}
