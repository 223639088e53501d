/** Copying a range of lines of one file into another (`core.rs`), and what a view of that file then
    shows. */
module Extraction {
  import opened Wrappers
  import opened LineText
  import opened Seqs
  import opened EditableText
  import opened EditableContent
  import opened BatchCall
  import BatchOps
  import opened ShiftNote
  import opened ViewCache

  // ----- a line as a view shows it

  /** The text of a line in a view of the file: reading the file and normalising it each take a
      carriage return in front of a newline for part of the terminator. */
  function Shown(line: EditableLine): string
  {
    ParseLine(LineLf(ParseLine(line.text + EndingText(line.ending)))).text
  }

  function ShownAll(lines: seq<EditableLine>): (r: seq<string>)
    ensures |r| == |lines|
  {
    if lines == [] then [] else [Shown(lines[0])] + ShownAll(lines[1..])
  }

  lemma {:induction false} ShownAppend(p: seq<EditableLine>, q: seq<EditableLine>)
    ensures ShownAll(p + q) == ShownAll(p) + ShownAll(q)
  {
    if p == [] {
      assert p + q == q;
    } else {
      assert (p + q)[1..] == p[1..] + q;
      ShownAppend(p[1..], q);
    }
  }

  /** A view shows a line as it is unless its text ends in a carriage return in front of a newline. */
  lemma ShownExactly(line: EditableLine)
    requires '\n' !in line.text
    ensures Shown(line) == line.text <==> line.ending == Unterminated || !EndsInCr(line.text)
  {
    var piece := line.text + EndingText(line.ending);
    match line.ending {
      case Unterminated =>
        assert piece == line.text;
      case Lf =>
        ShownOf(line.text, piece, "\n");
      case Crlf =>
        assert piece[..|piece| - 2] == line.text;
        ShownOf(line.text, line.text + "\n", "\n");
    }
  }

  lemma ShownOf(text: string, piece: string, newline: string)
    requires '\n' !in text && newline == "\n" && piece == text + newline
    ensures EndsInCr(text) ==> |ParseLine(piece).text| < |text|
    ensures !EndsInCr(text) ==> ParseLine(piece) == EditableLine(text, Lf)
    ensures |ParseLine(LineLf(ParseLine(piece))).text| <= |ParseLine(piece).text|
  {
    assert piece[..|piece| - 1] == text;
  }

  /** The first line in front of others, read and shown. */
  lemma ShownCons(line: EditableLine, rest: string)
    requires '\n' !in line.text && (line.ending == Unterminated ==> line.text != "" && rest == "")
    ensures Lines(LfText(line.text + EndingText(line.ending) + rest)) == [Shown(line)] + Lines(LfText(rest))
  {
    var piece := line.text + EndingText(line.ending);
    assert '\n' !in piece[..|piece| - 1] && (piece[|piece| - 1] != '\n' <==> line.ending == Unterminated) by {
      PieceOfLine(line, piece);
    }
    LfTextLine(piece, rest);
    var read := ParseLine(piece);
    ParsePiece(piece);
    ReparseLine(read);
    LinesCons(LineLf(read), LfText(rest));
  }

  lemma PieceOfLine(line: EditableLine, piece: string)
    requires '\n' !in line.text && (line.ending == Unterminated ==> line.text != "")
    requires piece == line.text + EndingText(line.ending)
    ensures piece != "" && '\n' !in piece[..|piece| - 1]
            && (piece[|piece| - 1] != '\n' <==> line.ending == Unterminated)
  {
  }

  /** Written lines, read back and viewed. */
  lemma {:induction false} ShownLines(lines: seq<EditableLine>)
    requires WellFormed(lines)
    ensures Lines(LfText(Rendered(lines))) == ShownAll(lines)
  {
    if lines != [] {
      SuffixWellFormed(lines, 1);
      ShownLines(lines[1..]);
      assert lines[0].ending == Unterminated ==> lines[1..] == [];
      ShownCons(lines[0], Rendered(lines[1..]));
    }
  }

  /** A view of a file shows its lines. */
  lemma ShownOfFile(raw: string)
    ensures Lines(LfText(raw)) == ShownAll(RawLines(raw))
  {
    RawWellFormed(raw);
    RawRoundTrip(raw);
    ShownLines(RawLines(raw));
  }

  // ----- inserted lines in a view

  /** The last new line is blank and gets no terminator, so that nothing of it is written. */
  predicate LosesBlank(count: nat, at: nat, block: seq<string>, trailing: bool)
  {
    at == count && !trailing && block != [] && block[|block| - 1] == ""
  }

  /** The last line of the file had no terminator but a carriage return, which the new terminator
      takes in. */
  predicate TakesInCr(lines: seq<EditableLine>, at: nat)
  {
    0 < at <= |lines| && lines[at - 1].ending == Unterminated && EndsInCr(lines[at - 1].text)
  }

  /** A new line as it comes from another file. */
  predicate PlainLine(s: string) { '\n' !in s && !EndsInCr(s) }

  ghost predicate Plain(block: seq<string>)
  {
    forall i | 0 <= i < |block| :: PlainLine(block[i])
  }

  ghost function Spliced<T>(s: seq<T>, at: nat, block: seq<T>): seq<T>
    requires at <= |s|
  {
    s[..at] + block + s[at..]
  }

  lemma {:induction false} BlockShown(block: seq<string>, ending: Ending)
    requires Plain(block) && ending != Unterminated
    ensures ShownAll(Block(block, ending)) == block && AllClosed(Block(block, ending))
  {
    if block != [] {
      PlainTail(block);
      BlockShown(block[1..], ending);
      ShownExactly(EditableLine(block[0], ending));
      ClosedCons(EditableLine(block[0], ending), Block(block[1..], ending));
    }
  }

  lemma PlainTail(block: seq<string>)
    requires Plain(block) && block != []
    ensures PlainLine(block[0]) && Plain(block[1..])
  {
  }

  lemma ClosedCons(line: EditableLine, rest: seq<EditableLine>)
    requires ClosedLine(line) && AllClosed(rest)
    ensures AllClosed([line] + rest) && ([line] + rest)[0] == line && ([line] + rest)[1..] == rest
  {
  }

  /** A line that may stand in front of others. */
  predicate ClosedLine(line: EditableLine) { '\n' !in line.text && line.ending != Unterminated }

  ghost predicate AllClosed(lines: seq<EditableLine>)
  {
    forall i | 0 <= i < |lines| :: ClosedLine(lines[i])
  }

  lemma LaidShown(block: seq<string>, ending: Ending, terminated: bool)
    requires Plain(block) && block != [] && ending != Unterminated
    ensures ShownAll(Laid(block, ending, terminated)) == block
    ensures terminated ==> AllClosed(Laid(block, ending, terminated))
    ensures terminated || block[|block| - 1] != "" ==> WellFormed(Laid(block, ending, terminated))
  {
    var last := |block| - 1;
    var front, line := block[..last], EditableLine(block[last], if terminated then ending else Unterminated);
    assert Plain(front) && '\n' !in line.text && !EndsInCr(line.text);
    LastSplit(block);
    BlockShown(front, ending);
    LastShown(Block(front, ending), line);
    LastLaid(Block(front, ending), line);
  }

  lemma LastShown(front: seq<EditableLine>, line: EditableLine)
    requires '\n' !in line.text && !EndsInCr(line.text)
    ensures ShownAll(front + [line]) == ShownAll(front) + [line.text]
  {
    ShownExactly(line);
    ShownAppend(front, [line]);
  }

  lemma LastLaid(front: seq<EditableLine>, line: EditableLine)
    requires AllClosed(front) && '\n' !in line.text
    ensures line.ending != Unterminated ==> AllClosed(front + [line])
    ensures line.ending != Unterminated || line.text != "" ==> WellFormed(front + [line])
  {
  }

  lemma ClosedShown(front: seq<EditableLine>, ending: Ending)
    requires WellFormed(front) && ending != Unterminated
    ensures AllClosed(Closed(front, ending)) && |Closed(front, ending)| == |front|
    ensures ShownAll(Closed(front, ending)) == ShownAll(front) <==> !TakesInCr(front, |front|)
  {
    if front != [] {
      var inner, last := front[..|front| - 1], front[|front| - 1];
      LastSplit(front);
      InnerIsClosed(front, inner);
      if last.ending == Unterminated {
        LastIsClosed(inner, EditableLine(last.text, ending));
        TerminatedShown(inner, last, ending);
      } else {
        LastIsClosed(inner, last);
      }
    }
  }

  lemma InnerIsClosed(front: seq<EditableLine>, inner: seq<EditableLine>)
    requires WellFormed(front) && front != [] && inner == front[..|front| - 1]
    ensures AllClosed(inner) && '\n' !in front[|front| - 1].text
  {
  }

  lemma LastIsClosed(inner: seq<EditableLine>, last: EditableLine)
    requires AllClosed(inner) && ClosedLine(last)
    ensures AllClosed(inner + [last])
  {
  }

  lemma TerminatedShown(inner: seq<EditableLine>, last: EditableLine, ending: Ending)
    requires '\n' !in last.text && last.ending == Unterminated && ending != Unterminated
    ensures ShownAll(inner + [EditableLine(last.text, ending)]) == ShownAll(inner + [last]) <==> !EndsInCr(last.text)
  {
    var closed := EditableLine(last.text, ending);
    ShownExactly(last);
    ShownExactly(closed);
    ShownAppend(inner, [closed]);
    ShownAppend(inner, [last]);
    assert ShownAll([closed]) == [Shown(closed)] && ShownAll([last]) == [Shown(last)];
    SameLast(ShownAll(inner), Shown(closed), Shown(last));
  }

  lemma SameLast<T>(p: seq<T>, x: T, y: T)
    ensures p + [x] == p + [y] <==> x == y
  {
    assert (p + [x])[|p|] == x && (p + [y])[|p|] == y;
  }

  lemma ClosedThen(front: seq<EditableLine>, rest: seq<EditableLine>)
    requires AllClosed(front) && WellFormed(rest)
    ensures WellFormed(front + rest)
  {
  }

  /** Where lines are lost, the last of them is. */
  lemma LostShown(lines: seq<EditableLine>)
    requires AllClosed(lines)
    ensures Lines(LfText(Rendered(lines + [EditableLine("", Unterminated)]))) == ShownAll(lines)
  {
    RenderedAppend(lines, [EditableLine("", Unterminated)]);
    assert [EditableLine("", Unterminated)][1..] == [];
    assert Rendered([EditableLine("", Unterminated)]) == "";
    CatEmpty(Rendered(lines));
    ClosedThen(lines, []);
    CatEmpty(lines);
    ShownLines(lines);
  }

  lemma {:induction false} RenderedAppend(p: seq<EditableLine>, q: seq<EditableLine>)
    ensures Rendered(p + q) == Rendered(p) + Rendered(q)
  {
    if p == [] {
      assert p + q == q;
    } else {
      assert (p + q)[1..] == p[1..] + q;
      RenderedAppend(p[1..], q);
      Cat(p[0].text + EndingText(p[0].ending), Rendered(p[1..]), Rendered(q));
    }
  }

  /** A view of the written file shows the old lines with the new ones among them, exactly if no blank
      line and no carriage return is lost at the end of the old text. */
  lemma InsertionShows(lines: seq<EditableLine>, ending: Ending, at: nat, block: seq<string>, trailing: bool)
    requires WellFormed(lines) && ending != Unterminated && at <= |lines| && Plain(block) && block != []
    ensures var shown := Lines(LfText(Rendered(Inserted(lines, ending, at, block, trailing))));
            shown == Spliced(ShownAll(lines), at, block)
            <==> !LosesBlank(|lines|, at, block, trailing) && !TakesInCr(lines, at)
  {
    var front, rest, all := lines[..at], lines[at..], Inserted(lines, ending, at, block, trailing);
    ShownParts(lines, at, front, rest);
    HalvesWellFormed(lines, at, front, rest);
    BetweenShows(front, rest, ending, block, at < |lines| || trailing, all);
  }

  lemma BetweenShows(front: seq<EditableLine>, rest: seq<EditableLine>, ending: Ending, block: seq<string>,
                     terminated: bool, all: seq<EditableLine>)
    requires WellFormed(front) && WellFormed(rest) && Plain(block) && block != [] && ending != Unterminated
    requires terminated || rest == []
    requires all == Closed(front, ending) + Laid(block, ending, terminated) + rest
    ensures Lines(LfText(Rendered(all))) == ShownAll(front) + block + ShownAll(rest)
       <==> (terminated || block[|block| - 1] != "") && !TakesInCr(front, |front|)
  {
    var closed := Closed(front, ending);
    ClosedShown(front, ending);
    if !terminated && block[|block| - 1] == "" {
      LostInsertion(closed, block, ending, all, rest);
    } else {
      LaidThenKept(closed, block, ending, terminated, rest, all);
      SameFront(ShownAll(closed), ShownAll(front), block, ShownAll(rest));
    }
  }

  lemma LaidThenKept(closed: seq<EditableLine>, block: seq<string>, ending: Ending, terminated: bool,
                     rest: seq<EditableLine>, all: seq<EditableLine>)
    requires Plain(block) && block != [] && ending != Unterminated && AllClosed(closed) && WellFormed(rest)
    requires terminated || (rest == [] && block[|block| - 1] != "")
    requires all == closed + Laid(block, ending, terminated) + rest
    ensures Lines(LfText(Rendered(all))) == ShownAll(closed) + block + ShownAll(rest)
  {
    LaidShown(block, ending, terminated);
    KeptShown(closed, Laid(block, ending, terminated), rest, terminated, all);
  }

  lemma KeptShown(closed: seq<EditableLine>, laid: seq<EditableLine>, rest: seq<EditableLine>, terminated: bool,
                  all: seq<EditableLine>)
    requires AllClosed(closed) && WellFormed(laid) && WellFormed(rest) && (terminated ==> AllClosed(laid))
    requires (!terminated ==> rest == []) && all == closed + laid + rest
    ensures Lines(LfText(Rendered(all))) == ShownAll(closed) + ShownAll(laid) + ShownAll(rest)
  {
    assert WellFormed(all) by { InsertedWellFormed(closed, laid, rest, terminated); }
    ShownLines(all);
    assert ShownAll(all) == ShownAll(closed) + ShownAll(laid) + ShownAll(rest) by {
      ShownAppend(closed + laid, rest);
      ShownAppend(closed, laid);
    }
  }

  lemma HalvesWellFormed(lines: seq<EditableLine>, at: nat, front: seq<EditableLine>, rest: seq<EditableLine>)
    requires WellFormed(lines) && at <= |lines| && front == lines[..at] && rest == lines[at..]
    ensures WellFormed(front) && WellFormed(rest)
  {
    SuffixWellFormed(lines, at);
  }

  lemma ShownParts(lines: seq<EditableLine>, at: nat, front: seq<EditableLine>, rest: seq<EditableLine>)
    requires at <= |lines| && front == lines[..at] && rest == lines[at..]
    ensures ShownAll(lines)[..at] == ShownAll(front) && ShownAll(lines)[at..] == ShownAll(rest)
  {
    assert front + rest == lines;
    ShownAppend(front, rest);
  }

  lemma InsertedWellFormed(closed: seq<EditableLine>, laid: seq<EditableLine>, rest: seq<EditableLine>,
                           terminated: bool)
    requires AllClosed(closed) && WellFormed(laid) && WellFormed(rest) && (terminated ==> AllClosed(laid))
    requires !terminated ==> rest == []
    ensures WellFormed(closed + laid + rest)
  {
    Cat(closed, laid, rest);
    CatEmpty(laid);
    if terminated {
      ClosedThen(laid, rest);
    }
    ClosedThen(closed, laid + rest);
  }

  lemma LostInsertion(closed: seq<EditableLine>, block: seq<string>, ending: Ending, all: seq<EditableLine>,
                      rest: seq<EditableLine>)
    requires AllClosed(closed) && Plain(block) && ending != Unterminated && rest == []
    requires block != [] && block[|block| - 1] == "" && all == closed + Laid(block, ending, false) + rest
    ensures |Lines(LfText(Rendered(all)))| == |closed| + |block| - 1
  {
    var last := |block| - 1;
    assert Plain(block[..last]);
    BlockShown(block[..last], ending);
    var kept := closed + Block(block[..last], ending);
    Cat(closed, Block(block[..last], ending), [EditableLine("", Unterminated)]);
    CatEmpty(closed + Laid(block, ending, false));
    assert AllClosed(kept);
    LostShown(kept);
  }

  lemma SameFront<T>(p: seq<T>, q: seq<T>, m: seq<T>, r: seq<T>)
    requires |p| == |q|
    ensures p + m + r == q + m + r <==> p == q
  {
    if p + m + r == q + m + r {
      assert p == (p + m + r)[..|p|] == (q + m + r)[..|q|] == q;
    }
  }

  // ----- what is copied, and where it goes

  predicate InRange(source: string, first: nat, last: nat) { 1 <= first <= last <= |RawLines(source)| }

  /** The lines first to last of a text. */
  ghost function CopiedLines(source: string, first: nat, last: nat): (block: seq<string>)
    requires InRange(source, first, last)
    ensures |block| == last - first + 1
  {
    TrimAll(Texts(RawLines(source))[first - 1..last])
  }

  /** The copied text ends in a newline if it is the end of a text that does; otherwise the copied
      lines are joined. */
  ghost function CopiedText(source: string, first: nat, last: nat): string
    requires InRange(source, first, last)
  {
    var block := CopiedLines(source, first, last);
    if last == |RawLines(source)| && EndsWithNewline(source) then Join(block) + "\n" else Join(block)
  }

  datatype Place = AtEnd | After(line: nat)

  function PositionOf(place: Place, count: nat): nat { if place.AtEnd? then count else place.line }

  /** Whether the text is to end in a newline. */
  ghost predicate Trailing(target: string, source: string, first: nat, last: nat, place: Place)
    requires InRange(source, first, last)
  {
    EndsWithNewline(if target == "" || place.AtEnd? then CopiedText(source, first, last) else target)
  }

  /** The text that a copy leaves. */
  ghost function Extended(target: string, source: string, first: nat, last: nat, place: Place): string
    requires InRange(source, first, last) && PositionOf(place, |RawLines(target)|) <= |RawLines(target)|
  {
    var lines := RawLines(target);
    Rendered(Inserted(lines, DominantEnding(lines), PositionOf(place, |lines|), CopiedLines(source, first, last),
                      Trailing(target, source, first, last, place)))
  }

  lemma {:induction false} TrimmedIsPlain(s: string)
    requires '\n' !in s
    ensures PlainLine(TrimEndCr(s)) && TrimEndCr(TrimEndCr(s)) == TrimEndCr(s)
  {
    if EndsInCr(s) {
      TrimmedIsPlain(s[..|s| - 1]);
    }
  }

  lemma {:induction false} TrimAllIsPlain(pieces: seq<string>)
    requires forall i | 0 <= i < |pieces| :: '\n' !in pieces[i]
    ensures Plain(TrimAll(pieces)) && TrimAll(TrimAll(pieces)) == TrimAll(pieces)
  {
    if pieces != [] {
      TrimmedIsPlain(pieces[0]);
      TrimAllIsPlain(pieces[1..]);
    }
  }

  lemma CopiedIsPlain(source: string, first: nat, last: nat)
    requires InRange(source, first, last)
    ensures Plain(CopiedLines(source, first, last))
    ensures TrimAll(CopiedLines(source, first, last)) == CopiedLines(source, first, last)
  {
    RawWellFormed(source);
    TrimAllIsPlain(Texts(RawLines(source))[first - 1..last]);
  }

  lemma {:induction false} JoinedEnd(block: seq<string>)
    requires Plain(block) && block != []
    ensures EndsWithNewline(Join(block)) <==> |block| > 1 && block[|block| - 1] == ""
    ensures |block| > 1 ==> Join(block) != ""
  {
    PlainTail(block);
    if |block| > 1 {
      JoinedEnd(block[1..]);
      if |block| == 2 {
        assert block[1..] == [block[1]] && Join(block[1..]) == block[1];
      }
    }
  }

  /** Copied text ends in a newline exactly if its source does so there, or if its last line is blank
      and not its only one. */
  lemma CopiedEnd(source: string, first: nat, last: nat)
    requires InRange(source, first, last)
    ensures EndsWithNewline(CopiedText(source, first, last))
       <==> (last == |RawLines(source)| && EndsWithNewline(source))
            || (first < last && CopiedLines(source, first, last)[last - first] == "")
  {
    CopiedIsPlain(source, first, last);
    JoinedEnd(CopiedLines(source, first, last));
  }

  /** The copied lines are the source's lines as a view of it shows them, in order and from the first named
      on, without carriage returns at their ends; so a client that holds the source knows them. */
  lemma SourceTellsCopied(source: string, first: nat, last: nat, k: nat)
    requires InRange(source, first, last) && k <= last - first
    ensures |Lines(LfText(source))| == |RawLines(source)|
    ensures CopiedLines(source, first, last)[k] == TrimEndCr(Lines(LfText(source))[first - 1 + k])
  {
    var lines, at := RawLines(source), first - 1 + k;
    ShownOfFile(source);
    CopiedAt(source, first, last, k, at);
    ShownAt(lines, at);
    assert '\n' !in lines[at].text by { RawWellFormed(source); }
    ShownTrims(lines[at]);
  }

  lemma CopiedAt(source: string, first: nat, last: nat, k: nat, at: nat)
    requires InRange(source, first, last) && k <= last - first && at == first - 1 + k
    ensures CopiedLines(source, first, last)[k] == TrimEndCr(RawLines(source)[at].text)
  {
    var copied := Texts(RawLines(source))[first - 1..last];
    assert copied[k] == Texts(RawLines(source))[at];
    TrimmedAt(copied, k);
  }

  lemma {:induction false} TrimmedAt(pieces: seq<string>, k: nat)
    requires k < |pieces|
    ensures TrimAll(pieces)[k] == TrimEndCr(pieces[k])
  {
    if k > 0 {
      TrimmedAt(pieces[1..], k - 1);
    }
  }

  lemma {:induction false} ShownAt(lines: seq<EditableLine>, k: nat)
    requires k < |lines|
    ensures ShownAll(lines)[k] == Shown(lines[k])
  {
    if k > 0 {
      ShownAt(lines[1..], k - 1);
    }
  }

  /** A view takes at most carriage returns off the end of a line. */
  lemma ShownTrims(line: EditableLine)
    requires '\n' !in line.text
    ensures TrimEndCr(Shown(line)) == TrimEndCr(line.text)
  {
    if line.ending == Unterminated || !EndsInCr(line.text) {
      ShownExactly(line);
    } else {
      var read := ParseLine(line.text + EndingText(line.ending)).text;
      assert TrimEndCr(read) == TrimEndCr(line.text) by { ReadTrims(line); }
      ReadTrims(EditableLine(read, Lf));
    }
  }

  lemma ReadTrims(line: EditableLine)
    requires '\n' !in line.text && line.ending != Unterminated
    ensures var read := ParseLine(line.text + EndingText(line.ending));
            && TrimEndCr(read.text) == TrimEndCr(line.text) && read.ending != Unterminated && '\n' !in read.text
  {
    var piece := line.text + EndingText(line.ending);
    if line.ending == Crlf {
      assert piece[..|piece| - 2] == line.text;
    } else {
      assert piece[..|piece| - 1] == line.text;
      if EndsInCr(line.text) {
        assert piece[..|piece| - 2] == line.text[..|line.text| - 1];
      }
    }
  }

  /** A view of the file written shows its old lines with the copied ones among them, exactly if no
      blank line and no carriage return is lost at the end of the old text. */
  lemma ExtractionShows(target: string, source: string, first: nat, last: nat, place: Place)
    requires InRange(source, first, last) && PositionOf(place, |RawLines(target)|) <= |RawLines(target)|
    ensures |Lines(LfText(target))| == |RawLines(target)|
    ensures var lines, block := RawLines(target), CopiedLines(source, first, last);
            var at := PositionOf(place, |lines|);
            Lines(LfText(Extended(target, source, first, last, place))) == Spliced(Lines(LfText(target)), at, block)
            <==> !LosesBlank(|lines|, at, block, Trailing(target, source, first, last, place)) && !TakesInCr(lines, at)
  {
    var lines := RawLines(target);
    RawWellFormed(target);
    ShownOfFile(target);
    CopiedIsPlain(source, first, last);
    InsertionShows(lines, DominantEnding(lines), PositionOf(place, |lines|), CopiedLines(source, first, last),
                   Trailing(target, source, first, last, place));
  }

  /** How the file written ends: as it did if lines were copied into it, and otherwise as the copied text
      does, unless a place at the end was named by an id; then as the file did. */
  lemma ExtensionEnds(target: string, source: string, first: nat, last: nat, place: Place)
    requires InRange(source, first, last) && PositionOf(place, |RawLines(target)|) <= |RawLines(target)|
    requires PositionOf(place, |RawLines(target)|) < |RawLines(target)|
             || CopiedLines(source, first, last)[last - first] != ""
    ensures EndsWithNewline(Extended(target, source, first, last, place))
       <==> EndsWithNewline(if PositionOf(place, |RawLines(target)|) == |RawLines(target)|
                                && (place.AtEnd? || target == "")
                            then CopiedText(source, first, last) else target)
  {
    var lines, at, trailing := RawLines(target), PositionOf(place, |RawLines(target)|),
                               Trailing(target, source, first, last, place);
    assert EndsWithNewline(Extended(target, source, first, last, place))
      <==> if at < |lines| then lines[|lines| - 1].ending != Unterminated else trailing by {
      RawWellFormed(target);
      CopiedIsPlain(source, first, last);
      InsertionEnds(lines, DominantEnding(lines), at, CopiedLines(source, first, last), trailing);
    }
    RawLast(target, lines);
  }

  lemma RawLast(raw: string, lines: seq<EditableLine>)
    requires lines == RawLines(raw)
    ensures lines == [] <==> raw == ""
    ensures lines != [] ==> (lines[|lines| - 1].ending != Unterminated <==> EndsWithNewline(raw))
  {
    RawWellFormed(raw);
    if raw != "" {
      RawEnds(raw);
    }
  }

  lemma InsertionEnds(lines: seq<EditableLine>, ending: Ending, at: nat, block: seq<string>, trailing: bool)
    requires WellFormed(lines) && ending != Unterminated && at <= |lines| && Plain(block) && block != []
    requires at < |lines| || block[|block| - 1] != ""
    ensures EndsWithNewline(Rendered(Inserted(lines, ending, at, block, trailing)))
       <==> if at < |lines| then lines[|lines| - 1].ending != Unterminated else trailing
  {
    var closed, laid := Closed(lines[..at], ending), Laid(block, ending, at < |lines| || trailing);
    if at < |lines| {
      SuffixWellFormed(lines, at);
      EndsAsLast(closed + laid, lines[at..]);
    } else {
      LaidShown(block, ending, trailing);
      EndsAsLast(closed, laid);
      assert lines[at..] == [];
      CatEmpty(closed + laid);
    }
  }

  lemma EndsAsLast(front: seq<EditableLine>, rest: seq<EditableLine>)
    requires rest != [] && WellFormed(rest)
    ensures EndsWithNewline(Rendered(front + rest)) <==> rest[|rest| - 1].ending != Unterminated
  {
    var last := rest[|rest| - 1];
    var before := front + rest[..|rest| - 1];
    LastSplit(rest);
    Cat(front, rest[..|rest| - 1], [last]);
    RenderedAppend(before, [last]);
    assert [last][1..] == [] && Rendered([last]) == last.text + EndingText(last.ending) + "";
    var piece := last.text + EndingText(last.ending);
    assert Rendered([last]) == piece;
    PieceOfLine(last, piece);
    assert Rendered(front + rest)[|Rendered(front + rest)| - 1] == piece[|piece| - 1];
  }

  /** Copying one blank line, not the end of its file, to the end of a file that ends in a newline
      leaves that file as it was. */
  lemma BlankLineIsLost(target: string, source: string, k: nat)
    requires InRange(source, k, k) && CopiedLines(source, k, k) == [""] && EndsWithNewline(target)
    requires k < |RawLines(source)| || !EndsWithNewline(source)
    ensures Extended(target, source, k, k, AtEnd) == target
  {
    var lines := RawLines(target);
    CopiedEnd(source, k, k);
    RawRoundTrip(target);
    RawEnds(target);
    BlankInserted(lines, DominantEnding(lines));
  }

  lemma BlankInserted(lines: seq<EditableLine>, ending: Ending)
    requires lines != [] && lines[|lines| - 1].ending != Unterminated
    ensures Rendered(Inserted(lines, ending, |lines|, [""], false)) == Rendered(lines)
  {
    var blank := [EditableLine("", Unterminated)];
    assert Inserted(lines, ending, |lines|, [""], false) == lines + blank by {
      assert lines[..|lines|] == lines && lines[|lines|..] == [] && [""][..0] == [];
    }
    RenderedAppend(lines, blank);
    assert blank[1..] == [] && Rendered(blank) == "";
    CatEmpty(Rendered(lines));
  }

  lemma {:induction false} RawEnds(raw: string)
    requires raw != ""
    ensures RawLines(raw) != []
    ensures RawLines(raw)[|RawLines(raw)| - 1].ending != Unterminated <==> EndsWithNewline(raw)
    decreases |raw|
  {
    SplitHead(raw);
    var piece := SplitInclusive(raw)[0];
    var rest := raw[|piece|..];
    ParsePiece(piece);
    assert RawLines(raw) == [ParseLine(piece)] + RawLines(rest);
    if rest != "" {
      RawEnds(rest);
    }
  }

  // ----- what the client is shown of the copied lines

  const ECHO_MAX := 30

  datatype EchoItem = Line(number: nat, text: string) | More(count: nat)

  function Numbered(block: seq<string>, first: nat): (r: seq<EchoItem>)
    ensures |r| == |block| && forall i | 0 <= i < |r| :: r[i] == Line(first + i, block[i])
  {
    seq(|block|, i requires 0 <= i < |block| => Line(first + i, block[i]))
  }

  /** The echo of the copied lines: all of them if they are few, or the first 20 and the last 9. */
  function Echo(block: seq<string>, first: nat): seq<EchoItem>
  {
    var shown := Numbered(block, first);
    var head := ECHO_MAX * 2 / 3;
    var tail := ECHO_MAX - head - 1;
    if |block| <= ECHO_MAX then shown
    else shown[..head] + [More(|block| - head - tail)] + shown[|block| - tail..]
  }

  /** Every line in the echo is shown with its own number, those in front of the marker from the first copied
      line on and those behind it up to the last, and the marker tells how many are not shown. */
  lemma EchoIsTrue(block: seq<string>, first: nat, i: nat)
    requires i < |Echo(block, first)|
    ensures var echo := Echo(block, first);
            && (forall k | 0 <= k <= i :: echo[k].Line?) ==> i < |block| && echo[i] == Line(first + i, block[i])
    ensures var echo := Echo(block, first);
            var k := |block| - (|echo| - i);
            (forall k | i <= k < |echo| :: echo[k].Line?) ==> 0 <= k && echo[i] == Line(first + k, block[k])
    ensures Echo(block, first)[i].More? ==> Echo(block, first)[i].count == |block| - (|Echo(block, first)| - 1)
  {
    if |block| > ECHO_MAX {
      assert Echo(block, first)[20].More?;
    }
  }

  /** The echo tells the copied lines exactly if they are no more than 30. */
  lemma EchoTellsExactly(block: seq<string>, first: nat)
    ensures (forall other :: Echo(other, first) == Echo(block, first) ==> other == block) <==> |block| <= ECHO_MAX
  {
    if |block| <= ECHO_MAX {
      forall other | Echo(other, first) == Echo(block, first)
        ensures other == block
      {
        EchoOfFew(block, other, first);
      }
    } else {
      var other := block[20 := block[20] + "x"];
      EchoOfMany(block, other, first);
      assert other[20] != block[20];
    }
  }

  lemma EchoOfMany(block: seq<string>, other: seq<string>, first: nat)
    requires |block| > ECHO_MAX && |other| == |block|
    requires forall k | 0 <= k < |block| && k != 20 :: other[k] == block[k]
    ensures Echo(other, first) == Echo(block, first)
  {
    var p, q := Numbered(block, first), Numbered(other, first);
    assert p[..20] == q[..20];
    assert p[|block| - 9..] == q[|block| - 9..];
  }

  lemma EchoHidesExactly(block: seq<string>, first: nat)
    ensures (exists item :: item in Echo(block, first) && item.More?) <==> |block| > ECHO_MAX
  {
    if |block| > ECHO_MAX {
      assert Echo(block, first)[20] == More(|block| - ECHO_MAX + 1);
    }
  }

  lemma EchoOfFew(block: seq<string>, other: seq<string>, first: nat)
    requires |block| <= ECHO_MAX && Echo(other, first) == Echo(block, first)
    ensures other == block
  {
    EchoHidesExactly(block, first);
    EchoHidesExactly(other, first);
    forall i | 0 <= i < |block|
      ensures other[i] == block[i]
    {
      assert Numbered(block, first)[i] == Numbered(other, first)[i];
    }
  }

  // ----- the call

  datatype ExtractError = BadPlace | NoSource | BadStart | BadEnd | Backward | StalePlace

  /** A line number counted from either end. */
  function ResolveIndex(n: int, total: nat): (r: Option<nat>)
    ensures r.Some? <==> 1 <= n <= total || 1 <= -n <= total
    ensures r.Some? ==> 1 <= r.value <= total
  {
    if 1 <= n <= total then Some(n) else if 1 <= -n <= total then Some(total + n + 1) else None
  }

  function ResolveLine(e: Endpoint, texts: seq<string>, hash: string -> string): (r: Option<nat>)
    ensures r.Some? ==> 1 <= r.value <= |texts|
  {
    match e
    case Number(n) => ResolveIndex(n, |texts|)
    case Id(line, h) => if BatchOps.IdMatches(line, h, texts, hash) then Some(line) else None
  }

  /** Lines go to the start, the end or behind a line named by its id. */
  function ResolvePlace(e: Endpoint, texts: seq<string>, hash: string -> string): (r: Option<Place>)
    ensures r.Some? ==> PositionOf(r.value, |texts|) <= |texts|
  {
    match e
    case Number(n) => if n == 0 then Some(After(0)) else if n == -1 then Some(AtEnd) else None
    case Id(line, h) => if BatchOps.IdMatches(line, h, texts, hash) then Some(After(line)) else None
  }

  /** The range to copy and its place, or the first thing wrong with the request. */
  function Checked(source: Option<string>, target: string, from: Endpoint, to: Option<Endpoint>, append: Endpoint,
                   hash: string -> string): (r: Result<(nat, nat, Place), ExtractError>)
    ensures r.Ok? ==>
              source.Some? && InRange(source.value, r.value.0, r.value.1)
              && PositionOf(r.value.2, |RawLines(target)|) <= |RawLines(target)|
  {
    if append.Number? && append.n != 0 && append.n != -1 then Err(BadPlace)
    else if source.None? then Err(NoSource)
    else
      var texts := Texts(RawLines(source.value));
      var first := ResolveLine(from, texts, hash);
      var last := ResolveLine(if to.Some? then to.value else from, texts, hash);
      if first.None? then Err(BadStart)
      else if last.None? then Err(BadEnd)
      else if first.value > last.value then Err(Backward)
      else
        var place := ResolvePlace(append, Texts(RawLines(target)), hash);
        if place.None? then Err(StalePlace) else Ok((first.value, last.value, place.value))
  }

  // ----- what the request names

  /** The line that an endpoint names: by number from the start, by negative number from the end, or by id. */
  ghost predicate NamesLine(e: Endpoint, texts: seq<string>, hash: string -> string, line: nat)
  {
    && 1 <= line <= |texts|
    && match e
       case Number(n) => (n > 0 && |texts[..line]| == n) || (n < 0 && |texts[line - 1..]| == -n)
       case Id(at, h) => at == line && hash(texts[line - 1]) == h
  }

  lemma ResolvesLineExactly(e: Endpoint, texts: seq<string>, hash: string -> string, line: nat)
    ensures ResolveLine(e, texts, hash) == Some(line) <==> NamesLine(e, texts, hash, line)
  {
  }

  /** A place is found exactly if the endpoint names a gap of the file, and is that gap; only -1 means the
      end, whatever the file is by then. */
  lemma ResolvesPlaceExactly(e: Endpoint, texts: seq<string>, hash: string -> string)
    ensures var place := ResolvePlace(e, texts, hash);
            && (place.Some? <==> exists gap: nat :: GoesInto(e, texts, hash, gap))
            && (place.Some? ==> GoesInto(e, texts, hash, PositionOf(place.value, |texts|)))
            && (place == Some(AtEnd) <==> e == Number(-1))
  {
    if e.Number? {
      assert e.n == 0 ==> GoesInto(e, texts, hash, 0);
      assert e.n == -1 ==> GoesInto(e, texts, hash, |texts|);
    } else {
      assert Names(e, texts, hash) ==> GoesInto(e, texts, hash, e.line);
    }
  }

  /** Exactly when a request passes, and with what. */
  lemma ChecksExactly(source: Option<string>, target: string, from: Endpoint, to: Option<Endpoint>, append: Endpoint,
                      hash: string -> string, first: nat, last: nat, place: Place)
    ensures var end := if to.Some? then to.value else from;
            var there := Texts(RawLines(target));
            Checked(source, target, from, to, append, hash) == Ok((first, last, place)) <==>
            && source.Some?
            && var here := Texts(RawLines(source.value));
               && NamesLine(from, here, hash, first) && NamesLine(end, here, hash, last) && first <= last
               && GoesInto(append, there, hash, PositionOf(place, |there|)) && (place.AtEnd? <==> append == Number(-1))
  {
    var there := Texts(RawLines(target));
    ResolvesPlaceExactly(append, there, hash);
    if source.Some? {
      var here := Texts(RawLines(source.value));
      ResolvesLineExactly(from, here, hash, first);
      ResolvesLineExactly(if to.Some? then to.value else from, here, hash, last);
      var found := ResolvePlace(append, there, hash);
      if found.Some? {
        SamePlace(append, there, hash, place, found.value);
      }
    }
  }

  lemma SamePlace(e: Endpoint, texts: seq<string>, hash: string -> string, p: Place, q: Place)
    requires GoesInto(e, texts, hash, PositionOf(q, |texts|)) && (q.AtEnd? <==> e == Number(-1))
    ensures GoesInto(e, texts, hash, PositionOf(p, |texts|)) && (p.AtEnd? <==> e == Number(-1)) <==> p == q
  {
  }

  /** The lines named are there, but in the wrong order. */
  ghost predicate NamesBackward(from: Endpoint, end: Endpoint, texts: seq<string>, hash: string -> string)
  {
    exists first: nat, last: nat ::
      NamesLine(from, texts, hash, first) && NamesLine(end, texts, hash, last) && first > last
  }

  /** And what is wrong with every other: the first of these, in this order. */
  lemma FaultsExactly(source: Option<string>, target: string, from: Endpoint, to: Option<Endpoint>, append: Endpoint,
                      hash: string -> string)
    ensures var r := Checked(source, target, from, to, append, hash);
            var end := if to.Some? then to.value else from;
            var here := if source.Some? then Texts(RawLines(source.value)) else [];
            && (r == Err(BadPlace) <==> append.Number? && append.n != 0 && append.n != -1)
            && (r == Err(NoSource) <==> r != Err(BadPlace) && source.None?)
            && (r == Err(BadStart) <==> r != Err(BadPlace) && r != Err(NoSource)
                                        && forall line: nat :: !NamesLine(from, here, hash, line))
            && (r == Err(BadEnd) <==> r != Err(BadPlace) && r != Err(NoSource) && r != Err(BadStart)
                                      && forall line: nat :: !NamesLine(end, here, hash, line))
            && (r == Err(Backward) <==> r != Err(BadPlace) && r != Err(NoSource)
                                        && NamesBackward(from, end, here, hash))
  {
    if source.Some? {
      var here := Texts(RawLines(source.value));
      var end := if to.Some? then to.value else from;
      NoneOrOne(from, here, hash);
      NoneOrOne(end, here, hash);
      BackwardExactly(from, end, here, hash, ResolveLine(from, here, hash), ResolveLine(end, here, hash));
    }
  }

  lemma BackwardExactly(from: Endpoint, end: Endpoint, texts: seq<string>, hash: string -> string, first: Option<nat>,
                        last: Option<nat>)
    requires forall line: nat :: first == Some(line) <==> NamesLine(from, texts, hash, line)
    requires forall line: nat :: last == Some(line) <==> NamesLine(end, texts, hash, line)
    ensures NamesBackward(from, end, texts, hash) <==> first.Some? && last.Some? && first.value > last.value
  {
    if first.Some? && last.Some? {
      assert NamesLine(from, texts, hash, first.value) && NamesLine(end, texts, hash, last.value);
    }
  }

  lemma NoneOrOne(e: Endpoint, texts: seq<string>, hash: string -> string)
    ensures forall line: nat :: ResolveLine(e, texts, hash) == Some(line) <==> NamesLine(e, texts, hash, line)
    ensures ResolveLine(e, texts, hash) == None <==> forall line: nat :: !NamesLine(e, texts, hash, line)
  {
    forall line: nat
      ensures ResolveLine(e, texts, hash) == Some(line) <==> NamesLine(e, texts, hash, line)
    {
      ResolvesLineExactly(e, texts, hash, line);
    }
    var r := ResolveLine(e, texts, hash);
    if r.Some? {
      assert NamesLine(e, texts, hash, r.value);
    }
  }

  datatype Extracted = Extracted(content: string, echo: seq<EchoItem>, note: Option<seq<Part>>)

  /** Copies a range of lines into a file, which is made if it does not exist. The call fails only on
      what is wrong with the request; the note tells every old line how far it moved. */
  method ExtractLines(source: Option<string>, target: Option<string>, from: Endpoint, to: Option<Endpoint>,
                      append: Endpoint, hash: string -> string)
    returns (r: Result<Extracted, ExtractError>)
    ensures var text := if target.Some? then target.value else "";
            match Checked(source, text, from, to, append, hash)
            case Err(e) => r == Err(e)
            case Ok((first, last, place)) =>
              && r.Ok? && r.value.content == Extended(text, source.value, first, last, place)
              && r.value.echo == Echo(CopiedLines(source.value, first, last), first)
              && (r.value.note.Some? ==>
                    r.value.note.value != [] && IsTerse(r.value.note.value, |RawLines(text)|))
              && forall n | 1 <= n <= |RawLines(text)| ::
                   ReadNote(r.value.note, n) == if PositionOf(place, |RawLines(text)|) < n then last - first + 1 else 0
  {
    var text := if target.Some? then target.value else "";
    var request := Checked(source, text, from, to, append, hash);
    if request.Err? {
      return Err(request.error);
    }
    var (first, last, place) := request.value;
    var sourceLines := RawLines(source.value);
    var block := TrimAll(Texts(sourceLines)[first - 1..last]);
    CopiedIsPlain(source.value, first, last);
    var copied := Join(block);
    if last == |sourceLines| && EndsWithNewline(source.value) {
      copied := copied + "\n";
    }
    var at := PositionOf(place, |RawLines(text)|);
    var content := InsertCopied(text, at, block, EndsWithNewline(if text == "" || place.AtEnd? then copied else text));
    var note := CopyNote(|RawLines(text)|, at, |block|);
    r := Ok(Extracted(content, Echo(block, first), note));
  }

  method InsertCopied(text: string, at: nat, block: seq<string>, trailing: bool) returns (content: string)
    requires at <= |RawLines(text)| && TrimAll(block) == block
    ensures content == Rendered(Inserted(RawLines(text), DominantEnding(RawLines(text)), at, block, trailing))
  {
    var edited := new Content.FromRaw(text);
    var inserted := edited.InsertLines(at, block, trailing);
    content := edited.RenderedText();
  }

  method CopyNote(count: nat, at: nat, size: nat) returns (note: Option<seq<Part>>)
    ensures forall n | 1 <= n <= count :: ReadNote(note, n) == if at < n then size else 0
    ensures note.Some? ==> note.value != [] && IsTerse(note.value, count)
  {
    note := MakeShiftNote(count, [Region(at, size)]);
    forall n | 1 <= n <= count
      ensures ReadNote(note, n) == if at < n then size else 0
    {
      SumAppend([], Region(at, size), n);
      assert [] + [Region(at, size)] == [Region(at, size)];
    }
  }
}
