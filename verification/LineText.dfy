/** Text made of lines, each with its own terminator, and its LF-normalised form. */
module LineText {
  import opened Seqs

  datatype Ending = Unterminated | Lf | Crlf

  datatype EditableLine = EditableLine(text: string, ending: Ending)

  function EndingText(e: Ending): string
  {
    match e
    case Unterminated => ""
    case Lf => "\n"
    case Crlf => "\r\n"
  }

  /** The exact text of the lines. */
  function Rendered(lines: seq<EditableLine>): string
  {
    if lines == [] then "" else lines[0].text + EndingText(lines[0].ending) + Rendered(lines[1..])
  }

  /** The text of the lines with every terminator written as LF. */
  function Normalized(lines: seq<EditableLine>): string
  {
    if lines == [] then "" else LineLf(lines[0]) + Normalized(lines[1..])
  }

  function LineLf(line: EditableLine): (s: string)
  {
    line.text + if line.ending == Unterminated then "" else "\n"
  }

  /** A text with each CRLF turned into LF. */
  function LfText(s: string): string
  {
    if s == "" then ""
    else if |s| > 1 && s[0] == '\r' && s[1] == '\n' then "\n" + LfText(s[2..])
    else [s[0]] + LfText(s[1..])
  }

  /** The index of the first newline, or the length of the text. */
  function FirstNewline(s: string): (n: nat)
    ensures n <= |s|
    ensures forall k | 0 <= k < n :: s[k] != '\n'
    ensures n < |s| ==> s[n] == '\n'
  {
    if s == "" || s[0] == '\n' then 0 else 1 + FirstNewline(s[1..])
  }

  /** The pieces of a text up to and including each newline. */
  function SplitInclusive(s: string): (pieces: seq<string>)
    decreases |s|
  {
    if s == "" then [] else
      var n := FirstNewline(s);
      if n == |s| then [s] else [s[..n + 1]] + SplitInclusive(s[n + 1..])
  }

  /** Cuts the terminator off one piece. */
  function ParseLine(piece: string): EditableLine
  {
    var n := |piece|;
    if n >= 2 && piece[n - 2] == '\r' && piece[n - 1] == '\n' then EditableLine(piece[..n - 2], Crlf)
    else if n >= 1 && piece[n - 1] == '\n' then EditableLine(piece[..n - 1], Lf)
    else EditableLine(piece, Unterminated)
  }

  /** The lines of a raw text with their terminators. */
  function RawLines(raw: string): seq<EditableLine>
  {
    ParseAll(SplitInclusive(raw))
  }

  function ParseAll(pieces: seq<string>): seq<EditableLine>
  {
    if pieces == [] then [] else [ParseLine(pieces[0])] + ParseAll(pieces[1..])
  }

  /** The lines of LF text, all given the same terminator. */
  function LinesWithEnding(content: string, ending: Ending): seq<EditableLine>
  {
    GiveEnding(SplitInclusive(content), ending)
  }

  /** One piece as a line. */
  function GivenEnding(piece: string, ending: Ending): EditableLine
  {
    var n := |piece|;
    if n >= 1 && piece[n - 1] == '\n' then EditableLine(piece[..n - 1], ending) else EditableLine(piece, Unterminated)
  }

  function GiveEnding(pieces: seq<string>, ending: Ending): seq<EditableLine>
  {
    if pieces == [] then [] else [GivenEnding(pieces[0], ending)] + GiveEnding(pieces[1..], ending)
  }

  /** Only the last line may lack a terminator, no text holds a newline, and every line takes up
      at least one character. */
  ghost predicate WellFormed(lines: seq<EditableLine>)
  {
    && (forall i | 0 <= i < |lines| :: '\n' !in lines[i].text)
    && (forall i | 0 <= i < |lines| - 1 :: lines[i].ending != Unterminated)
    && (lines != [] && lines[|lines| - 1].ending == Unterminated ==> lines[|lines| - 1].text != "")
  }

  // ----- incoming text

  /** The pieces of a text between newlines. */
  function Split(s: string): (pieces: seq<string>)
    ensures pieces != []
    decreases |s|
  {
    var n := FirstNewline(s);
    if n == |s| then [s] else [s[..n]] + Split(s[n + 1..])
  }

  function TrimEndCr(s: string): string
  {
    if s != "" && s[|s| - 1] == '\r' then TrimEndCr(s[..|s| - 1]) else s
  }

  function TrimAll(pieces: seq<string>): (r: seq<string>)
    ensures |r| == |pieces|
  {
    if pieces == [] then [] else [TrimEndCr(pieces[0])] + TrimAll(pieces[1..])
  }

  function Join(pieces: seq<string>): string
  {
    if pieces == [] then "" else if |pieces| == 1 then pieces[0] else pieces[0] + "\n" + Join(pieces[1..])
  }

  /** Incoming text without the CRs in front of line ends. */
  function SanitizeIncoming(content: string): string
  {
    Join(TrimAll(Split(content)))
  }

  function Texts(lines: seq<EditableLine>): (r: seq<string>)
    ensures |r| == |lines| && forall i | 0 <= i < |r| :: r[i] == lines[i].text
  {
    if lines == [] then [] else [lines[0].text] + Texts(lines[1..])
  }

  /** The lines of an incoming text, without any terminator bytes. */
  function IncomingLines(content: string): seq<string>
  {
    TrimAll(Texts(RawLines(content)))
  }

  /** Incoming lines with the given terminator. */
  function Block(content: seq<string>, ending: Ending): (r: seq<EditableLine>)
    ensures |r| == |content|
  {
    if content == [] then [] else [EditableLine(content[0], ending)] + Block(content[1..], ending)
  }

  // ----- lemmas on lines and their text

  lemma {:induction false} NormalizedAppend(p: seq<EditableLine>, q: seq<EditableLine>)
    ensures Normalized(p + q) == Normalized(p) + Normalized(q)
  {
    if p == [] {
      assert p + q == q;
    } else {
      assert (p + q)[1..] == p[1..] + q;
      NormalizedAppend(p[1..], q);
    }
  }

  lemma SplitHead(s: string)
    requires s != ""
    ensures var pieces := SplitInclusive(s);
            && pieces != [] && pieces[0] != "" && s == pieces[0] + s[|pieces[0]|..]
            && pieces[1..] == SplitInclusive(s[|pieces[0]|..])
            && '\n' !in pieces[0][..|pieces[0]| - 1]
            && (|pieces[0]| < |s| ==> pieces[0][|pieces[0]| - 1] == '\n')
  {
    var n := FirstNewline(s);
    if n == |s| {
      assert s[|s|..] == "" && [s][1..] == [];
    } else {
      assert s[..n + 1][..n] == s[..n];
      assert s == s[..n + 1] + s[n + 1..];
      assert ([s[..n + 1]] + SplitInclusive(s[n + 1..]))[1..] == SplitInclusive(s[n + 1..]);
    }
  }

  lemma RawLinesCons(piece: string, rest: string)
    requires piece != "" && '\n' !in piece[..|piece| - 1] && (piece[|piece| - 1] != '\n' ==> rest == "")
    ensures RawLines(piece + rest) == [ParseLine(piece)] + RawLines(rest)
  {
    var s := piece + rest;
    var n := FirstNewline(s);
    if piece[|piece| - 1] == '\n' {
      assert s[|piece| - 1] == '\n';
      assert forall k | 0 <= k < |piece| - 1 :: s[k] == piece[..|piece| - 1][k];
      assert n == |piece| - 1 && s[..n + 1] == piece && s[n + 1..] == rest;
    } else {
      assert s == piece && n == |s|;
      assert forall k | 0 <= k < |piece| - 1 :: s[k] == piece[..|piece| - 1][k];
    }
    var pieces := SplitInclusive(s);
    assert pieces == [piece] + SplitInclusive(rest);
    assert pieces[1..] == SplitInclusive(rest);
    var lines := RawLines(s);
    assert lines[1..] == RawLines(rest);
  }

  /** Reading raw text loses nothing: rendering gives it back. */
  lemma {:induction false} RawRoundTrip(raw: string)
    ensures Rendered(RawLines(raw)) == raw
    decreases |raw|
  {
    if raw != "" {
      SplitHead(raw);
      var piece := SplitInclusive(raw)[0];
      var rest := raw[|piece|..];
      RawRoundTrip(rest);
      var line := ParseLine(piece);
      assert RawLines(raw)[0] == line && RawLines(raw)[1..] == RawLines(rest);
      assert line.text + EndingText(line.ending) == piece by { ParsePiece(piece); }
      assert Rendered(RawLines(raw)) == line.text + EndingText(line.ending) + Rendered(RawLines(rest));
    }
  }

  /** Text without newlines is kept as it is, unless its final CR meets a newline. */
  lemma {:induction false} LfTextPlain(t: string, rest: string)
    requires '\n' !in t
    requires t != "" && t[|t| - 1] == '\r' ==> rest == "" || rest[0] != '\n'
    ensures LfText(t + rest) == t + LfText(rest)
    decreases |t|
  {
    if t == "" {
      assert t + rest == rest;
    } else {
      var s := t + rest;
      assert s[1..] == t[1..] + rest;
      LfTextPlain(t[1..], rest);
    }
  }

  /** What cutting the terminator off a piece leaves. */
  lemma ParsePiece(piece: string)
    requires piece != "" && '\n' !in piece[..|piece| - 1]
    ensures var EditableLine(text, ending) := ParseLine(piece);
            && piece == text + EndingText(ending) && '\n' !in text
            && (ending == Lf && text != "" ==> text[|text| - 1] != '\r')
            && (ending == Unterminated ==> text == piece && piece[|piece| - 1] != '\n')
  {
    var front := piece[..|piece| - 1];
    var text := ParseLine(piece).text;
    assert piece == front + [piece[|piece| - 1]];
    if ParseLine(piece).ending != Unterminated {
      assert text <= front;
    }
  }

  lemma LfTextEnding(ending: Ending, rest: string)
    ensures var tail := EndingText(ending) + rest;
            && LfText(tail) == (if ending == Unterminated then "" else "\n") + LfText(rest)
            && (ending != Unterminated ==> tail != "" && (tail[0] == '\n' <==> ending == Lf))
            && (ending == Unterminated ==> tail == rest)
  {
    var tail := EndingText(ending) + rest;
    match ending {
      case Unterminated =>
        assert tail == rest;
      case Lf =>
        assert tail[0] == '\n' && tail[1..] == rest;
      case Crlf =>
        assert tail[0] == '\r' && tail[1] == '\n' && tail[2..] == rest;
    }
  }

  lemma LfTextLine(line: string, rest: string)
    requires line != "" && '\n' !in line[..|line| - 1]
    requires line[|line| - 1] != '\n' ==> rest == ""
    ensures LfText(line + rest) == LineLf(ParseLine(line)) + LfText(rest)
  {
    var EditableLine(text, ending) := ParseLine(line);
    var tail := EndingText(ending) + rest;
    ParsePiece(line);
    assert line + rest == text + tail by { Cat(text, EndingText(ending), rest); }
    LfTextEnding(ending, rest);
    assert LfText(text + tail) == text + LfText(tail) by { LfTextPlain(text, tail); }
    Cat(text, if ending == Unterminated then "" else "\n", LfText(rest));
  }

  /** The normalised lines of a raw text are the text with each CRLF turned into LF. */
  lemma {:induction false} RawNormalized(raw: string)
    ensures Normalized(RawLines(raw)) == LfText(raw)
    decreases |raw|
  {
    if raw != "" {
      SplitHead(raw);
      var piece := SplitInclusive(raw)[0];
      RawNormalized(raw[|piece|..]);
      LfTextLine(piece, raw[|piece|..]);
      assert RawLines(raw)[1..] == RawLines(raw[|piece|..]);
    }
  }

  lemma {:induction false} RawWellFormed(raw: string)
    ensures WellFormed(RawLines(raw))
    ensures RawLines(raw) == [] <==> raw == ""
    decreases |raw|
  {
    if raw != "" {
      SplitHead(raw);
      var piece := SplitInclusive(raw)[0];
      var rest := raw[|piece|..];
      RawWellFormed(rest);
      assert RawLines(raw) == [ParseLine(piece)] + RawLines(rest);
      ParsePiece(piece);
      WellFormedCons(ParseLine(piece), RawLines(rest));
    }
  }

  lemma WellFormedCons(line: EditableLine, rest: seq<EditableLine>)
    requires WellFormed(rest) && '\n' !in line.text
    requires line.ending == Unterminated ==> rest == [] && line.text != ""
    ensures WellFormed([line] + rest)
  {
  }

  lemma GivenEndingLine(piece: string, ending: Ending)
    requires piece != "" && '\n' !in piece[..|piece| - 1] && ending != Unterminated
    ensures var line := GivenEnding(piece, ending);
            && LineLf(line) == piece && '\n' !in line.text
            && (line.ending == Unterminated ==> line.text != "" && piece[|piece| - 1] != '\n')
  {
    var front := piece[..|piece| - 1];
    assert piece == front + [piece[|piece| - 1]];
  }

  /** The first line, and the lines of the rest. */
  lemma LinesWithEndingCons(content: string, ending: Ending)
    requires content != "" && ending != Unterminated
    ensures var piece, lines := SplitInclusive(content)[0], LinesWithEnding(content, ending);
            && piece != "" && |piece| <= |content| && content == piece + content[|piece|..] && lines != []
            && LineLf(lines[0]) == piece && '\n' !in lines[0].text
            && (lines[0].ending == Unterminated ==> lines[0].text != "" && content[|piece|..] == "")
            && lines == [lines[0]] + LinesWithEnding(content[|piece|..], ending)
  {
    SplitHead(content);
    var pieces := SplitInclusive(content);
    var rest := GiveEnding(pieces[1..], ending);
    var line := GivenEnding(pieces[0], ending);
    assert LinesWithEnding(content, ending) == [line] + rest;
    assert ([line] + rest)[0] == line;
    GivenEndingLine(pieces[0], ending);
  }

  /** Splitting LF text into lines with a terminator of one kind keeps the text. */
  lemma {:induction false} LinesWithEndingText(content: string, ending: Ending)
    requires ending != Unterminated
    ensures Normalized(LinesWithEnding(content, ending)) == content
    decreases |content|
  {
    if content != "" {
      LinesWithEndingCons(content, ending);
      var rest := content[|SplitInclusive(content)[0]|..];
      LinesWithEndingText(rest, ending);
      var lines := LinesWithEnding(content, ending);
      assert lines[1..] == LinesWithEnding(rest, ending);
    }
  }

  lemma {:induction false} LinesWithEndingWellFormed(content: string, ending: Ending)
    requires ending != Unterminated
    ensures WellFormed(LinesWithEnding(content, ending))
    ensures LinesWithEnding(content, ending) == [] <==> content == ""
    decreases |content|
  {
    if content != "" {
      LinesWithEndingCons(content, ending);
      var rest := content[|SplitInclusive(content)[0]|..];
      LinesWithEndingWellFormed(rest, ending);
      WellFormedCons(LinesWithEnding(content, ending)[0], LinesWithEnding(rest, ending));
    }
  }

  /** Well-formed text is empty only without lines, and ends with a newline exactly if its last
      line is terminated. */
  lemma {:induction false} LastOfNormalized(lines: seq<EditableLine>)
    requires WellFormed(lines) && lines != []
    ensures var s := Normalized(lines);
            && s != ""
            && (s[|s| - 1] == '\n' <==> lines[|lines| - 1].ending != Unterminated)
            && s == Normalized(lines[..|lines| - 1]) + LineLf(lines[|lines| - 1])
  {
    var last := |lines| - 1;
    NormalizedAppend(lines[..last], [lines[last]]);
    assert lines[..last] + [lines[last]] == lines;
    assert [lines[last]][1..] == [];
    assert Normalized([lines[last]]) == LineLf(lines[last]);
  }

  lemma LastTerminated(content: string, ending: Ending)
    requires ending != Unterminated
    ensures var lines := LinesWithEnding(content, ending);
            && (lines == [] <==> content == "")
            && (lines != [] ==> (lines[|lines| - 1].ending == Unterminated <==> content[|content| - 1] != '\n'))
            && WellFormed(lines)
  {
    LinesWithEndingText(content, ending);
    LinesWithEndingWellFormed(content, ending);
    if content != "" {
      LastOfNormalized(LinesWithEnding(content, ending));
    }
  }

  // ----- what becomes of incoming text

  predicate EndsInCr(s: string) { s != "" && s[|s| - 1] == '\r' }

  /** A trimmed line is what stands in front of the carriage returns at its end. */
  lemma {:induction false} TrimmedExactly(s: string)
    ensures TrimEndCr(s) <= s && !EndsInCr(TrimEndCr(s))
    ensures forall i | |TrimEndCr(s)| <= i < |s| :: s[i] == '\r'
  {
    if EndsInCr(s) {
      TrimmedExactly(s[..|s| - 1]);
    }
  }

  lemma SplitCons(line: string, rest: string)
    requires '\n' !in line
    ensures Split(line + "\n" + rest) == [line] + Split(rest) && Split(line) == [line]
  {
    var s := line + "\n" + rest;
    assert FirstNewline(line) == |line|;
    assert s[|line|] == '\n' && forall k | 0 <= k < |line| :: s[k] == line[k];
    assert s[..|line|] == line && s[|line| + 1..] == rest;
  }

  lemma SanitizeCons(line: string, rest: string)
    requires '\n' !in line
    ensures SanitizeIncoming(line + "\n" + rest) == TrimEndCr(line) + "\n" + SanitizeIncoming(rest)
    ensures SanitizeIncoming(line) == TrimEndCr(line)
  {
    SplitCons(line, rest);
    var pieces := Split(rest);
    assert ([line] + pieces)[1..] == pieces && [line][1..] == [];
    assert ([TrimEndCr(line)] + TrimAll(pieces))[1..] == TrimAll(pieces);
  }

  /** No carriage return stands in front of a newline or at the end. */
  ghost predicate NoLineEndCr(s: string)
  {
    forall i | 0 <= i < |s| && s[i] == '\r' :: i + 1 < |s| && s[i + 1] != '\n'
  }

  /** The text up to the first newline, and what follows it. */
  lemma FirstLine(s: string)
    requires '\n' in s
    ensures var n := FirstNewline(s); n < |s| && s == s[..n] + "\n" + s[n + 1..] && '\n' !in s[..n]
  {
    var i :| 0 <= i < |s| && s[i] == '\n';
    assert FirstNewline(s) <= i;
    CutAt(s, FirstNewline(s));
  }

  lemma CutAt(s: string, n: nat)
    requires n < |s| && s[n] == '\n' && forall k | 0 <= k < n :: s[k] != '\n'
    ensures s == s[..n] + "\n" + s[n + 1..] && '\n' !in s[..n]
  {
  }

  /** Incoming text without carriage returns at line ends is taken as it is. */
  lemma {:induction false} SanitizeKeeps(s: string)
    requires NoLineEndCr(s)
    ensures SanitizeIncoming(s) == s
    decreases |s|
  {
    if '\n' in s {
      var n := FirstNewline(s);
      var line, rest := s[..n], s[n + 1..];
      FirstLine(s);
      assert forall i | 0 <= i < |rest| :: rest[i] == s[n + 1 + i];
      assert !EndsInCr(line);
      SanitizeKeeps(rest);
      SanitizeCons(line, rest);
    } else {
      assert !EndsInCr(s);
      SanitizeCons(s, "");
    }
  }

  /** A carriage return at a line end makes no difference; with SanitizeKeeps, this says what becomes of
      every incoming text. */
  lemma {:induction false} SanitizeDrops(p: string, q: string)
    requires q == "" || q[0] == '\n'
    ensures SanitizeIncoming(p + "\r" + q) == SanitizeIncoming(p + q)
    decreases |p|
  {
    if '\n' in p {
      var n := FirstNewline(p);
      var line, rest := p[..n], p[n + 1..];
      FirstLine(p);
      SanitizeDrops(rest, q);
      Behind(line, rest, "\r" + q, p);
      Behind(line, rest, q, p);
      Cat(rest, "\r", q);
      Cat(p, "\r", q);
      SanitizeCons(line, rest + "\r" + q);
      SanitizeCons(line, rest + q);
    } else {
      SanitizeDropsLast(p, q);
    }
  }

  lemma Behind(line: string, rest: string, tail: string, p: string)
    requires p == line + "\n" + rest
    ensures p + tail == line + "\n" + (rest + tail)
  {
  }

  lemma SanitizeDropsLast(p: string, q: string)
    requires '\n' !in p && (q == "" || q[0] == '\n')
    ensures SanitizeIncoming(p + "\r" + q) == SanitizeIncoming(p + q)
  {
    var line := p + "\r";
    assert line[..|p|] == p && TrimEndCr(line) == TrimEndCr(p);
    if q == "" {
      SanitizeCons(p, "");
      SanitizeCons(line, "");
      CatEmpty(line);
      CatEmpty(p);
    } else {
      SanitizeCons(p, q[1..]);
      SanitizeCons(line, q[1..]);
      assert q == "\n" + q[1..];
      Cat(line, "\n", q[1..]);
      Cat(p, "\n", q[1..]);
    }
  }

  /** The lines of an incoming text, one by one: each without the carriage returns at its end. */
  lemma IncomingLinesCons(line: string, rest: string)
    requires '\n' !in line
    ensures IncomingLines("") == []
    ensures IncomingLines(line + "\n" + rest) == [TrimEndCr(line)] + IncomingLines(rest)
    ensures line != "" ==> IncomingLines(line) == [TrimEndCr(line)]
  {
    RawLinesCons(line + "\n", rest);
    TrimmedPiece(line + "\n", rest, line);
    if line != "" {
      RawLinesCons(line, "");
      TrimmedPiece(line, "", line);
      assert line + "" == line;
    }
  }

  lemma TrimmedPiece(piece: string, rest: string, line: string)
    requires '\n' !in line && (piece == line + "\n" || (piece == line && line != ""))
    requires RawLines(piece + rest) == [ParseLine(piece)] + RawLines(rest)
    ensures IncomingLines(piece + rest) == [TrimEndCr(line)] + IncomingLines(rest)
  {
    var text := ParseLine(piece).text;
    assert piece == line + "\n" ==> piece[..|piece| - 1] == line;
    assert text == line || (EndsInCr(line) && text == line[..|line| - 1]);
    assert TrimEndCr(text) == TrimEndCr(line);
    assert ([ParseLine(piece)] + RawLines(rest))[1..] == RawLines(rest);
    assert Texts(RawLines(piece + rest)) == [text] + Texts(RawLines(rest));
    assert ([text] + Texts(RawLines(rest)))[1..] == Texts(RawLines(rest));
  }
}
