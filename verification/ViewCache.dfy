/** The delta-view cache of one session (`delta.rs`), and how its client reads the answers. */
module ViewCache {
  import opened Wrappers
  import opened LineText
  import opened EditDistance
  import opened DeltaShape
  import opened DeltaRender

  /** Longer texts are not kept. */
  const MAX_CACHED_BYTES := 1024 * 1024

  /** The normalised text that the client last saw in full, per file key. */
  type Entries = map<string, string>

  function Lookup(entries: Entries, key: string): Option<string>
  {
    if key in entries then Some(entries[key]) else None
  }

  function Lines(text: string): seq<string> { Texts(RawLines(text)) }

  function Remembered(entries: Entries, key: string, content: string): Entries
  {
    if |content| > MAX_CACHED_BYTES then entries - {key} else entries[key := content]
  }

  /** A write by this server is remembered only if the client's picture was current before it. */
  function Noted(entries: Entries, key: string, before: string, after: string): Entries
  {
    if Lookup(entries, key) == Some(LfText(before)) then Remembered(entries, key, LfText(after)) else entries - {key}
  }

  /** The answer to a whole-file view. */
  datatype Answer =
    | Unchanged(count: nat)
    | Delta(view: seq<Item<string>>)
    | TooManyChanges(lines: seq<string>)
    | Whole(lines: seq<string>)
    | EmptyFile

  /** The answers allowed for a file whose earlier text, if known, and current text are given. */
  ghost predicate Answers(previous: Option<string>, current: string, a: Answer)
  {
    match previous
    case None => a == if Lines(current) == [] then EmptyFile else Whole(Lines(current))
    case Some(prev) =>
      if prev == current then a == Unchanged(|Lines(current)|)
      else if Distance(Lines(prev), Lines(current)) > MAX_EDIT_DISTANCE then a == TooManyChanges(Lines(current))
      else a.Delta? && Read(Lines(prev), a.view) == Some(Lines(current))
  }

  /** What a client with a picture of the file, or none, takes an answer to say. */
  ghost function ReadAnswer(picture: Option<seq<string>>, a: Answer): Option<seq<string>>
  {
    match a
    case Unchanged(_) => picture
    case Delta(view) => if picture.Some? then Read(picture.value, view) else None
    case TooManyChanges(lines) => Some(lines)
    case Whole(lines) => Some(lines)
    case EmptyFile => Some([])
  }

  /** An answer given against a text that the client holds tells it the current lines. */
  lemma AnswerIsTrue(picture: Option<seq<string>>, previous: Option<string>, current: string, a: Answer)
    requires Answers(previous, current, a)
    requires previous.Some? ==> picture == Some(Lines(previous.value))
    ensures ReadAnswer(picture, a) == Some(Lines(current))
  {
  }

  class Cache {
    var entries: Entries

    constructor ()
      ensures entries == map[]
    {
      entries := map[];
    }

    method Get(key: string) returns (r: Option<string>)
      ensures r == Lookup(entries, key)
    {
      r := if key in entries then Some(entries[key]) else None;
    }

    method Set(key: string, content: string)
      modifies this
      ensures entries == Remembered(old(entries), key, content)
    {
      if |content| > MAX_CACHED_BYTES {
        entries := entries - {key};
      } else {
        entries := entries[key := content];
      }
    }

    method Forget(key: string)
      modifies this
      ensures entries == old(entries) - {key}
    {
      entries := entries - {key};
    }

    method Clear()
      modifies this
      ensures entries == map[]
    {
      entries := map[];
    }
  }

  method NoteWrite(cache: Cache?, key: string, before: string, after: string)
    modifies cache
    ensures cache != null ==> cache.entries == Noted(old(cache.entries), key, before, after)
  {
    if cache != null {
      var known := cache.Get(key);
      if known == Some(LfText(before)) {
        cache.Set(key, LfText(after));
      } else {
        cache.Forget(key);
      }
    }
  }

  method NoteCreate(cache: Cache?, key: string, content: string)
    modifies cache
    ensures cache != null ==> cache.entries == Remembered(old(cache.entries), key, LfText(content))
  {
    if cache != null {
      cache.Set(key, LfText(content));
    }
  }

  /** Answers a whole-file view against the cached text, unless the full text is asked for, and
      remembers the current text. */
  method RenderWholeFile(cache: Cache?, key: string, content: string, full: bool) returns (a: Answer)
    modifies cache
    ensures Answers(if full || cache == null then None else Lookup(old(cache.entries), key), LfText(content), a)
    ensures cache != null ==> cache.entries == Remembered(old(cache.entries), key, LfText(content))
  {
    var current := LfText(content);
    var previous := None;
    if !full && cache != null {
      previous := cache.Get(key);
    }
    if cache != null {
      cache.Set(key, current);
    }
    var newLines := Lines(current);
    if previous.None? {
      return if newLines == [] then EmptyFile else Whole(newLines);
    }
    if previous.value == current {
      return Unchanged(|newLines|);
    }
    var delta := RenderDelta(Lines(previous.value), newLines);
    a := if delta.Some? then Delta(delta.value) else TooManyChanges(newLines);
  }

  // ----- carriage returns that a second normalisation changes

  /** The line's text ends in a carriage return of its own, before its terminator. */
  predicate ExtraCr(line: EditableLine)
  {
    line.ending != Unterminated && line.text != "" && line.text[|line.text| - 1] == '\r'
  }

  ghost predicate NoExtraCr(text: string)
  {
    forall i | 0 <= i < |RawLines(text)| :: !ExtraCr(RawLines(text)[i])
  }

  lemma LinesCons(piece: string, rest: string)
    requires piece != "" && '\n' !in piece[..|piece| - 1] && (piece[|piece| - 1] != '\n' ==> rest == "")
    ensures RawLines(piece + rest) == [ParseLine(piece)] + RawLines(rest)
    ensures Lines(piece + rest) == [ParseLine(piece).text] + Lines(rest)
  {
    RawLinesCons(piece, rest);
    assert RawLines(piece + rest)[1..] == RawLines(rest);
  }

  /** A normalised line parses to the same text unless it has an extra carriage return. */
  lemma ReparseLine(line: EditableLine)
    requires '\n' !in line.text && (line.ending == Unterminated ==> line.text != "")
    ensures var piece := LineLf(line);
            && piece != "" && '\n' !in piece[..|piece| - 1]
            && (piece[|piece| - 1] != '\n' <==> line.ending == Unterminated)
            && (ParseLine(piece).text == line.text <==> !ExtraCr(line))
  {
    var piece := LineLf(line);
    if line.ending != Unterminated {
      assert piece[..|piece| - 1] == line.text;
    } else {
      assert piece == line.text;
    }
  }

  lemma ConsEqual<T>(x: T, y: T, p: seq<T>, q: seq<T>)
    ensures [x] + p == [y] + q <==> x == y && p == q
  {
    assert ([x] + p)[1..] == p && ([y] + q)[1..] == q;
    assert ([x] + p)[0] == x && ([y] + q)[0] == y;
  }

  lemma NoExtraCrCons(text: string, line: EditableLine, rest: string)
    requires RawLines(text) == [line] + RawLines(rest)
    ensures NoExtraCr(text) <==> !ExtraCr(line) && NoExtraCr(rest)
  {
    var lines, others := RawLines(text), RawLines(rest);
    assert lines[0] == line && forall i | 0 <= i < |others| :: lines[i + 1] == others[i];
  }

  /** Normalising leaves the lines of a text as they are exactly if no line has an extra carriage
      return; views and edit results then show the same lines. */
  lemma {:induction false} SameLinesExactlyWithoutExtraCr(text: string)
    ensures Lines(LfText(text)) == Lines(text) <==> NoExtraCr(text)
    decreases |text|
  {
    if text != "" {
      SplitHead(text);
      var piece := SplitInclusive(text)[0];
      var rest := text[|piece|..];
      SameLinesExactlyWithoutExtraCr(rest);
      OneMoreLine(text, piece, rest);
    }
  }

  lemma OneMoreLine(text: string, piece: string, rest: string)
    requires text == piece + rest && piece != "" && '\n' !in piece[..|piece| - 1]
             && (piece[|piece| - 1] != '\n' ==> rest == "")
    requires Lines(LfText(rest)) == Lines(rest) <==> NoExtraCr(rest)
    ensures Lines(LfText(text)) == Lines(text) <==> NoExtraCr(text)
  {
    var line := ParseLine(piece);
    ParsePiece(piece);
    LinesCons(piece, rest);
    NoExtraCrCons(text, line, rest);
    ReparseLine(line);
    assert Lines(LfText(text)) == [ParseLine(LineLf(line)).text] + Lines(LfText(rest)) by {
      LfTextLine(piece, rest);
      LinesCons(LineLf(line), LfText(rest));
    }
    ConsEqual(ParseLine(LineLf(line)).text, line.text, Lines(LfText(rest)), Lines(rest));
  }
}
