/** The test for operations that bring in lines which already stand next to their target. */
module Repetition {
  import opened BatchOps

  /** The characters that trimming removes. */
  predicate IsWhite(c: char)
  {
    var n := c as int;
    9 <= n <= 13 || n in {0x20, 0x85, 0xA0, 0x1680, 0x2028, 0x2029, 0x202F, 0x205F, 0x3000} || 0x2000 <= n <= 0x200A
  }

  function TrimStart(s: string): string { if s != "" && IsWhite(s[0]) then TrimStart(s[1..]) else s }

  function TrimEnd(s: string): string
  {
    if s != "" && IsWhite(s[|s| - 1]) then TrimEnd(s[..|s| - 1]) else s
  }

  /** The text without any commas and semicolons at its end. */
  function TrimCloser(s: string): string
  {
    if s != "" && s[|s| - 1] in {',', ';'} then TrimCloser(s[..|s| - 1]) else s
  }

  /** Blank lines and single closing brackets repeat without meaning. */
  predicate IsNoise(line: string)
  {
    var trimmed := TrimEnd(TrimStart(line));
    trimmed == "" || TrimCloser(trimmed) in {"}", "]", ")"}
  }

  /** The line repeats the n-th line of the file, which is not noise. */
  predicate RepeatsLine(line: string, texts: seq<string>, n: int)
  {
    1 <= n <= |texts| && line == texts[n - 1] && !IsNoise(texts[n - 1])
  }

  function Least(m: nat, n: nat): nat { if m <= n then m else n }

  /** A replacement that begins with the line before its range or ends with the one after it; an
      inserted line that is the next one, or several lines that all stand there, the last of them
      possibly beyond the end of the file. */
  predicate Repeats(op: Op, texts: seq<string>)
  {
    op.lines != []
    && match op.kind
       case Replacement =>
         RepeatsLine(op.lines[0], texts, First(op) - 1) || RepeatsLine(op.lines[|op.lines| - 1], texts, Last(op) + 1)
       case Insertion =>
         if |op.lines| == 1 then RepeatsLine(op.lines[0], texts, Anchor(op) + 1)
         else
           var n := if Anchor(op) <= |texts| then Least(|op.lines|, |texts| - Anchor(op)) else 0;
           n >= 2 && op.lines[..n] == texts[Anchor(op)..Anchor(op) + n]
  }

  predicate AnyRepeats(ops: seq<Op>, texts: seq<string>)
  {
    exists i :: 0 <= i < |ops| && Repeats(ops[i], texts)
  }

  method FindRepeat(ops: seq<Op>, texts: seq<string>) returns (found: bool)
    ensures found <==> AnyRepeats(ops, texts)
  {
    for i := 0 to |ops|
      invariant forall j | 0 <= j < i :: !Repeats(ops[j], texts)
    {
      if Repeats(ops[i], texts) {
        return true;
      }
    }
    found := false;
  }

  // ----- what a repetition is, in the file that an operation makes

  /** The texts that the operation, by itself, makes of those of a file. */
  ghost function Result(op: Op, texts: seq<string>): seq<string>
    requires Targeted(op, |texts|)
  {
    match op.kind
    case Insertion => texts[..First(op)] + op.lines + texts[First(op)..]
    case Replacement => texts[..First(op) - 1] + op.lines + texts[Last(op)..]
  }

  /** The n-th text of the result stands twice in a row, and is not noise. */
  ghost predicate Doubled(result: seq<string>, n: int)
  {
    1 <= n < |result| && result[n - 1] == result[n] && !IsNoise(result[n])
  }

  /** A replacement is refused exactly if a line at an edge of what it brings would stand twice in a row;
      one inserted line exactly if it would stand twice with the line below it; several exactly if the lines
      below them, as many or to the end of the file but at least two, are the same. */
  lemma RepeatsExactly(op: Op, texts: seq<string>)
    requires Targeted(op, |texts|) && op.lines != []
    ensures var result, n := Result(op, texts), |op.lines|;
            Repeats(op, texts) <==>
            match op.kind
            case Replacement =>
              || (First(op) > 1 && Doubled(result, First(op) - 1))
              || (Last(op) < |texts| && Doubled(result, First(op) - 1 + n))
            case Insertion =>
              var below := result[First(op) + n..];
              if n == 1 then Doubled(result, First(op) + 1)
              else if |below| < n then |below| >= 2 && below <= op.lines else op.lines <= below
  {
    if op.kind == Replacement {
      ReplacementRepeats(op, texts, First(op) - 1, Last(op), Result(op, texts));
    } else {
      InsertionRepeats(op, texts, First(op), Result(op, texts));
    }
  }

  lemma ReplacementRepeats(op: Op, texts: seq<string>, s: nat, e: nat, result: seq<string>)
    requires op.kind == Replacement && First(op) == s + 1 <= Last(op) == e <= |texts| && op.lines != []
    requires result == texts[..s] + op.lines + texts[e..]
    ensures Repeats(op, texts) <==> (s > 0 && Doubled(result, s)) || (e < |texts| && Doubled(result, s + |op.lines|))
  {
    var n := |op.lines|;
    assert s > 0 ==> result[s - 1] == texts[s - 1];
    assert result[s] == op.lines[0] && result[s + n - 1] == op.lines[n - 1];
    assert e < |texts| ==> result[s + n] == texts[e];
  }

  lemma InsertionRepeats(op: Op, texts: seq<string>, g: nat, result: seq<string>)
    requires op.kind == Insertion && First(op) == g <= |texts| && op.lines != []
    requires result == texts[..g] + op.lines + texts[g..]
    ensures var n := |op.lines|;
            var below := result[g + n..];
            Repeats(op, texts) <==>
            if n == 1 then Doubled(result, g + 1)
            else if |below| < n then |below| >= 2 && below <= op.lines else op.lines <= below
  {
    var n := |op.lines|;
    var below := texts[g..];
    assert result[g + n..] == below && result[g] == op.lines[0];
    if n > 1 {
      PrefixesMeet(op.lines, below, texts, g);
    } else {
      assert g < |texts| ==> result[g + 1] == texts[g];
    }
  }

  lemma PrefixesMeet(lines: seq<string>, below: seq<string>, texts: seq<string>, g: nat)
    requires g <= |texts| && below == texts[g..]
    ensures var m := Least(|lines|, |texts| - g);
            lines[..m] == texts[g..g + m] <==> if |below| < |lines| then below <= lines else lines <= below
  {
    var m := Least(|lines|, |texts| - g);
    assert texts[g..g + m] == below[..m];
    assert m == |lines| ==> lines[..m] == lines;
    assert m == |below| ==> below[..m] == below;
  }

  // ----- what noise is

  ghost predicate AllWhite(s: string) { forall i | 0 <= i < |s| :: IsWhite(s[i]) }

  ghost predicate AllClosers(s: string) { forall i | 0 <= i < |s| :: s[i] == ',' || s[i] == ';' }

  /** A line of one closing bracket, commas and semicolons, and white space around them. */
  ghost predicate IsBracketLine(line: string, before: string, bracket: char, tail: string, after: string)
  {
    && line == before + [bracket] + tail + after && AllWhite(before) && AllWhite(after) && AllClosers(tail)
    && (bracket == '}' || bracket == ']' || bracket == ')')
  }

  lemma {:induction false} TrimStartIs(before: string, s: string)
    requires AllWhite(before) && (s == "" || !IsWhite(s[0]))
    ensures TrimStart(before + s) == s
  {
    if before == "" {
      assert before + s == s;
    } else {
      assert (before + s)[1..] == before[1..] + s && (before + s)[0] == before[0];
      TrimStartIs(before[1..], s);
    }
  }

  lemma {:induction false} TrimEndIs(s: string, after: string)
    requires AllWhite(after) && (s == "" || !IsWhite(s[|s| - 1]))
    ensures TrimEnd(s + after) == s
  {
    if after == "" {
      assert s + after == s;
    } else {
      var n := |after| - 1;
      assert (s + after)[..|s| + n] == s + after[..n] && (s + after)[|s| + n] == after[n];
      TrimEndIs(s, after[..n]);
    }
  }

  lemma {:induction false} TrimCloserIs(s: string, tail: string)
    requires AllClosers(tail) && (s == "" || (s[|s| - 1] != ',' && s[|s| - 1] != ';'))
    ensures TrimCloser(s + tail) == s
  {
    if tail == "" {
      assert s + tail == s;
    } else {
      var n := |tail| - 1;
      assert (s + tail)[..|s| + n] == s + tail[..n] && (s + tail)[|s| + n] == tail[n];
      TrimCloserIs(s, tail[..n]);
    }
  }

  lemma {:induction false} StartOf(s: string) returns (before: string)
    ensures AllWhite(before) && s == before + TrimStart(s) && (TrimStart(s) == "" || !IsWhite(TrimStart(s)[0]))
  {
    before := "";
    if s != "" && IsWhite(s[0]) {
      var rest := StartOf(s[1..]);
      before := [s[0]] + rest;
    }
  }

  lemma {:induction false} EndOf(s: string) returns (after: string)
    ensures AllWhite(after) && s == TrimEnd(s) + after && (TrimEnd(s) == "" || !IsWhite(TrimEnd(s)[|TrimEnd(s)| - 1]))
  {
    after := "";
    if s != "" && IsWhite(s[|s| - 1]) {
      var rest := EndOf(s[..|s| - 1]);
      after := rest + [s[|s| - 1]];
    }
  }

  lemma {:induction false} CloserOf(s: string) returns (tail: string)
    ensures AllClosers(tail) && s == TrimCloser(s) + tail
  {
    tail := "";
    if s != "" && s[|s| - 1] in {',', ';'} {
      var rest := CloserOf(s[..|s| - 1]);
      tail := rest + [s[|s| - 1]];
    }
  }

  /** Noise is exactly a line of white space, or one of a closing bracket with any commas and semicolons. */
  lemma NoiseExactly(line: string)
    ensures IsNoise(line) <==>
            AllWhite(line) || exists before, bracket, tail, after :: IsBracketLine(line, before, bracket, tail, after)
  {
    if IsNoise(line) && !AllWhite(line) {
      var before, bracket, tail, after := NoiseIsBracket(line);
    }
    if AllWhite(line) {
      TrimStartIs(line, "");
      assert line + "" == line;
    }
    if before, bracket, tail, after :| IsBracketLine(line, before, bracket, tail, after) {
      BracketIsNoise(line, before, bracket, tail, after);
    }
  }

  lemma NoiseIsBracket(line: string) returns (before: string, bracket: char, tail: string, after: string)
    requires IsNoise(line) && !AllWhite(line)
    ensures IsBracketLine(line, before, bracket, tail, after)
  {
    before := StartOf(line);
    after := EndOf(TrimStart(line));
    var trimmed := TrimEnd(TrimStart(line));
    assert trimmed == "" ==> line == before + after;
    assert trimmed == "" ==> AllWhite(line);
    tail := CloserOf(trimmed);
    bracket := TrimCloser(trimmed)[0];
    assert TrimCloser(trimmed) == [bracket];
    assert line == before + (([bracket] + tail) + after) == before + [bracket] + tail + after;
  }

  lemma BracketIsNoise(line: string, before: string, bracket: char, tail: string, after: string)
    requires IsBracketLine(line, before, bracket, tail, after)
    ensures IsNoise(line)
  {
    var core := [bracket] + tail;
    assert line == before + (core + after) && core[0] == bracket;
    assert (core + after)[0] == bracket;
    TrimStartIs(before, core + after);
    assert core[|core| - 1] == if tail == "" then bracket else tail[|tail| - 1];
    TrimEndIs(core, after);
    TrimCloserIs([bracket], tail);
  }
}
