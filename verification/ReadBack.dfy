/** Reading a written file back: when the LF text of what was rendered is the text of its lines. */
module ReadBack {
  import opened LineText
  import opened EditableText
  import opened TextReplace

  /** An LF line whose text ends in a carriage return is written as a CRLF line. */
  predicate LooseCr(line: EditableLine)
  {
    line.ending == Lf && line.text != "" && line.text[|line.text| - 1] == '\r'
  }

  ghost predicate NoLooseCr(lines: seq<EditableLine>)
  {
    forall i | 0 <= i < |lines| :: !LooseCr(lines[i])
  }

  /** One line, written and read back in front of others: a loose carriage return is lost. */
  lemma LineReadsBack(line: EditableLine, rest: string)
    requires '\n' !in line.text && (line.ending == Unterminated ==> rest == "")
    ensures var r := LfText((line.text + EndingText(line.ending)) + rest);
            if LooseCr(line) then |r| < |LineLf(line)| + |LfText(rest)| else r == LineLf(line) + LfText(rest)
  {
    var tail := EndingText(line.ending) + rest;
    assert (line.text + EndingText(line.ending)) + rest == line.text + tail;
    LfTextEnding(line.ending, rest);
    if LooseCr(line) {
      LooseReadsBack(line.text, rest, tail);
    } else {
      LfTextPlain(line.text, tail);
      assert line.ending != Unterminated ==> (line.text + "\n") + LfText(rest) == line.text + ("\n" + LfText(rest));
    }
  }

  lemma LooseReadsBack(text: string, rest: string, tail: string)
    requires '\n' !in text && text != "" && text[|text| - 1] == '\r' && tail == "\n" + rest
    ensures |LfText(text + tail)| == |text| + |LfText(rest)|
  {
    var front := text[..|text| - 1];
    assert text + tail == front + ("\r\n" + rest);
    LfTextEnding(Crlf, rest);
    LfTextPlain(front, "\r\n" + rest);
  }

  lemma NoLooseCons(lines: seq<EditableLine>)
    requires lines != []
    ensures NoLooseCr(lines) <==> !LooseCr(lines[0]) && NoLooseCr(lines[1..])
  {
    if !LooseCr(lines[0]) && NoLooseCr(lines[1..]) {
      forall i | 0 <= i < |lines|
        ensures !LooseCr(lines[i])
      {
        if i > 0 {
          assert lines[i] == lines[1..][i - 1];
        }
      }
    }
    if NoLooseCr(lines) {
      forall i | 0 <= i < |lines[1..]|
        ensures !LooseCr(lines[1..][i])
      {
        assert lines[1..][i] == lines[i + 1];
      }
    }
  }

  /** Read back, rendered lines are their text exactly if no LF line ends in a carriage return. */
  lemma {:induction false} ReadsBackExactly(lines: seq<EditableLine>)
    requires WellFormed(lines)
    ensures LfText(Rendered(lines)) == Normalized(lines) <==> NoLooseCr(lines)
    ensures |LfText(Rendered(lines))| <= |Normalized(lines)|
  {
    if lines != [] {
      var line, rest := lines[0], lines[1..];
      SuffixWellFormed(lines, 1);
      ReadsBackExactly(rest);
      assert line.ending == Unterminated ==> rest == [];
      LineReadsBack(line, Rendered(rest));
      NoLooseCons(lines);
      SameTail(LineLf(line), LfText(Rendered(rest)), Normalized(rest));
    }
  }

  lemma SameTail(front: string, p: string, q: string)
    ensures front + p == front + q <==> p == q
  {
    if front + p == front + q {
      assert p == (front + p)[|front|..] == (front + q)[|front|..] == q;
    }
  }

  // ----- files with one kind of terminator

  predicate HasCrlf(t: string)
  {
    exists i :: 0 <= i < |t| - 1 && t[i] == '\r' && t[i + 1] == '\n'
  }

  /** A text is its own LF text exactly if it has no CRLF. */
  lemma {:induction false} LfTextFixed(t: string)
    ensures LfText(t) == t <==> !HasCrlf(t)
    ensures |LfText(t)| <= |t|
    decreases |t|
  {
    if t == "" {
    } else if |t| > 1 && t[0] == '\r' && t[1] == '\n' {
      LfTextFixed(t[2..]);
      assert |LfText(t)| < |t|;
    } else {
      LfTextFixed(t[1..]);
      if HasCrlf(t) {
        var i :| 0 <= i < |t| - 1 && t[i] == '\r' && t[i + 1] == '\n';
        assert t[1..][i - 1] == '\r' && t[1..][i - 1 + 1] == '\n';
      }
      if HasCrlf(t[1..]) {
        var i :| 0 <= i < |t[1..]| - 1 && t[1..][i] == '\r' && t[1..][i + 1] == '\n';
        assert t[i + 1] == '\r' && t[i + 1 + 1] == '\n';
      }
      assert t == [t[0]] + t[1..];
      SameTail([t[0]], LfText(t[1..]), t[1..]);
    }
  }

  lemma {:induction false} ExpandLf(t: string)
    ensures Expand(t, Lf) == t
  {
    if t != "" {
      ExpandLf(t[1..]);
      assert t == [t[0]] + t[1..];
    }
  }

  /** Written with LF, a text reads back exactly if it has no CRLF; written with CRLF, always. */
  lemma {:induction false} ExpandedReadsBack(t: string, e: Ending)
    requires e != Unterminated
    ensures LfText(Expand(t, e)) == t <==> e == Crlf || !HasCrlf(t)
  {
    if e == Lf {
      ExpandLf(t);
      LfTextFixed(t);
    } else {
      CrlfReadsBack(t);
    }
  }

  lemma {:induction false} CrlfReadsBack(t: string)
    ensures LfText(Expand(t, Crlf)) == t
  {
    if t != "" {
      var rest := Expand(t[1..], Crlf);
      CrlfReadsBack(t[1..]);
      if t[0] == '\n' {
        LfTextEnding(Crlf, rest);
      } else {
        assert rest != "" ==> rest[0] != '\n';
        LfTextPlain([t[0]], rest);
      }
      assert t == [t[0]] + t[1..];
    }
  }
}
