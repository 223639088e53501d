/** Lines that a replacement does not touch: they keep their text and their exact terminator, in a
    file with mixed terminators too, and stand where the replaced text before them puts them. */
module UntouchedLines {
  import opened LineText
  import opened EditableText
  import opened TextReplace
  import opened EditableContent
  import opened MovedText

  /** The line is among the given ones, at this offset of their text. */
  ghost predicate Stands(lines: seq<EditableLine>, line: EditableLine, at: int)
  {
    exists i :: IsAt(lines, i, line, at)
  }

  ghost predicate IsAt(lines: seq<EditableLine>, i: int, line: EditableLine, at: int)
  {
    0 <= i < |lines| && lines[i] == line && Offset(lines, i) == at
  }

  // ----- one replacement

  lemma LineIsBefore(lines: seq<EditableLine>, i: nat, start: nat)
    requires WellFormed(lines) && i < |lines| && Offset(lines, i + 1) <= start < |Normalized(lines)|
    ensures i < LineAt(lines, start)
  {
    LineAtSpec(lines, start);
    assert lines[..|lines|] == lines;
    var s := LineAt(lines, start);
    if s <= i {
      OffsetMonotone(lines, s + 1, i + 1);
    }
  }

  /** A replacement further right leaves the line in place. */
  lemma StepLeavesLine(lines: seq<EditableLine>, ending: Ending, start: nat, end: nat, text: string, i: nat)
    requires WellFormed(lines) && i < |lines| && Offset(lines, i + 1) <= start < end <= |Normalized(lines)|
             && ending != Unterminated
    ensures IsAt(Step(lines, ending, start, end, text), i, lines[i], Offset(lines, i))
  {
    var r, s := Replaced(lines, ending, start, end, text), LineAt(lines, start);
    LineIsBefore(lines, i, start);
    assert lines[..s] <= r by {
      FartherLinesKept(lines, ending, start, end, text, s, LineAt(lines, end - 1), r);
    }
    PrefixStands(lines, r, s, i);
  }

  lemma PrefixStands(lines: seq<EditableLine>, r: seq<EditableLine>, s: nat, i: nat)
    requires i < s <= |lines| && lines[..s] <= r
    ensures IsAt(r, i, lines[i], Offset(lines, i))
  {
    assert r[..i] == lines[..s][..i] == lines[..i] && r[i] == lines[..s][i] == lines[i];
  }

  /** The last character before the end of a rewritten region is the last one of its new text. */
  lemma RegionCut(content: string, o: nat, start: nat, end: nat, next: nat, text: string, region: string, u: string,
                  at: int)
    requires o <= start < end <= next <= |content| && region == content[o..start] + text + content[end..next]
    requires u == Splice(content, start, end, text) && at == next + |text| - (end - start)
    ensures 0 <= at <= |u| && (region != "" ==> at > 0 && u[at - 1] == region[|region| - 1])
  {
    SpliceBefore(content, start, end, text, next);
    assert u[..at] == content[..start] + text + content[end..next];
    if region != "" {
      LastOf(u, at, content[..start], text, content[end..next]);
      LastChar(content[o..start], text, content[end..next]);
      assert content[o..start] != "" ==> content[o..start][start - o - 1] == content[..start][start - 1];
    }
  }

  lemma LastChar(front: string, mid: string, back: string)
    requires front + mid + back != ""
    ensures var w := front + mid + back;
            w[|w| - 1] == if back != "" then back[|back| - 1] else if mid != "" then mid[|mid| - 1]
                          else front[|front| - 1]
  {
  }

  /** What the text before a position right of a replacement becomes. */
  lemma RegionEnd(lines: seq<EditableLine>, start: nat, end: nat, text: string, o: nat, next: nat, region: string,
                  u: string, at: int)
    requires WellFormed(lines) && lines != [] && start < end <= |Normalized(lines)|
    requires o == Offset(lines, LineAt(lines, start)) && next == Offset(lines, LineAt(lines, end - 1) + 1)
    requires region == NewRegion(lines, start, end, text) && u == Splice(Normalized(lines), start, end, text)
    requires at == next + |text| - (end - start)
    ensures 0 <= at <= |u| && (region != "" ==> at > 0 && u[at - 1] == region[|region| - 1])
  {
    RegionEncloses(lines, start, end);
    RegionCut(Normalized(lines), o, start, end, next, text, region, u, at);
  }

  /** A line after the end of a replacement comes after the last line that it touches. */
  lemma TouchedBefore(lines: seq<EditableLine>, end: nat, i: nat)
    requires WellFormed(lines) && i < |lines| && 0 < end <= Offset(lines, i)
    ensures Offset(lines, i) < |Normalized(lines)| && LineAt(lines, end - 1) < i
  {
    assert lines[..|lines|] == lines;
    OffsetMonotone(lines, i, |lines|);
    LineAtSpec(lines, end - 1);
    if i <= LineAt(lines, end - 1) {
      OffsetMonotone(lines, i, LineAt(lines, end - 1));
    }
  }

  /** If a line still starts where the line after a replacement comes to stand, that line and all
      after it are kept. */
  lemma StepKeepsTail(lines: seq<EditableLine>, ending: Ending, start: nat, end: nat, text: string, i: nat, u: string,
                      at: int, r: seq<EditableLine>)
    requires WellFormed(lines) && i < |lines| && start < end <= Offset(lines, i) && ending != Unterminated
    requires Offset(lines, i) <= |Normalized(lines)|
    requires u == Splice(Normalized(lines), start, end, text) && at == Offset(lines, i) + |text| - (end - start)
    requires StartsLine(u, at) && r == Replaced(lines, ending, start, end, text)
    ensures Offset(lines, i) < |Normalized(lines)| && EndsWith(r, lines[i..])
  {
    TouchedBefore(lines, end, i);
    var e := LineAt(lines, end - 1);
    if i == e + 1 {
      NotAbsorbed(lines, start, end, text, e, u, at);
      NextLineExactly(lines, ending, start, end, text, e, NewRegion(lines, start, end, text), r);
    } else {
      FurtherTail(lines, ending, start, end, text, e, i, r);
    }
  }

  lemma NotAbsorbed(lines: seq<EditableLine>, start: nat, end: nat, text: string, e: nat, u: string, at: int)
    requires WellFormed(lines) && lines != [] && start < end <= |Normalized(lines)| && e == LineAt(lines, end - 1)
    requires u == Splice(Normalized(lines), start, end, text) && at == Offset(lines, e + 1) + |text| - (end - start)
    requires StartsLine(u, at)
    ensures !Absorbs(lines, start, end, text)
  {
    RegionEnd(lines, start, end, text, Offset(lines, LineAt(lines, start)), Offset(lines, e + 1),
              NewRegion(lines, start, end, text), u, at);
  }

  lemma FurtherTail(lines: seq<EditableLine>, ending: Ending, start: nat, end: nat, text: string, e: nat, i: nat,
                    r: seq<EditableLine>)
    requires WellFormed(lines) && lines != [] && start < end <= |Normalized(lines)| && e == LineAt(lines, end - 1)
             && e + 2 <= i < |lines| && ending != Unterminated
    requires r == Replaced(lines, ending, start, end, text)
    ensures EndsWith(r, lines[i..])
  {
    FartherLinesKept(lines, ending, start, end, text, LineAt(lines, start), e, r);
    TailOfTail(r, lines[e + 2..], i - (e + 2));
    assert lines[e + 2..][i - (e + 2)..] == lines[i..];
  }

  lemma TailOfTail<T>(s: seq<T>, t: seq<T>, n: nat)
    requires EndsWith(s, t) && n <= |t|
    ensures EndsWith(s, t[n..])
  {
    assert s[|s| - |t|..][n..] == s[|s| - |t| + n..];
  }

  lemma SameTail(p: seq<EditableLine>, q: seq<EditableLine>, i: nat, j: nat)
    requires i < |p| && j < |q| && p[i..] == q[j..]
    ensures Normalized(p) == Normalized(p[..i]) + Normalized(p[i..])
    ensures |Normalized(p)| - Offset(p, i) == |Normalized(q)| - Offset(q, j) && p[i] == q[j]
  {
    NormalizedSplit(p, i, |p|);
    NormalizedSplit(q, j, |q|);
    assert p[i..|p|] == p[i..] && q[j..|q|] == q[j..] && p[|p|..] == [] && q[|q|..] == [];
    assert p[i] == p[i..][0] && q[j] == q[j..][0];
  }

  /** A replacement before a kept tail adds no final newline. */
  lemma ReplacedBeforeTail(lines: seq<EditableLine>, ending: Ending, start: nat, end: nat, text: string, i: nat,
                           r: seq<EditableLine>, j: nat)
    requires WellFormed(lines) && i < |lines| && start < end <= Offset(lines, i) < |Normalized(lines)|
             && ending != Unterminated
    requires r == Replaced(lines, ending, start, end, text) && j < |r| && r[j..] == lines[i..]
    ensures Normalized(r) == Splice(Normalized(lines), start, end, text)
  {
    var plain := Splice(Normalized(lines), start, end, text);
    var tail := Normalized(lines[i..]);
    SameTail(r, lines, j, i);
    SameTail(lines, r, i, j);
    ReplacedText(lines, ending, start, end, text);
    assert plain[|plain| - 1] == Normalized(lines)[|Normalized(lines)| - 1] == tail[|tail| - 1];
    assert Normalized(r)[|Normalized(r)| - 1] == tail[|tail| - 1];
  }

  /** A replacement further left moves the line by the change in length, if a line still starts there. */
  lemma StepMovesLine(lines: seq<EditableLine>, ending: Ending, start: nat, end: nat, text: string, i: nat,
                      line: EditableLine, at: int, at': int, u: string, r: seq<EditableLine>)
    requires WellFormed(lines) && IsAt(lines, i, line, at) && start < end <= at <= |Normalized(lines)|
             && ending != Unterminated
    requires at' == at + |text| - (end - start) && u == Splice(Normalized(lines), start, end, text)
    requires r == Step(lines, ending, start, end, text) && StartsLine(u, at')
    ensures Stands(r, line, at')
  {
    assert r == Replaced(lines, ending, start, end, text);
    StepKeepsTail(lines, ending, start, end, text, i, u, at', r);
    TailStands(lines, ending, start, end, text, i, line, at, at', r);
  }

  lemma TailStands(lines: seq<EditableLine>, ending: Ending, start: nat, end: nat, text: string, i: nat,
                   line: EditableLine, at: int, at': int, r: seq<EditableLine>)
    requires WellFormed(lines) && IsAt(lines, i, line, at) && start < end <= at < |Normalized(lines)|
             && ending != Unterminated
    requires at' == at + |text| - (end - start) && r == Replaced(lines, ending, start, end, text)
    requires EndsWith(r, lines[i..])
    ensures Stands(r, line, at')
  {
    var j := |r| - (|lines| - i);
    ReplacedBeforeTail(lines, ending, start, end, text, i, r, j);
    SameTail(r, lines, j, i);
    assert IsAt(r, j, line, at');
  }

  lemma StandsInside(lines: seq<EditableLine>, i: nat, line: EditableLine, at: int)
    requires IsAt(lines, i, line, at)
    ensures at <= |Normalized(lines)|
  {
    assert lines[..|lines|] == lines;
    OffsetMonotone(lines, i, |lines|);
  }

  lemma LineStays(lines: seq<EditableLine>, ending: Ending, start: nat, end: nat, text: string, i: nat,
                  line: EditableLine, at: int, r: seq<EditableLine>)
    requires WellFormed(lines) && IsAt(lines, i, line, at) && at + |LineLf(line)| <= start < end <= |Normalized(lines)|
             && ending != Unterminated
    requires r == Step(lines, ending, start, end, text)
    ensures Stands(r, line, at)
  {
    OffsetNext(lines, i);
    StepLeavesLine(lines, ending, start, end, text, i);
  }

  // ----- all replacements

  /** No match overlaps the line. */
  ghost predicate Untouched(lines: seq<EditableLine>, ps: seq<nat>, len: nat, l: nat)
  {
    l < |lines| && forall k | 0 <= k < |ps| :: ps[k] + len <= Offset(lines, l) || Offset(lines, l + 1) <= ps[k]
  }

  lemma LineStartsLine(lines: seq<EditableLine>, l: nat)
    requires WellFormed(lines) && l < |lines|
    ensures Offset(lines, l) < Offset(lines, l + 1) <= |Normalized(lines)|
    ensures StartsLine(Normalized(lines), Offset(lines, l))
  {
    NextOffset(lines, l);
    if l > 0 {
      OffsetNext(lines, l - 1);
      NormalizedSplit(lines, l, |lines|);
      PrefixEnd(Normalized(lines), Normalized(lines[..l]), Normalized(lines[l..|lines|]) + Normalized(lines[|lines|..]),
                Normalized(lines[..l - 1]), LineLf(lines[l - 1]));
    }
  }

  lemma PrefixEnd(whole: string, head: string, tail: string, front: string, piece: string)
    requires whole == head + tail && head == front + piece && piece != ""
    ensures 0 < |head| <= |whole| && whole[|head| - 1] == piece[|piece| - 1]
  {
  }

  lemma SameUpTo(t: string, u: string, p: int)
    requires p <= |t| && t <= u
    ensures StartsLine(t, p) ==> StartsLine(u, p)
  {
  }

  lemma SplicePrefix(t: string, next: string, start: nat, end: nat, text: string)
    requires start <= end <= |t| && t <= next
    ensures Splice(t, start, end, text) <= Splice(next, start, end, text)
  {
    assert next[..start] == t[..start] && t[end..] <= next[end..];
  }

  lemma {:induction false} StillStartsThroughout(s: string, needle: string, text: string, ps: seq<nat>, k: nat,
                                                 off: nat)
    requires needle != "" && ps == Matches(s, needle, 0) && k <= |ps| && off <= |s| && StartsLine(s, off)
    requires StillStarts(s, ps, |needle|, text, 0, off)
    ensures StillStarts(s, ps, |needle|, text, k, off)
  {
    if k > 0 {
      StillStartsThroughout(s, needle, text, ps, k - 1, off);
      StillStartsBefore(s, needle, text, ps, k - 1, off);
    }
  }

  /** An untouched line stands among the lines after the replacements from index k on, if a line still
      starts there in the end. */
  lemma {:induction false} UntouchedStands(f: Stepper, lines: seq<EditableLine>, ending: Ending, s: string,
                                           needle: string, text: string, ps: seq<nat>, k: nat, l: nat, off: nat)
    requires Computes(f, ending, text) && StaysNear(f, text) && Near(lines, s, |s|) && ending != Unterminated
    requires Normalized(lines) == s && needle != "" && ps == Matches(s, needle, 0) && k <= |ps|
    requires Untouched(lines, ps, |needle|, l) && off == Offset(lines, l) && StillStarts(s, ps, |needle|, text, 0, off)
    ensures StandsFrom(f, lines, text, ps, |needle|, off, lines[l], k)
    decreases |ps| - k
  {
    if k < |ps| {
      UntouchedStands(f, lines, ending, s, needle, text, ps, k + 1, l, off);
      StepCarries(f, lines, ending, s, needle, text, ps, k, l, off);
    } else {
      assert IsAt(lines, l, lines[l], off);
    }
  }

  /** The line stands at its moved offset after the replacements from index k on. */
  ghost predicate StandsFrom(f: Stepper, lines: seq<EditableLine>, text: string, ps: seq<nat>, len: nat, off: nat,
                             line: EditableLine, k: nat)
    requires k <= |ps|
  {
    Stands(StepsFrom(f, lines, ps, len, k), line, MovedTo(ps, len, |text| - len, k, off))
  }

  lemma StepCarries(f: Stepper, lines: seq<EditableLine>, ending: Ending, s: string, needle: string, text: string,
                    ps: seq<nat>, k: nat, l: nat, off: nat)
    requires Computes(f, ending, text) && StaysNear(f, text) && Near(lines, s, |s|) && ending != Unterminated
    requires Normalized(lines) == s && needle != "" && ps == Matches(s, needle, 0) && k < |ps|
    requires Untouched(lines, ps, |needle|, l) && off == Offset(lines, l) && StillStarts(s, ps, |needle|, text, 0, off)
    ensures StandsFrom(f, lines, text, ps, |needle|, off, lines[l], k + 1) ==>
              StandsFrom(f, lines, text, ps, |needle|, off, lines[l], k)
  {
    var next, r := StepsFrom(f, lines, ps, |needle|, k + 1), StepsFrom(f, lines, ps, |needle|, k);
    var m := Move(ps[k], ps[k] + |needle|, off, MovedTo(ps, |needle|, |text| - |needle|, k + 1, off),
                  MovedTo(ps, |needle|, |text| - |needle|, k, off));
    LineFacts(lines, s, ps, |needle|, k, l);
    StillStartsThroughout(s, needle, text, ps, k, off);
    StepIsMove(f, lines, ending, s, needle, text, ps, k, lines[l], next, r, m);
    MoveKeepsStanding(next, ending, text, r, lines[l], m);
  }

  lemma LineFacts(lines: seq<EditableLine>, s: string, ps: seq<nat>, len: nat, k: nat, l: nat)
    requires WellFormed(lines) && s == Normalized(lines) && Untouched(lines, ps, len, l) && k < |ps|
    ensures var off := Offset(lines, l);
            && off <= |s| && StartsLine(s, off) && Between(ps, len, off)
            && (off <= ps[k] ==> off + |LineLf(lines[l])| <= ps[k] || len == 0)
  {
    LineStartsLine(lines, l);
    OffsetNext(lines, l);
  }

  /** A replacement step, and an offset that it moves. */
  datatype Move = Move(start: nat, end: nat, off: nat, at: int, moved: int)

  /** The step leaves the offset of the line alone, or moves it to where a line starts. */
  ghost predicate Carries(m: Move, next: seq<EditableLine>, text: string, line: EditableLine)
  {
    match m
    case Move(start, end, off, at, moved) =>
      && WellFormed(next) && start < end <= |Normalized(next)|
      && (start < off ==> end <= at && moved == at + |text| - (end - start)
                          && StartsLine(Splice(Normalized(next), start, end, text), moved))
      && (off <= start ==> moved == at == off && off + |LineLf(line)| <= start)
  }

  lemma StepIsMove(f: Stepper, lines: seq<EditableLine>, ending: Ending, s: string, needle: string, text: string,
                   ps: seq<nat>, k: nat, line: EditableLine, next: seq<EditableLine>, r: seq<EditableLine>, m: Move)
    requires Computes(f, ending, text) && StaysNear(f, text) && Near(lines, s, |s|) && ending != Unterminated
    requires needle != "" && ps == Matches(s, needle, 0) && k < |ps| && m.off <= |s| && Between(ps, |needle|, m.off)
    requires StartsLine(s, m.off) && StillStarts(s, ps, |needle|, text, k, m.off)
    requires m.off <= ps[k] ==> m.off + |LineLf(line)| <= ps[k]
    requires next == StepsFrom(f, lines, ps, |needle|, k + 1) && r == StepsFrom(f, lines, ps, |needle|, k)
    requires m == Move(ps[k], ps[k] + |needle|, m.off, MovedTo(ps, |needle|, |text| - |needle|, k + 1, m.off),
                       MovedTo(ps, |needle|, |text| - |needle|, k, m.off))
    ensures Carries(m, next, text, line)
    ensures IsStep(f, ending, text, next, m.start, m.end) && r == f(next, m.start, m.end)
  {
    NextInRange(f, lines, ending, s, needle, text, ps, k, next);
    assert IsStep(f, ending, text, next, m.start, m.end);
    IsMove(s, needle, text, ps, k, line, next, m);
  }

  lemma IsMove(s: string, needle: string, text: string, ps: seq<nat>, k: nat, line: EditableLine,
               next: seq<EditableLine>, m: Move)
    requires needle != "" && ps == Matches(s, needle, 0) && k < |ps| && m.off <= |s| && Between(ps, |needle|, m.off)
    requires StartsLine(s, m.off) && StillStarts(s, ps, |needle|, text, k, m.off)
    requires m.off <= ps[k] ==> m.off + |LineLf(line)| <= ps[k]
    requires WellFormed(next) && SplicesFrom(s, ps, |needle|, text, k + 1) <= Normalized(next)
    requires m == Move(ps[k], ps[k] + |needle|, m.off, MovedTo(ps, |needle|, |text| - |needle|, k + 1, m.off),
                       MovedTo(ps, |needle|, |text| - |needle|, k, m.off))
    ensures Carries(m, next, text, line)
  {
    MoveStarts(s, needle, text, ps, k, m.off, Normalized(next), m.at, m.moved);
    CarriesMove(next, text, line, m, m.start, m.end, m.off, m.at, m.moved);
  }

  lemma CarriesMove(next: seq<EditableLine>, text: string, line: EditableLine, m: Move, start: nat, end: nat, off: nat,
                    at: int, moved: int)
    requires m == Move(start, end, off, at, moved) && WellFormed(next) && start < end <= |Normalized(next)|
    requires start < off ==> end <= at && moved == at + |text| - (end - start)
                             && StartsLine(Splice(Normalized(next), start, end, text), moved)
    requires off <= start ==> moved == at == off && off + |LineLf(line)| <= start
    ensures Carries(m, next, text, line)
  {
  }

  /** The offset moves to where a line starts in the text so far, or stays. */
  lemma MoveStarts(s: string, needle: string, text: string, ps: seq<nat>, k: nat, off: nat, next: string, at: int,
                   moved: int)
    requires needle != "" && ps == Matches(s, needle, 0) && k < |ps| && off <= |s| && Between(ps, |needle|, off)
    requires StartsLine(s, off) && StillStarts(s, ps, |needle|, text, k, off)
    requires SplicesFrom(s, ps, |needle|, text, k + 1) <= next
    requires at == MovedTo(ps, |needle|, |text| - |needle|, k + 1, off)
    requires moved == MovedTo(ps, |needle|, |text| - |needle|, k, off)
    ensures var end := ps[k] + |needle|;
            && end <= |next|
            && (ps[k] < off ==> end <= at && moved == at + |text| - |needle|
                                && StartsLine(Splice(next, ps[k], end, text), moved))
            && (off <= ps[k] ==> moved == at == off)
  {
    StartsInNext(s, needle, text, ps, k, off, next, moved);
    if ps[k] < off {
      StepEnd(s, needle, text, ps, k, off, at);
    } else {
      StandsLeft(s, needle, text, ps, k, off);
    }
  }

  lemma MoveKeepsStanding(next: seq<EditableLine>, ending: Ending, text: string, r: seq<EditableLine>,
                          line: EditableLine, m: Move)
    requires Carries(m, next, text, line) && r == Step(next, ending, m.start, m.end, text) && ending != Unterminated
    ensures Stands(next, line, m.at) ==> Stands(r, line, m.moved)
  {
    if Stands(next, line, m.at) {
      var i :| IsAt(next, i, line, m.at);
      if m.start < m.off {
        StandsInside(next, i, line, m.at);
        StepMovesLine(next, ending, m.start, m.end, text, i, line, m.at, m.moved,
                      Splice(Normalized(next), m.start, m.end, text), r);
      } else {
        LineStays(next, ending, m.start, m.end, text, i, line, m.at, r);
      }
    }
  }

  /** A line that starts in the text so far starts in the lines so far. */
  lemma StartsInNext(s: string, needle: string, text: string, ps: seq<nat>, k: nat, off: nat, next: string, at': int)
    requires needle != "" && ps == Matches(s, needle, 0) && k < |ps| && off <= |s| && Between(ps, |needle|, off)
    requires StartsLine(s, off) && StillStarts(s, ps, |needle|, text, k, off)
    requires SplicesFrom(s, ps, |needle|, text, k + 1) <= next
    requires at' == MovedTo(ps, |needle|, |text| - |needle|, k, off)
    ensures ps[k] + |needle| <= |next| && StartsLine(Splice(next, ps[k], ps[k] + |needle|, text), at')
  {
    var t, u := SplicesFrom(s, ps, |needle|, text, k + 1), SplicesFrom(s, ps, |needle|, text, k);
    assert StartsLine(u, at') by { StartsExactly(s, needle, text, ps, k, off); }
    assert at' <= |u| by { MovedInside(s, needle, text, ps, k, off); }
    SplicesUnfold(s, needle, text, k);
    SplicePrefix(t, next, ps[k], ps[k] + |needle|, text);
    SameUpTo(u, Splice(next, ps[k], ps[k] + |needle|, text), at');
  }

  /** Matches from the offset on do not move it. */
  lemma StandsLeft(s: string, needle: string, text: string, ps: seq<nat>, k: nat, off: nat)
    requires needle != "" && ps == Matches(s, needle, 0) && k < |ps| && off <= ps[k] && off <= |s|
             && Between(ps, |needle|, off)
    ensures MovedTo(ps, |needle|, |text| - |needle|, k, off) == off
    ensures MovedTo(ps, |needle|, |text| - |needle|, k + 1, off) == off
  {
    MovedSpec(s, needle, text, ps, k, off);
    MovedSpec(s, needle, text, ps, k + 1, off);
    MatchesApart(s, needle, k);
  }

  lemma NextInRange(f: Stepper, lines: seq<EditableLine>, ending: Ending, s: string, needle: string, text: string,
                    ps: seq<nat>, k: nat, next: seq<EditableLine>)
    requires Computes(f, ending, text) && StaysNear(f, text) && Near(lines, s, |s|)
    requires needle != "" && ps == Matches(s, needle, 0) && k < |ps| && next == StepsFrom(f, lines, ps, |needle|, k + 1)
    ensures WellFormed(next) && ps[k] + |needle| <= |Normalized(next)|
    ensures SplicesFrom(s, ps, |needle|, text, k + 1) <= Normalized(next)
    ensures StepsFrom(f, lines, ps, |needle|, k) == f(next, ps[k], ps[k] + |needle|)
  {
    StepsStayNear(f, lines, s, needle, text, ps, k + 1);
    StepInRange(f, lines, s, needle, text, ps, k);
  }

  /** The trailing pass keeps every terminated line, but the final newline of a file without one. */
  lemma PreservedStands(lines: seq<EditableLine>, ending: Ending, had: bool, line: EditableLine, at: int)
    requires WellFormed(lines) && line.ending != Unterminated && Stands(lines, line, at)
    ensures IsKept(Preserved(lines, ending, had), had, line, at)
  {
    var r := Preserved(lines, ending, had);
    var i :| IsAt(lines, i, line, at);
    PreservedKeepsTerminators(lines, ending, had, i);
    assert r[..i] == lines[..i];
    assert IsAt(r, i, r[i], at);
  }

  /** The line is there with its exact terminator; only as the last line of a file without trailing
      newline it may have lost it. */
  ghost predicate IsKept(r: seq<EditableLine>, had: bool, line: EditableLine, at: int)
  {
    || Stands(r, line, at)
    || (!had && r != [] && r[|r| - 1] == line.(ending := Unterminated) && Stands(r, r[|r| - 1], at))
  }

  /** Where a line stands, a line starts in the text that the lines read as. */
  lemma StandingStarts(r: seq<EditableLine>, line: EditableLine, at: int, had: bool, t: string)
    requires Stands(r, line, at) && WellFormed(r) && Normalized(r) == TrailingRule(had, t)
    ensures StartsLine(t, at)
  {
    var i :| IsAt(r, i, line, at);
    LineStartsLine(r, i);
  }

  /** After replacing all matches and restoring the final newline, every terminated line that no
      match overlaps is there with its exact terminator, at its offset moved by the replacements
      before it, exactly if nothing joins it to the text before it: no match ends right before the
      line, or the new text ends in a newline, or matches are deleted and the run of adjacent matches
      before the line begins at a line start. */
  lemma UntouchedLineKeepsTerminator(lines: seq<EditableLine>, ending: Ending, had: bool, needle: string, text: string,
                                     l: nat)
    requires WellFormed(lines) && ending != Unterminated && needle != "" && l < |lines|
             && lines[l].ending != Unterminated
    requires Untouched(lines, Matches(Normalized(lines), needle, 0), |needle|, l)
    ensures var s, ps, off := Normalized(lines), Matches(Normalized(lines), needle, 0), Offset(lines, l);
            var at := MovedTo(ps, |needle|, |text| - |needle|, 0, off);
            IsKept(EditedLines(lines, ending, had, needle, text), had, lines[l], at)
            <==> StillStarts(s, ps, |needle|, text, 0, off)
  {
    var f, s := StepWith(ending, text), Normalized(lines);
    var ps, off := Matches(s, needle, 0), Offset(lines, l);
    var at := MovedTo(ps, |needle|, |text| - |needle|, 0, off);
    StepWithComputes(ending, text);
    StepStaysNear(ending, text);
    StepsStayNear(f, lines, s, needle, text, ps, 0);
    var r := EditedLines(lines, ending, had, needle, text);
    if StillStarts(s, ps, |needle|, text, 0, off) {
      UntouchedStands(f, lines, ending, s, needle, text, ps, 0, l, off);
      PreservedStands(StepsFrom(f, lines, ps, |needle|, 0), ending, had, lines[l], at);
    }
    if IsKept(r, had, lines[l], at) {
      KeptStarts(lines, ending, had, needle, text, r, lines[l], at);
      LineStartsLine(lines, l);
      AllReplaced(s, needle, text);
      StartsExactly(s, needle, text, ps, 0, off);
    }
  }

  lemma KeptStarts(lines: seq<EditableLine>, ending: Ending, had: bool, needle: string, text: string,
                   r: seq<EditableLine>, line: EditableLine, at: int)
    requires WellFormed(lines) && ending != Unterminated && needle != ""
    requires r == EditedLines(lines, ending, had, needle, text) && IsKept(r, had, line, at)
    ensures StartsLine(Substituted(Normalized(lines), needle, text, 0), at)
  {
    EditedLinesText(lines, ending, had, needle, text);
    EditedWellFormed(lines, ending, had, needle, text);
    if Stands(r, line, at) {
      StandingStarts(r, line, at, had, Substituted(Normalized(lines), needle, text, 0));
    } else {
      StandingStarts(r, r[|r| - 1], at, had, Substituted(Normalized(lines), needle, text, 0));
    }
  }
}
