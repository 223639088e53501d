/** Inputs for which the server's remembered text and the client's picture of a file part. */
module ViewExceptions {
  import opened Wrappers
  import opened Seqs
  import opened LineText
  import opened ViewCache
  import opened Sessions
  import opened ViewProtocol
  import opened Extraction
  import opened EditableText
  import opened EditableContent

  /** A request that tells its generation and whose result is delivered. */
  function Asks(id: Id, root: string, op: Operation): Event { Event.Request(id, root, true, true, op) }

  // ----- views that are too long to deliver

  function Newlines(n: nat): (s: string)
    ensures |s| == n
  {
    if n == 0 then "" else "\n" + Newlines(n - 1)
  }

  function Blank(n: nat): (lines: seq<string>)
    ensures |lines| == n
  {
    if n == 0 then [] else [""] + Blank(n - 1)
  }

  lemma {:induction false} NewlinesAreBlankLines(n: nat)
    ensures LfText(Newlines(n)) == Newlines(n) && Lines(Newlines(n)) == Blank(n)
  {
    if n > 0 {
      NewlinesAreBlankLines(n - 1);
      var rest := Newlines(n - 1);
      assert "\n"[..0] == "" && Newlines(n)[1..] == rest;
      LinesCons("\n", rest);
    }
  }

  lemma FourDigits(n: nat)
    requires n >= 1000
    ensures Digits(n) >= 4
  {
    assert Digits(n) == 1 + Digits(n / 10) && Digits(n / 10) == 1 + Digits(n / 10 / 10);
    assert Digits(n / 10 / 10) == 1 + Digits(n / 10 / 10 / 10);
  }

  /** From line 1000 on every blank line takes at least nine bytes. */
  lemma {:induction false} BlankLinesBytes(n: nat, first: nat)
    ensures LinesBytes(Blank(n), first) + 1 >= 9 * n - 3 * (if first < 1000 then 1000 - first else 0)
    decreases n
  {
    if n > 0 {
      BlankLinesBytes(n - 1, first + 1);
      assert Blank(n)[1..] == Blank(n - 1);
      if first >= 1000 {
        FourDigits(first);
      }
    }
  }

  const LONG := 1024 * 1024

  /** The server remembers the present text of a file, but the client, in the same context, has no
      picture of it. */
  ghost predicate Mistaken(w: World, id: Id, root: string, key: string)
  {
    && id in w.sessions && key in w.files
    && w.sessions[id].root == root && w.sessions[id].epoch == ClientOf(w, id).epoch && w.sessions[id].cache.Some?
    && Lookup(w.sessions[id].cache.value, key) == Some(LfText(w.files[key]))
    && key !in ClientOf(w, id).pictures
  }

  /** A first view that is too long to deliver, of a text short enough to remember. */
  lemma FirstIsRejected(w: World, id: Id, root: string, key: string, deltaBytes: Sizes) returns (w': World)
    requires id !in w.sessions && |w.sessions| < MAX_TRACKED_SESSIONS && key in w.files
             && key !in ClientOf(w, id).pictures
    requires |LfText(w.files[key])| <= MAX_CACHED_BYTES && Lines(LfText(w.files[key])) != []
    requires !Fits(Whole(Lines(LfText(w.files[key]))), deltaBytes)
    ensures Happens(w, Asks(id, root, View(key, false, Whole(Lines(LfText(w.files[key]))))), w',
              deltaBytes)
    ensures Mistaken(w', id, root, key) && w'.files == w.files
  {
    var e := Asks(id, root, View(key, false, Whole(Lines(LfText(w.files[key])))));
    var t := w.sessions[id := Fresh(root, Some(ClientOf(w, id).epoch), w.now)];
    assert LooksUp(w, e, t);
    w' := Served(w, t, e, deltaBytes);
    assert ClientOf(w', id) == ClientOf(w, id).(pictures := PicturesAfter(ClientOf(w, id), w.files, e.op,
      Reaches(e.op, true, deltaBytes)));
  }

  /** From then on every view says "unchanged" to a client that has never seen the file. */
  lemma LaterIsUnchanged(w: World, id: Id, root: string, key: string, deltaBytes: Sizes) returns (w': World)
    requires Mistaken(w, id, root, key) && |LfText(w.files[key])| <= MAX_CACHED_BYTES
    ensures Happens(w, Asks(id, root, View(key, false, Unchanged(|Lines(LfText(w.files[key]))|))), w',
              deltaBytes)
    ensures Mistaken(w', id, root, key) && w'.files == w.files
  {
    var e := Asks(id, root, View(key, false, Unchanged(|Lines(LfText(w.files[key]))|)));
    var t := w.sessions[id := Resumed(w.sessions[id], Some(ClientOf(w, id).epoch), w.now)];
    assert LooksUp(w, e, t);
    w' := Served(w, t, e, deltaBytes);
    assert ClientOf(w', id) == ClientOf(w, id).(pictures := PicturesAfter(ClientOf(w, id), w.files, e.op,
      Reaches(e.op, true, deltaBytes)));
  }

  /** A file of a million newlines is remembered, but its first view is too long to deliver; the
      second view then says "unchanged" to a client that has never seen the file. */
  lemma RejectedViewIsTakenForSeen(id: Id, root: string, key: string, deltaBytes: Sizes)
    returns (w1: World, w2: World)
    ensures var w0 := World(map[key := Newlines(LONG)], map[], 0, map[]);
            var whole := Whole(Blank(LONG));
            && !Fits(whole, deltaBytes)
            && Happens(w0, Asks(id, root, View(key, false, whole)), w1, deltaBytes)
            && Happens(w1, Asks(id, root, View(key, false, Unchanged(LONG))), w2, deltaBytes)
            && PictureOf(ClientOf(w2, id), key) == None
  {
    var text := Newlines(LONG);
    NewlinesAreBlankLines(LONG);
    BlankLinesBytes(LONG, 1);
    w1, w2 := Rejected(text, Blank(LONG), id, root, key, deltaBytes);
  }

  lemma Rejected(text: string, lines: seq<string>, id: Id, root: string, key: string, deltaBytes: Sizes)
    returns (w1: World, w2: World)
    requires LfText(text) == text && |text| <= MAX_CACHED_BYTES && Lines(text) == lines && lines != []
    requires !Fits(Whole(lines), deltaBytes)
    ensures var w0 := World(map[key := text], map[], 0, map[]);
            && Happens(w0, Asks(id, root, View(key, false, Whole(lines))), w1, deltaBytes)
            && Happens(w1, Asks(id, root, View(key, false, Unchanged(|lines|))), w2, deltaBytes)
            && PictureOf(ClientOf(w2, id), key) == None
  {
    w1 := FirstIsRejected(World(map[key := text], map[], 0, map[]), id, root, key, deltaBytes);
    w2 := LaterIsUnchanged(w1, id, root, key, deltaBytes);
  }

  // ----- edits of text with extra carriage returns

  /** Server and client agree on the text of a file. */
  ghost predicate Known(w: World, id: Id, root: string, key: string, text: string)
  {
    && id in w.sessions && w.sessions[id].root == root && w.sessions[id].epoch == ClientOf(w, id).epoch
    && w.sessions[id].cache.Some? && Lookup(w.sessions[id].cache.value, key) == Some(text)
    && PictureOf(ClientOf(w, id), key) == Some(Lines(text))
  }

  /** The server remembers a text that the client, in the same context, does not hold. */
  ghost predicate FalseEntry(w: World, id: Id, key: string)
  {
    && id in w.sessions && w.sessions[id].epoch == ClientOf(w, id).epoch && w.sessions[id].cache.Some?
    && !EntryTrue(w.sessions[id].cache.value, ClientOf(w, id).pictures, key)
  }

  /** A first view that is delivered. */
  lemma FirstIsSeen(w: World, id: Id, root: string, key: string, deltaBytes: Sizes) returns (w': World)
    requires id !in w.sessions && |w.sessions| < MAX_TRACKED_SESSIONS && key in w.files
    requires |LfText(w.files[key])| <= MAX_CACHED_BYTES && Lines(LfText(w.files[key])) != []
    requires Fits(Whole(Lines(LfText(w.files[key]))), deltaBytes)
    ensures Happens(w, Asks(id, root, View(key, false, Whole(Lines(LfText(w.files[key]))))), w',
              deltaBytes)
    ensures Known(w', id, root, key, LfText(w.files[key])) && w'.files == w.files
    ensures ClientOf(w', id).pictures == ClientOf(w, id).pictures[key := Lines(LfText(w.files[key]))]
  {
    var e := Asks(id, root, View(key, false, Whole(Lines(LfText(w.files[key])))));
    var t := w.sessions[id := Fresh(root, Some(ClientOf(w, id).epoch), w.now)];
    assert LooksUp(w, e, t);
    w' := Served(w, t, e, deltaBytes);
    assert ClientOf(w', id) == ClientOf(w, id).(pictures := PicturesAfter(ClientOf(w, id), w.files, e.op,
      Reaches(e.op, true, deltaBytes)));
  }

  /** Every edit that the server takes for known, that is remembered and that is not clean, leaves a
      false entry. */
  lemma UncleanEditLeavesFalseEntry(w: World, id: Id, root: string, edit: Operation, deltaBytes: Sizes)
    returns (w': World)
    requires edit.Edit? && Known(w, id, root, edit.key, LfText(edit.before))
             && Legal(w.files, w.sessions[id].cache, edit)
    requires |LfText(edit.after)| <= MAX_CACHED_BYTES && !Clean(w.files, edit)
    ensures Happens(w, Asks(id, root, edit), w', deltaBytes) && FalseEntry(w', id, edit.key)
  {
    var e, c := Asks(id, root, edit), ClientOf(w, id);
    var t := w.sessions[id := Resumed(w.sessions[id], Some(c.epoch), w.now)];
    assert LooksUp(w, e, t);
    w' := Served(w, t, e, deltaBytes);
    assert ClientOf(w', id) == c.(pictures := PicturesAfter(c, w.files, edit, true));
    EditRemembersTruly(w.sessions[id].cache.value, c, w.files, edit, true);
  }

  lemma OneCrlfLine(text: string)
    requires '\n' !in text
    ensures RawLines(text + "\r\n") == [EditableLine(text, Crlf)] && LfText(text + "\r\n") == text + "\n"
    ensures Lines(text + "\r\n") == [text]
  {
    var piece := text + "\r\n";
    assert piece + "" == piece && piece[..|piece| - 2] == text && piece[..|piece| - 1] == text + "\r";
    LinesCons(piece, "");
    LfTextLine(piece, "");
  }

  lemma OneLfLine(text: string)
    requires '\n' !in text && text != "" && text[|text| - 1] != '\r'
    ensures LfText(text + "\n") == text + "\n" && Lines(text + "\n") == [text]
  {
    var piece := text + "\n";
    assert piece + "" == piece && piece[..|piece| - 1] == text;
    LinesCons(piece, "");
    LfTextLine(piece, "");
  }

  /** A CRLF line whose text ends in a carriage return. */
  lemma ExtraCrLine(text: string, line: string, noted: string)
    requires '\n' !in text && line == text + "\r" + "\r\n" && noted == text + "\r" + "\n"
    ensures LfText(line) == noted && !NoExtraCr(line)
  {
    OneCrlfLine(text + "\r");
    assert ExtraCr(RawLines(line)[0]);
  }

  lemma JoinCr(x: string, tail: string, whole: string)
    requires whole == "\r" + tail
    ensures x + whole == x + "\r" + tail
  {
  }

  lemma OneCr(x: string)
    requires '\n' !in x
    ensures LfText(x + "\r\r\n") == x + "\r\n" && !NoExtraCr(x + "\r\r\n")
  {
    JoinCr(x, "\r\n", "\r\r\n");
    JoinCr(x, "\n", "\r\n");
    ExtraCrLine(x, x + "\r\r\n", x + "\r\n");
  }

  lemma TwoCr(x: string)
    requires '\n' !in x
    ensures LfText(x + "\r\r\r\n") == x + "\r\r\n"
  {
    JoinCr(x, "\r\r\n", "\r\r\r\n");
    JoinCr(x, "\r\n", "\r\r\n");
    JoinCr(x + "\r", "\r\n", "\r\r\n");
    JoinCr(x + "\r", "\n", "\r\n");
    ExtraCrLine(x + "\r", x + "\r" + "\r\r\n", x + "\r" + "\r\n");
  }

  lemma OneLineFits(text: string, deltaBytes: Sizes)
    requires |text| < 1000
    ensures Fits(Whole([text]), deltaBytes)
  {
    assert [text][1..] == [];
    assert LinesBytes([text], 1) == Digits(1) + 4 + |text| + LinesBytes([], 2);
  }

  /** A client views a CRLF file with a line "x\r\ry" and deletes the y: the edit result shows "x\r",
      the server remembers "x". */
  lemma EditCanLeaveExtraCr(x: string, id: Id, root: string, key: string, deltaBytes: Sizes)
    returns (w1: World, w2: World)
    requires '\n' !in x && |x| < 900
    ensures var w0 := World(map[key := x + "\r\ry" + "\r\n"], map[], 0, map[]);
            && Happens(w0, Asks(id, root, View(key, false, Whole([x + "\r\ry"]))), w1, deltaBytes)
            && Happens(w1, Asks(id, root, Edit(key, x + "\r\ry" + "\n", x + "\r\r\n", x + "\r\r\r\n")),
                       w2, deltaBytes)
    ensures FalseEntry(w2, id, key)
  {
    OneCrlfLine(x + "\r\ry");
    OneLfLine(x + "\r\ry");
    OneCr(x);
    TwoCr(x);
    OneLineFits(x + "\r\ry", deltaBytes);
    w1, w2 := SeeThenEdit(x + "\r\ry" + "\r\n", [x + "\r\ry"], id, root,
                          Edit(key, x + "\r\ry" + "\n", x + "\r\r\n", x + "\r\r\r\n"), deltaBytes);
  }

  /** A client views a CRLF file with a line "x\r"; another program makes that "x\r\r". Normalising
      twice what an edit notes as the earlier text hides the difference, so the server takes the client's
      picture for current, whatever the edit writes. */
  lemma StaleEditIsTakenForKnown(x: string, id: Id, root: string, key: string, deltaBytes: Sizes)
    returns (w1: World, w2: World, w3: World)
    requires '\n' !in x && |x| < 900
    ensures var w0 := World(map[key := x + "\r\r\n"], map[], 0, map[]);
            && Happens(w0, Asks(id, root, View(key, false, Whole([x]))), w1, deltaBytes)
            && Happens(w1, External(key, Some(x + "\r\r\r\n")), w2, deltaBytes)
            && Happens(w2, Asks(id, root, Edit(key, x + "\r\r\n", "y\n", "y\n")), w3, deltaBytes)
    ensures FalseEntry(w3, id, key)
  {
    OneCrlfLine(x);
    OneCr(x);
    TwoCr(x);
    OneLineFits(x, deltaBytes);
    OneLfLine("y");
    assert "y" + "\n" == "y\n";
    w1 := FirstIsSeen(World(map[key := x + "\r\r\n"], map[], 0, map[]), id, root, key, deltaBytes);
    w2 := w1.(files := w1.files[key := x + "\r\r\r\n"]);
    w3 := UncleanEditLeavesFalseEntry(w2, id, root, Edit(key, x + "\r\r\n", "y\n", "y\n"), deltaBytes);
  }

  lemma SeeThenEdit(raw: string, lines: seq<string>, id: Id, root: string, edit: Operation, deltaBytes: Sizes)
    returns (w1: World, w2: World)
    requires edit.Edit? && lines == Lines(LfText(raw)) && lines != [] && Fits(Whole(lines), deltaBytes)
    requires |LfText(raw)| <= MAX_CACHED_BYTES && |LfText(edit.after)| <= MAX_CACHED_BYTES
    requires IsNoted(edit.before, raw) && IsNoted(edit.after, edit.raw) && LfText(edit.before) == LfText(raw)
    requires !Clean(map[edit.key := raw], edit)
    ensures var w0 := World(map[edit.key := raw], map[], 0, map[]);
            && Happens(w0, Asks(id, root, View(edit.key, false, Whole(lines))), w1, deltaBytes)
            && Happens(w1, Asks(id, root, edit), w2, deltaBytes)
    ensures FalseEntry(w2, id, edit.key)
  {
    w1 := FirstIsSeen(World(map[edit.key := raw], map[], 0, map[]), id, root, edit.key, deltaBytes);
    w2 := UncleanEditLeavesFalseEntry(w1, id, root, edit, deltaBytes);
  }

  // ----- writes whose result does not tell what they did

  /** Every write that the server takes for known and remembers, and whose client learns nothing of what
      was written, leaves the client without the text that the server takes for seen. */
  lemma UntoldWriteIsTakenForKnown(w: World, id: Id, root: string, delivered: bool, op: Operation, deltaBytes: Sizes)
    returns (w': World)
    requires op.Edit? || op.Extract?
    requires Known(w, id, root, op.key, LfText(TextAt(w.files, op.key))) && Legal(w.files, w.sessions[id].cache, op)
    requires var text := FilesAfter(w.files, op)[op.key];
             |LfText(text)| <= MAX_CACHED_BYTES && (op.Edit? ==> op.before == w.files[op.key] && op.after == text)
    requires delivered ==> op.Extract? && !KnowsCopied(ClientOf(w, id), w.files, op)
    ensures Happens(w, Event.Request(id, root, true, delivered, op), w', deltaBytes)
    ensures Mistaken(w', id, root, op.key) && w'.files == FilesAfter(w.files, op)
  {
    var e, c := Event.Request(id, root, true, delivered, op), ClientOf(w, id);
    var t := w.sessions[id := Resumed(w.sessions[id], Some(c.epoch), w.now)];
    assert LooksUp(w, e, t);
    w' := Served(w, t, e, deltaBytes);
    assert ClientOf(w', id)
        == c.(pictures := PicturesAfter(c, w.files, op, Reaches(op, delivered, deltaBytes)));
  }

  lemma {:induction false} BlankTrimmed(n: nat)
    ensures TrimAll(Blank(n)) == Blank(n)
  {
    if n > 0 {
      assert Blank(n)[1..] == Blank(n - 1) && TrimEndCr("") == "";
      BlankTrimmed(n - 1);
    }
  }

  lemma {:induction false} BlankWritten(n: nat)
    ensures Rendered(Block(Blank(n), Lf)) == Newlines(n)
  {
    if n > 0 {
      BlankWritten(n - 1);
      var line, rest := EditableLine("", Lf), Block(Blank(n - 1), Lf);
      assert Blank(n)[1..] == Blank(n - 1);
      assert ([line] + rest)[0] == line && ([line] + rest)[1..] == rest;
    }
  }

  lemma {:induction false} NewlinesEnd(n: nat)
    requires n > 0
    ensures EndsWithNewline(Newlines(n))
  {
    if n > 1 {
      NewlinesEnd(n - 1);
    }
  }

  lemma CopiedFromBlank(n: nat, source: string)
    requires n > 0 && source == Newlines(n)
    ensures InRange(source, 1, n) && CopiedLines(source, 1, n) == Blank(n) && |RawLines(source)| == n
    ensures EndsWithNewline(CopiedText(source, 1, n))
  {
    NewlinesAreBlankLines(n);
    BlankTrimmed(n);
    var texts := Texts(RawLines(source));
    assert texts == Blank(n) && texts[0..n] == texts;
    NewlinesEnd(n);
    CopiedEnd(source, 1, n);
  }

  lemma LaidTerminated(block: seq<string>, ending: Ending)
    requires block != []
    ensures Laid(block, ending, true) == Block(block, ending)
  {
    LastSplit(block);
    BlockAppend(block[..|block| - 1], block[|block| - 1], ending);
  }

  /** Blank lines copied behind a line "x". */
  lemma BlankLinesCopied(n: nat, source: string)
    requires n > 0 && source == Newlines(n)
    ensures InRange(source, 1, n) && CopiedLines(source, 1, n) == Blank(n)
    ensures |RawLines("x\n")| == 1 && Extended("x\n", source, 1, n, AtEnd) == "x\n" + source
  {
    var x := [EditableLine("x", Lf)];
    CopiedFromBlank(n, source);
    OneLine();
    LaidTerminated(Blank(n), Lf);
    BlankWritten(n);
    assert x[..1] == x && x[1..] == [];
    CatEmpty(x + Block(Blank(n), Lf));
    RenderedAppend(x, Block(Blank(n), Lf));
  }

  lemma OneLine()
    ensures RawLines("x\n") == [EditableLine("x", Lf)] && DominantEnding(RawLines("x\n")) == Lf
    ensures Rendered([EditableLine("x", Lf)]) == "x\n" && Lines("x\n") == ["x"]
  {
    var piece := "x" + "\n";
    assert piece == "x\n" && piece + "" == piece && piece[..|piece| - 1] == "x";
    LinesCons(piece, "");
    assert [EditableLine("x", Lf)][1..] == [];
  }

  lemma SeeThenCopy(text: string, source: string, n: nat, written: string, id: Id, root: string, key: string,
                    other: string, deltaBytes: Sizes)
    returns (w1: World, w2: World, w3: World)
    requires key != other && InRange(source, 1, n) && |CopiedLines(source, 1, n)| > ECHO_MAX
    requires Extended(text, source, 1, n, AtEnd) == written
    requires LfText(text) == text && LfText(written) == written && |text| <= MAX_CACHED_BYTES
             && |written| <= MAX_CACHED_BYTES && Lines(text) != [] && Fits(Whole(Lines(text)), deltaBytes)
    ensures var w0 := World(map[key := text, other := source], map[], 0, map[]);
            && Happens(w0, Asks(id, root, View(key, false, Whole(Lines(text)))), w1, deltaBytes)
            && Happens(w1, Asks(id, root, Extract(key, other, 1, n, AtEnd)), w2, deltaBytes)
            && Happens(w2, Asks(id, root, View(key, false, Unchanged(|Lines(written)|))), w3, deltaBytes)
            && key in w3.files && w3.files[key] == written && PictureOf(ClientOf(w3, id), key) == None
  {
    var w0 := World(map[key := text, other := source], map[], 0, map[]);
    w1 := FirstIsSeen(w0, id, root, key, deltaBytes);
    var op := Extract(key, other, 1, n, AtEnd);
    assert other !in ClientOf(w1, id).pictures;
    w2 := UntoldWriteIsTakenForKnown(w1, id, root, true, op, deltaBytes);
    w3 := LaterIsUnchanged(w2, id, root, key, deltaBytes);
  }

  /** A client views a file of one line and appends 31 blank lines of a file that it has never seen. The
      result shows 29 of them; the next view of the file says "unchanged". */
  lemma LongCopyIsTakenForKnown(id: Id, root: string, key: string, other: string, deltaBytes: Sizes)
    returns (w1: World, w2: World, w3: World)
    requires key != other
    ensures var source := Newlines(ECHO_MAX + 1);
            var w0 := World(map[key := "x\n", other := source], map[], 0, map[]);
            && Happens(w0, Asks(id, root, View(key, false, Whole(["x"]))), w1, deltaBytes)
            && Happens(w1, Asks(id, root, Extract(key, other, 1, ECHO_MAX + 1, AtEnd)), w2, deltaBytes)
            && Happens(w2, Asks(id, root, View(key, false, Unchanged(ECHO_MAX + 2))), w3, deltaBytes)
            && w3.files[key] == "x\n" + source && PictureOf(ClientOf(w3, id), key) == None
  {
    var n, source := ECHO_MAX + 1, Newlines(ECHO_MAX + 1);
    var written := "x\n" + source;
    OneLine();
    OneLineFits("x", deltaBytes);
    BlankLinesCopied(n, source);
    BlankLinesBehind(n, source, written);
    w1, w2, w3 := SeeThenCopy("x\n", source, n, written, id, root, key, other, deltaBytes);
  }

  lemma BlankLinesBehind(n: nat, source: string, written: string)
    requires source == Newlines(n) && written == "x\n" + source
    ensures LfText("x\n") == "x\n" && LfText(written) == written && |Lines(written)| == n + 1 && |written| == n + 2
  {
    NewlinesAreBlankLines(n);
    assert "x" + "\n" == "x\n";
    OneLfLine("x");
    assert "x\n"[..1] == "x";
    LfTextLine("x\n", source);
    LinesCons("x\n", source);
  }
}
