/** A whole batch edit call: its operations are parsed and resolved against the file, checked for
    conflicts, and applied; anything wrong is found before the file changes. */
module BatchCall {
  import opened Wrappers
  import opened LineText
  import opened EditableText
  import opened EditableContent
  import opened BatchOps
  import opened BatchEdit
  import opened BatchReport
  import opened Repetition

  /** A plain number or a line id. */
  datatype Endpoint = Number(n: int) | Id(line: nat, hash: string)

  datatype Request = Request(kind: Kind, start: Endpoint, end: Option<Endpoint>, content: string)

  /** Insertions go to the start, the end or a line id; replacements take line ids only. */
  function ParseTarget(r: Request): Option<Target>
  {
    match r.kind
    case Insertion =>
      if r.start.Id? then Some(IdAnchor(r.start.line, r.start.hash))
      else if r.start.n == 0 || r.start.n == -1 then Some(AnchorNumber(r.start.n)) else None
    case Replacement =>
      var end := if r.end.Some? then r.end.value else r.start;
      if r.start.Id? && end.Id? then Some(IdRange(r.start.line, r.start.hash, end.line, end.hash)) else None
  }

  /** Inserting nothing means inserting a blank line. */
  function ContentOf(r: Request): string
  {
    if r.kind == Insertion && r.content == "" then "\n" else r.content
  }

  function Resolved(r: Request, index: nat, texts: seq<string>, hash: string -> string): Option<Op>
  {
    var target := ParseTarget(r);
    if target.None? then None else
      match Resolve(target.value, texts, hash)
      case Ok(range) => Some(Op(r.kind, range, IncomingLines(ContentOf(r)), index))
      case Err(_) => None
  }

  ghost predicate AllParsed(requests: seq<Request>)
  {
    forall i | 0 <= i < |requests| :: ParseTarget(requests[i]).Some?
  }

  ghost predicate AllResolved(requests: seq<Request>, texts: seq<string>, hash: string -> string)
  {
    forall i | 0 <= i < |requests| :: Resolved(requests[i], i, texts, hash).Some?
  }

  /** The operations that the requests stand for, in the order listed. */
  ghost predicate StandFor(ops: seq<Op>, requests: seq<Request>, texts: seq<string>, hash: string -> string)
  {
    |ops| == |requests| && forall i | 0 <= i < |ops| :: Resolved(requests[i], i, texts, hash) == Some(ops[i])
  }

  /** All of them, if every request resolves. */
  ghost function OpsOf(requests: seq<Request>, texts: seq<string>, hash: string -> string): (ops: seq<Op>)
    requires AllResolved(requests, texts, hash)
    ensures StandFor(ops, requests, texts, hash)
  {
    seq(|requests|, i requires 0 <= i < |requests| => Resolved(requests[i], i, texts, hash).value)
  }

  lemma StandForOps(ops: seq<Op>, requests: seq<Request>, texts: seq<string>, hash: string -> string)
    requires StandFor(ops, requests, texts, hash)
    ensures AllResolved(requests, texts, hash) && ops == OpsOf(requests, texts, hash)
  {
    forall i | 0 <= i < |requests|
      ensures Resolved(requests[i], i, texts, hash) == Some(ops[i]) == Some(OpsOf(requests, texts, hash)[i])
    {
    }
  }

  // ----- what a request stands for

  /** The id names a line of the file that has its hash. */
  ghost predicate Names(e: Endpoint, texts: seq<string>, hash: string -> string)
  {
    match e
    case Number(_) => false
    case Id(line, h) => 1 <= line <= |texts| && hash(texts[line - 1]) == h
  }

  /** The gap that an insertion goes into: 0 is the start of the file, -1 its end, an id the gap below its
      line. */
  ghost predicate GoesInto(e: Endpoint, texts: seq<string>, hash: string -> string, gap: nat)
  {
    match e
    case Number(n) => (n == 0 && gap == 0) || (n == -1 && gap == |texts|)
    case Id(line, _) => Names(e, texts, hash) && gap == line
  }

  /** A request is well formed exactly if an insertion has an id, 0 or -1, and a replacement ids only. */
  lemma ParsesExactly(r: Request)
    ensures ParseTarget(r).Some? <==>
            match r.kind
            case Insertion => r.start.Id? || r.start == Number(0) || r.start == Number(-1)
            case Replacement => r.start.Id? && (r.end.Some? ==> r.end.value.Id?)
  {
  }

  /** The lines a request brings in; to insert nothing is to insert a blank line. */
  ghost function Brought(r: Request): seq<string>
  {
    if r.kind == Insertion && r.content == "" then [""] else IncomingLines(r.content)
  }

  /** Exactly the operation that a request stands for: an insertion of its lines into the gap it names, or
      a replacement of the lines from one named line to another that is not above it. */
  ghost predicate StandsFor(r: Request, i: nat, texts: seq<string>, hash: string -> string, op: Op)
  {
    && op.kind == r.kind && op.index == i
    && op.lines == Brought(r)
    && match r.kind
       case Insertion => op.range.Single? && GoesInto(r.start, texts, hash, op.range.line)
       case Replacement =>
         var end := if r.end.Some? then r.end.value else r.start;
         && Names(r.start, texts, hash) && Names(end, texts, hash) && r.start.line <= end.line
         && op.range == Range(r.start.line, end.line)
  }

  lemma StandsForExactly(r: Request, i: nat, texts: seq<string>, hash: string -> string, op: Op)
    ensures Resolved(r, i, texts, hash) == Some(op) <==> StandsFor(r, i, texts, hash, op)
  {
    ContentExactly(r);
    var target := ParseTarget(r);
    if target.Some? {
      ResolvesExactly(r, target.value, texts, hash, op.range);
      ResolvedIs(r, i, texts, hash, target.value);
    }
  }

  lemma ContentExactly(r: Request)
    ensures IncomingLines(ContentOf(r)) == Brought(r)
  {
    IncomingLinesCons("", "");
    assert "" + "\n" + "" == "\n";
  }

  lemma ResolvesExactly(r: Request, target: Target, texts: seq<string>, hash: string -> string, range: LineRange)
    requires ParseTarget(r) == Some(target)
    ensures Resolve(target, texts, hash) == Ok(range) <==>
            match r.kind
            case Insertion => range.Single? && GoesInto(r.start, texts, hash, range.line)
            case Replacement =>
              var end := if r.end.Some? then r.end.value else r.start;
              && Names(r.start, texts, hash) && Names(end, texts, hash) && r.start.line <= end.line
              && range == Range(r.start.line, end.line)
  {
  }

  lemma ResolvedIs(r: Request, i: nat, texts: seq<string>, hash: string -> string, target: Target)
    requires ParseTarget(r) == Some(target)
    ensures Resolved(r, i, texts, hash)
         == match Resolve(target, texts, hash)
            case Ok(range) => Some(Op(r.kind, range, IncomingLines(ContentOf(r)), i))
            case Err(_) => None
  {
  }

  const MAX_OPERATIONS := 50

  datatype CallError =
    | NoOperations
    | TooMany
    | Malformed(failed: seq<nat>)
    | Stale(failed: seq<nat>)
    | Conflicting(first: nat, second: nat)
    | Repeating

  // ----- resolving

  ghost predicate Climbs(s: seq<nat>) { forall i, j | 0 <= i < j < |s| :: s[i] < s[j] }

  lemma ClimbsOn(s: seq<nat>, n: nat)
    requires Climbs(s) && forall i | i in s :: i < n
    ensures Climbs(s + [n])
  {
    forall i | 0 <= i < |s|
      ensures s[i] < n
    {
      assert s[i] in s;
    }
  }

  method ParseAll(requests: seq<Request>) returns (failed: seq<nat>)
    ensures Climbs(failed)
    ensures forall i: nat :: i in failed <==> i < |requests| && ParseTarget(requests[i]).None?
  {
    failed := [];
    for n := 0 to |requests|
      invariant Climbs(failed)
      invariant forall i: nat :: i in failed <==> i < n && ParseTarget(requests[i]).None?
    {
      if ParseTarget(requests[n]).None? {
        ClimbsOn(failed, n);
        failed := failed + [n];
      }
    }
  }

  lemma StandForNext(ops: seq<Op>, requests: seq<Request>, n: nat, texts: seq<string>, hash: string -> string, op: Op)
    requires n < |requests| && StandFor(ops, requests[..n], texts, hash)
    requires Resolved(requests[n], n, texts, hash) == Some(op)
    ensures StandFor(ops + [op], requests[..n + 1], texts, hash)
  {
    forall i | 0 <= i <= n
      ensures Resolved(requests[..n + 1][i], i, texts, hash) == Some((ops + [op])[i])
    {
      if i < n {
        assert Resolved(requests[..n][i], i, texts, hash) == Some(ops[i]);
      }
    }
  }

  /** Resolves every request, or names all that cannot be. */
  method ResolveAll(requests: seq<Request>, texts: seq<string>, hash: string -> string)
    returns (ops: seq<Op>, failed: seq<nat>)
    ensures Climbs(failed)
    ensures forall i: nat :: i in failed <==> i < |requests| && Resolved(requests[i], i, texts, hash).None?
    ensures failed == [] ==> StandFor(ops, requests, texts, hash)
  {
    ops, failed := [], [];
    for n := 0 to |requests|
      invariant Climbs(failed)
      invariant forall i: nat :: i in failed <==> i < n && Resolved(requests[i], i, texts, hash).None?
      invariant failed == [] ==> StandFor(ops, requests[..n], texts, hash)
    {
      var op := Resolved(requests[n], n, texts, hash);
      if op.None? {
        ClimbsOn(failed, n);
        failed := failed + [n];
      } else {
        if failed == [] {
          StandForNext(ops, requests, n, texts, hash, op.value);
        }
        ops := ops + [op.value];
      }
    }
    assert requests[..|requests|] == requests;
  }

  /** The normalised text has as many lines as the file. */
  lemma {:induction false} NormalizedLineCount(lines: seq<EditableLine>)
    requires WellFormed(lines)
    ensures |RawLines(Normalized(lines))| == |lines|
  {
    if lines != [] {
      SuffixWellFormed(lines, 1);
      NormalizedLineCount(lines[1..]);
      var piece := LineLf(lines[0]);
      assert piece[..|lines[0].text|] == lines[0].text;
      RawLinesCons(piece, Normalized(lines[1..]));
    }
  }

  lemma ResolvedTargets(ops: seq<Op>, requests: seq<Request>, texts: seq<string>, hash: string -> string)
    requires StandFor(ops, requests, texts, hash)
    ensures forall op | op in ops :: Targeted(op, |texts|) && (op.kind == Insertion ==> op.lines != [])
  {
    forall i | 0 <= i < |ops|
      ensures Targeted(ops[i], |texts|) && (ops[i].kind == Insertion ==> ops[i].lines != [])
    {
      assert Resolved(requests[i], i, texts, hash) == Some(ops[i]);
      ResolvedIsTargeted(ParseTarget(requests[i]).value, texts, hash, ops[i]);
      RawWellFormed(ContentOf(requests[i]));
    }
  }

  /** The operations of a call without conflicts list a compatible batch, each once, and every
      insertion brings in a line; so what is proved of listings holds for every call. */
  lemma CallIsListing(ops: seq<Op>, requests: seq<Request>, texts: seq<string>, hash: string -> string)
    requires StandFor(ops, requests, texts, hash) && ConflictFree(ops)
    ensures Listing(ops, AsSet(ops), |texts|) && forall op | op in ops && op.kind == Insertion :: op.lines != []
  {
    ResolvedTargets(ops, requests, texts, hash);
    ConflictFreeIsCompatible(ops);
    forall i, j | 0 <= i < j < |ops|
      ensures ops[i] != ops[j]
    {
      assert Resolved(requests[i], i, texts, hash) == Some(ops[i]);
      assert Resolved(requests[j], j, texts, hash) == Some(ops[j]);
    }
    DistinctLists(ops, AsSet(ops));
  }

  // ----- the call

  /** The lines that operations make of a raw file, all of them targeting it as it is. */
  ghost function BatchLines(raw: string, ops: seq<Op>): seq<EditableLine>
  {
    var lines, ending := RawLines(raw), DominantEnding(RawLines(raw));
    Preserved(Edited(lines, AsSet(ops), ending), ending, EndsWithNewline(raw))
  }

  ghost function BatchResult(raw: string, ops: seq<Op>): string { Rendered(BatchLines(raw, ops)) }

  /** There are some requests but not too many, and all of them resolve, do not conflict and do not
      repeat lines around them. */
  ghost predicate Accepts(raw: string, requests: seq<Request>, hash: string -> string)
  {
    var texts := TextsOf(raw);
    && 1 <= |requests| <= MAX_OPERATIONS && AllResolved(requests, texts, hash)
    && ConflictFree(OpsOf(requests, texts, hash)) && !AnyRepeats(OpsOf(requests, texts, hash), texts)
  }

  /** The lines that ids are resolved against. */
  function TextsOf(raw: string): seq<string> { Texts(RawLines(LfText(raw))) }

  /** Edits a file by a batch. The call succeeds exactly if the batch is acceptable; applying it then
      cannot fail, and the result is the simultaneous edit. Otherwise it names every request at fault,
      or a conflicting pair. */
  method EditBatch(raw: string, requests: seq<Request>, hash: string -> string) returns (r: Result<string, CallError>)
    ensures r.Ok? <==> Accepts(raw, requests, hash)
    ensures r.Ok? ==> r.value == BatchResult(raw, OpsOf(requests, TextsOf(raw), hash))
    ensures r == Err(NoOperations) <==> requests == []
    ensures r == Err(TooMany) <==> |requests| > MAX_OPERATIONS
    ensures r.Err? && r.error.Malformed? <==> 1 <= |requests| <= MAX_OPERATIONS && !AllParsed(requests)
    ensures r.Err? && r.error.Stale? <==>
              1 <= |requests| <= MAX_OPERATIONS && AllParsed(requests) && !AllResolved(requests, TextsOf(raw), hash)
    ensures r.Err? && r.error.Conflicting? <==>
              1 <= |requests| <= MAX_OPERATIONS && AllResolved(requests, TextsOf(raw), hash)
              && !ConflictFree(OpsOf(requests, TextsOf(raw), hash))
    ensures r.Err? && r.error.Malformed? ==>
              r.error.failed != [] && Climbs(r.error.failed)
              && forall i: nat :: i in r.error.failed <==> i < |requests| && ParseTarget(requests[i]).None?
    ensures r.Err? && r.error.Stale? ==>
              r.error.failed != [] && Climbs(r.error.failed)
              && forall i: nat ::
                i in r.error.failed <==> i < |requests| && Resolved(requests[i], i, TextsOf(raw), hash).None?
    ensures r.Err? && r.error.Conflicting? ==>
              AllResolved(requests, TextsOf(raw), hash) && r.error.first < r.error.second < |requests|
              && var ops := OpsOf(requests, TextsOf(raw), hash); Conflict(ops[r.error.first], ops[r.error.second])
    ensures r == Err(Repeating) ==>
              AllResolved(requests, TextsOf(raw), hash)
              && AnyRepeats(OpsOf(requests, TextsOf(raw), hash), TextsOf(raw))
  {
    if requests == [] {
      return Err(NoOperations);
    }
    if |requests| > MAX_OPERATIONS {
      return Err(TooMany);
    }
    var content := new Content.FromRaw(raw);
    var normalized := content.NormalizedText();
    RawNormalized(raw);
    var texts := Texts(RawLines(normalized));
    NormalizedLineCount(content.lines);
    var malformed := ParseAll(requests);
    if malformed != [] {
      assert malformed[0] in malformed;
      assert Resolved(requests[malformed[0]], malformed[0], texts, hash).None?;
      return Err(Malformed(malformed));
    }
    var resolved, stale := ResolveAll(requests, texts, hash);
    if stale != [] {
      assert stale[0] in stale;
      assert Resolved(requests[stale[0]], stale[0], texts, hash).None?;
      return Err(Stale(stale));
    }
    StandForOps(resolved, requests, texts, hash);
    var conflict := DetectConflicts(resolved);
    if conflict.Some? {
      return Err(Conflicting(conflict.value.0, conflict.value.1));
    }
    var repeats := FindRepeat(resolved, texts);
    if repeats {
      return Err(Repeating);
    }
    ResolvedTargets(resolved, requests, texts, hash);
    var edited := ApplyBatch(content.lines, content.dominant, content.hadTrailingNewline, resolved);
    content.lines := edited.value;
    var out := content.RenderedText();
    r := Ok(out);
  }

  // ----- a call with one request

  lemma OneGap(op: Op, ending: Ending, t: nat)
    ensures Gap({op}, ending, t) == if op.kind == Insertion && First(op) == t then Block(op.lines, ending) else []
  {
    assert InsertedAt({op}, t) == if op.kind == Insertion && First(op) == t then Some(op) else None;
  }

  lemma OneOut(lines: seq<EditableLine>, op: Op, ending: Ending, t: nat)
    requires 1 <= t <= |lines|
    ensures Out(lines, {op}, ending, t)
         == if op.kind == Insertion || t < First(op) || Last(op) < t then [lines[t - 1]]
            else if First(op) == t then Block(op.lines, ending) else []
  {
    assert Covering({op}, t) == if Covers(op, t) then Some(op) else None;
  }

  /** From gap t on, one insertion into gap g changes that gap only. */
  lemma {:induction false} OneInsertion(lines: seq<EditableLine>, op: Op, ending: Ending, t: nat, g: nat,
                                        block: seq<EditableLine>, all: seq<EditableLine>)
    requires op.kind == Insertion && First(op) == g <= |lines| && t <= |lines| && block == Block(op.lines, ending)
    requires all == EditedFrom(lines, {op}, ending, t)
    ensures all == if t <= g then lines[t..g] + block + lines[g..] else lines[t..]
    decreases |lines| - t
  {
    if t < |lines| {
      var rest := EditedFrom(lines, {op}, ending, t + 1);
      OneInsertion(lines, op, ending, t + 1, g, block, rest);
      InsertionStep(lines, op, ending, t, g, block, rest, all);
    } else {
      var gap := if t == g then block else [];
      OneGap(op, ending, t);
      EditedNext(lines, {op}, ending, t, gap, []);
      InsertionEnds(lines, g, block);
    }
  }

  lemma InsertionStep(lines: seq<EditableLine>, op: Op, ending: Ending, t: nat, g: nat, block: seq<EditableLine>,
                      rest: seq<EditableLine>, all: seq<EditableLine>)
    requires op.kind == Insertion && First(op) == g <= |lines| && t < |lines| && block == Block(op.lines, ending)
    requires all == EditedFrom(lines, {op}, ending, t) && rest == EditedFrom(lines, {op}, ending, t + 1)
    requires rest == if t + 1 <= g then lines[t + 1..g] + block + lines[g..] else lines[t + 1..]
    ensures all == if t <= g then lines[t..g] + block + lines[g..] else lines[t..]
  {
    var gap := if t == g then block else [];
    assert all == gap + ([lines[t]] + rest) by {
      OneGap(op, ending, t);
      OneOut(lines, op, ending, t + 1);
      EditedIs(lines, {op}, ending, t, gap, [lines[t]], rest, all);
    }
    InsertionJoins(lines, t, g, block, gap, rest, all);
  }

  lemma EditedIs(lines: seq<EditableLine>, ops: set<Op>, ending: Ending, t: nat, gap: seq<EditableLine>,
                 out: seq<EditableLine>, rest: seq<EditableLine>, all: seq<EditableLine>)
    requires t < |lines| && gap == Gap(ops, ending, t) && out == Out(lines, ops, ending, t + 1)
    requires rest == EditedFrom(lines, ops, ending, t + 1) && all == EditedFrom(lines, ops, ending, t)
    ensures all == gap + (out + rest)
  {
    EditedNext(lines, ops, ending, t, gap, out);
  }

  lemma InsertionJoins<T>(lines: seq<T>, t: nat, g: nat, block: seq<T>, gap: seq<T>, rest: seq<T>, all: seq<T>)
    requires t < |lines| && g <= |lines| && gap == if t == g then block else []
    requires rest == if t + 1 <= g then lines[t + 1..g] + block + lines[g..] else lines[t + 1..]
    requires all == gap + ([lines[t]] + rest)
    ensures all == if t <= g then lines[t..g] + block + lines[g..] else lines[t..]
  {
    assert lines[t..] == [lines[t]] + lines[t + 1..];
    if t < g {
      assert lines[t..g] == [lines[t]] + lines[t + 1..g];
    }
  }

  lemma InsertionEnds<T>(lines: seq<T>, g: nat, block: seq<T>)
    requires g <= |lines|
    ensures (if |lines| == g then block else []) + []
         == if |lines| <= g then lines[|lines|..g] + block + lines[g..] else lines[|lines|..]
  {
  }

  /** From gap t on, one replacement changes the lines of its range only. */
  lemma {:induction false} OneReplacement(lines: seq<EditableLine>, op: Op, ending: Ending, t: nat, s: nat, e: nat,
                                          block: seq<EditableLine>)
    requires op.kind == Replacement && 1 <= First(op) == s + 1 <= Last(op) == e <= |lines| && t <= |lines|
    requires block == Block(op.lines, ending)
    ensures EditedFrom(lines, {op}, ending, t)
         == if t <= s then lines[t..s] + block + lines[e..] else if t < e then lines[e..] else lines[t..]
    decreases |lines| - t
  {
    OneGap(op, ending, t);
    if t < |lines| {
      var out := if t < s || e <= t then [lines[t]] else if t == s then block else [];
      OneOut(lines, op, ending, t + 1);
      OneReplacement(lines, op, ending, t + 1, s, e, block);
      EditedNext(lines, {op}, ending, t, [], out);
      ReplacementJoins(lines, t, s, e, block, out);
    } else {
      EditedNext(lines, {op}, ending, t, [], []);
    }
  }

  lemma ReplacementJoins<T>(lines: seq<T>, t: nat, s: nat, e: nat, block: seq<T>, out: seq<T>)
    requires t < |lines| && s < e <= |lines|
    requires out == if t < s || e <= t then [lines[t]] else if t == s then block else []
    ensures var rest := if t + 1 <= s then lines[t + 1..s] + block + lines[e..]
                        else if t + 1 < e then lines[e..] else lines[t + 1..];
            [] + (out + rest)
            == if t <= s then lines[t..s] + block + lines[e..] else if t < e then lines[e..] else lines[t..]
  {
    assert lines[t..] == [lines[t]] + lines[t + 1..];
    if t < s {
      assert lines[t..s] == [lines[t]] + lines[t + 1..s];
    } else if t == s {
      assert lines[t..s] == [];
    }
  }

  /** What an accepted insertion by itself does to a file: its lines stand in the gap it names, and the texts
      of all other lines are as they were, in their order. */
  lemma InsertionDoes(raw: string, r: Request, hash: string -> string) returns (gap: nat)
    requires Accepts(raw, [r], hash) && r.kind == Insertion
    ensures var texts, written := Texts(RawLines(raw)), BatchLines(raw, OpsOf([r], TextsOf(raw), hash));
            && BatchResult(raw, OpsOf([r], TextsOf(raw), hash)) == Rendered(written)
            && GoesInto(r.start, TextsOf(raw), hash, gap) && gap <= |texts|
            && Texts(written) == texts[..gap] + Brought(r) + texts[gap..]
            && (r.start == Number(0) ==> Texts(written) == Brought(r) + texts)
            && (r.start == Number(-1) ==> Texts(written) == texts + Brought(r))
  {
    var texts, ops, lines := TextsOf(raw), OpsOf([r], TextsOf(raw), hash), RawLines(raw);
    OneOp(r, texts, hash, ops);
    SameLineCount(raw);
    BroughtSome(r);
    gap := First(ops[0]);
    InsertionWrites(raw, ops[0], gap, lines, DominantEnding(lines));
    AtEitherEnd(Texts(lines), Brought(r));
  }

  lemma AtEitherEnd<T>(s: seq<T>, block: seq<T>)
    ensures s[..0] + block + s[0..] == block + s && s[..|s|] + block + s[|s|..] == s + block
  {
  }

  /** What an accepted replacement by itself does to a file: its lines stand in place of those it names, and
      the texts of all other lines are as they were; if no line is left, the file may end in a blank one. */
  lemma ReplacementDoes(raw: string, r: Request, hash: string -> string) returns (first: nat, last: nat)
    requires Accepts(raw, [r], hash) && r.kind == Replacement
    ensures var texts, written := Texts(RawLines(raw)), BatchLines(raw, OpsOf([r], TextsOf(raw), hash));
            && BatchResult(raw, OpsOf([r], TextsOf(raw), hash)) == Rendered(written)
            && r.start.Id? && r.start.line == first && (if r.end.Some? then r.end.value else r.start).Id?
            && (if r.end.Some? then r.end.value else r.start).line == last && 1 <= first <= last <= |texts|
            && var left := texts[..first - 1] + Brought(r) + texts[last..];
               left != [] ==> Texts(written) == left
  {
    var texts, ops, lines := TextsOf(raw), OpsOf([r], TextsOf(raw), hash), RawLines(raw);
    OneOp(r, texts, hash, ops);
    SameLineCount(raw);
    first, last := First(ops[0]), Last(ops[0]);
    ReplacementWrites(raw, ops[0], first - 1, last, lines, DominantEnding(lines));
  }

  lemma OneOp(r: Request, texts: seq<string>, hash: string -> string, ops: seq<Op>)
    requires AllResolved([r], texts, hash) && ops == OpsOf([r], texts, hash)
    ensures |ops| == 1 && AsSet(ops) == {ops[0]} && StandsFor(r, 0, texts, hash, ops[0])
  {
    assert Resolved([r][0], 0, texts, hash) == Some(ops[0]);
    StandsForExactly(r, 0, texts, hash, ops[0]);
    assert ops == [ops[0]];
  }

  lemma BroughtSome(r: Request)
    requires r.kind == Insertion
    ensures Brought(r) != []
  {
    ContentExactly(r);
    RawWellFormed(ContentOf(r));
  }

  lemma SameLineCount(raw: string)
    ensures |TextsOf(raw)| == |RawLines(raw)|
  {
    RawNormalized(raw);
    RawWellFormed(raw);
    NormalizedLineCount(RawLines(raw));
  }

  lemma {:induction false} TextsAppend(p: seq<EditableLine>, q: seq<EditableLine>)
    ensures Texts(p + q) == Texts(p) + Texts(q)
  {
  }

  lemma {:induction false} TextsOfBlock(content: seq<string>, ending: Ending)
    ensures Texts(Block(content, ending)) == content
  {
    if content != [] {
      TextsOfBlock(content[1..], ending);
    }
  }

  lemma TextsOfPreserved(lines: seq<EditableLine>, ending: Ending, had: bool)
    requires lines != []
    ensures Texts(Preserved(lines, ending, had)) == Texts(lines)
  {
    forall i | 0 <= i < |lines|
      ensures |Preserved(lines, ending, had)| == |lines| && Preserved(lines, ending, had)[i].text == lines[i].text
    {
      PreservedKeepsTerminators(lines, ending, had, i);
    }
    PreservedKeepsTerminators(lines, ending, had, 0);
  }

  lemma TextsOfSpliced(lines: seq<EditableLine>, from: nat, to: nat, content: seq<string>, ending: Ending)
    requires from <= to <= |lines|
    ensures Texts(lines[..from] + Block(content, ending) + lines[to..])
         == Texts(lines)[..from] + content + Texts(lines)[to..]
  {
    TextsAppend(lines[..from] + Block(content, ending), lines[to..]);
    TextsAppend(lines[..from], Block(content, ending));
    TextsOfBlock(content, ending);
    assert Texts(lines[..from]) == Texts(lines)[..from] && Texts(lines[to..]) == Texts(lines)[to..];
  }

  lemma InsertionWrites(raw: string, op: Op, g: nat, lines: seq<EditableLine>, ending: Ending)
    requires lines == RawLines(raw) && ending == DominantEnding(lines)
    requires op.kind == Insertion && First(op) == g <= |lines| && op.lines != []
    ensures Texts(Preserved(Edited(lines, {op}, ending), ending, EndsWithNewline(raw)))
         == Texts(lines)[..g] + op.lines + Texts(lines)[g..]
  {
    OneInsertion(lines, op, ending, 0, g, Block(op.lines, ending), Edited(lines, {op}, ending));
    assert lines[0..g] == lines[..g];
    TextsOfSpliced(lines, g, g, op.lines, ending);
    TextsOfPreserved(Edited(lines, {op}, ending), ending, EndsWithNewline(raw));
  }

  lemma ReplacementWrites(raw: string, op: Op, s: nat, e: nat, lines: seq<EditableLine>, ending: Ending)
    requires lines == RawLines(raw) && ending == DominantEnding(lines)
    requires op.kind == Replacement && First(op) == s + 1 <= Last(op) == e <= |lines|
    ensures var texts := Texts(lines)[..s] + op.lines + Texts(lines)[e..];
            texts != [] ==> Texts(Preserved(Edited(lines, {op}, ending), ending, EndsWithNewline(raw))) == texts
  {
    OneReplacement(lines, op, ending, 0, s, e, Block(op.lines, ending));
    assert lines[0..s] == lines[..s];
    TextsOfSpliced(lines, s, e, op.lines, ending);
    if Edited(lines, {op}, ending) != [] {
      TextsOfPreserved(Edited(lines, {op}, ending), ending, EndsWithNewline(raw));
    }
  }

  // ----- the order of the requests

  /** The operation a request stands for, wherever it is listed. */
  function Plain(r: Request, texts: seq<string>, hash: string -> string): Option<Op> { Resolved(r, 0, texts, hash) }

  lemma PlainIsAlike(r: Request, i: nat, texts: seq<string>, hash: string -> string)
    ensures Resolved(r, i, texts, hash).Some? <==> Plain(r, texts, hash).Some?
    ensures Plain(r, texts, hash).Some? ==> Alike(Plain(r, texts, hash).value, Resolved(r, i, texts, hash).value)
  {
  }

  lemma AlikeMeansTheSame(p: Op, q: Op, r: Op, s: Op, texts: seq<string>)
    requires Alike(p, q) && Alike(r, s)
    ensures (Conflict(p, r) <==> Conflict(q, s)) && (Repeats(p, texts) <==> Repeats(q, texts))
    ensures Conflict(p, r) <==> Conflict(r, p)
  {
  }

  lemma {:induction false} TwiceListed<T>(s: seq<T>, x: T) returns (i: nat, j: nat)
    requires multiset(s)[x] >= 2
    ensures i < j < |s| && s[i] == s[j] == x
  {
    assert s == s[..|s| - 1] + [s[|s| - 1]];
    if s[|s| - 1] == x {
      assert multiset(s[..|s| - 1])[x] >= 1;
      i :| 0 <= i < |s| - 1 && s[..|s| - 1][i] == x;
      j := |s| - 1;
    } else {
      i, j := TwiceListed(s[..|s| - 1], x);
    }
  }

  lemma ListedTwice<T>(s: seq<T>, i: nat, j: nat)
    requires i < j < |s| && s[i] == s[j]
    ensures multiset(s)[s[i]] >= 2
  {
    assert s == s[..j] + [s[j]] + s[j + 1..];
    assert s[..j][i] in multiset(s[..j]);
  }

  /** Any two entries of one list stand, at different places, in a list that holds the same entries. */
  lemma PairInOther<T>(s: seq<T>, t: seq<T>, i: nat, j: nat) returns (g: nat, h: nat)
    requires multiset(s) == multiset(t) && i < j < |t|
    ensures g < |s| && h < |s| && g != h && s[g] == t[i] && s[h] == t[j]
  {
    if t[i] == t[j] {
      ListedTwice(t, i, j);
      g, h := TwiceListed(s, t[i]);
    } else {
      assert t[i] in multiset(t) && t[j] in multiset(t);
      g :| 0 <= g < |s| && s[g] == t[i];
      h :| 0 <= h < |s| && s[h] == t[j];
    }
  }

  /** Every operation of one order has one alike in the other. */
  lemma OpsFoundIn(requests: seq<Request>, requests': seq<Request>, ops: seq<Op>, ops': seq<Op>, texts: seq<string>,
                   hash: string -> string)
    requires multiset(requests) == multiset(requests')
    requires StandFor(ops, requests, texts, hash) && StandFor(ops', requests', texts, hash)
    ensures FoundIn(AsSet(ops'), AsSet(ops))
  {
    forall x | x in AsSet(ops')
      ensures exists y :: y in AsSet(ops) && Alike(x, y)
    {
      var i :| 0 <= i < |ops'| && ops'[i] == x;
      assert requests'[i] in multiset(requests');
      var g :| 0 <= g < |requests| && requests[g] == requests'[i];
      assert Resolved(requests'[i], i, texts, hash) == Some(x) && Resolved(requests[g], g, texts, hash) == Some(ops[g]);
      PlainIsAlike(requests[g], i, texts, hash);
      PlainIsAlike(requests[g], g, texts, hash);
      assert ops[g] in AsSet(ops);
    }
  }

  lemma AcceptedInOtherOrder(raw: string, requests: seq<Request>, requests': seq<Request>, hash: string -> string)
    requires multiset(requests) == multiset(requests') && Accepts(raw, requests, hash)
    ensures Accepts(raw, requests', hash)
  {
    var texts := TextsOf(raw);
    SameLength(requests, requests');
    ResolvedInOtherOrder(requests, requests', texts, hash);
    var ops, ops' := OpsOf(requests, texts, hash), OpsOf(requests', texts, hash);
    forall i, j | 0 <= i < j < |ops'|
      ensures !Conflict(ops'[i], ops'[j])
    {
      var g, h := PairInOther(requests, requests', i, j);
      SamePair(requests, requests', ops, ops', texts, hash, i, j, g, h);
      assert g < h || h < g;
    }
    OpsFoundIn(requests, requests', ops, ops', texts, hash);
    if AnyRepeats(ops', texts) {
      var i :| 0 <= i < |ops'| && Repeats(ops'[i], texts);
      assert ops'[i] in AsSet(ops');
      var y :| y in AsSet(ops) && Alike(ops'[i], y);
      AlikeMeansTheSame(ops'[i], y, y, y, texts);
      assert false;
    }
  }

  lemma SameLength<T>(s: seq<T>, t: seq<T>)
    requires multiset(s) == multiset(t)
    ensures |s| == |t|
  {
    assert |multiset(s)| == |s| && |multiset(t)| == |t|;
  }

  lemma ResolvedInOtherOrder(requests: seq<Request>, requests': seq<Request>, texts: seq<string>,
                             hash: string -> string)
    requires multiset(requests) == multiset(requests') && AllResolved(requests, texts, hash)
    ensures AllResolved(requests', texts, hash)
  {
    forall i | 0 <= i < |requests'|
      ensures Resolved(requests'[i], i, texts, hash).Some?
    {
      assert requests'[i] in multiset(requests');
      var g :| 0 <= g < |requests| && requests[g] == requests'[i];
      PlainIsAlike(requests[g], g, texts, hash);
      PlainIsAlike(requests[g], i, texts, hash);
    }
  }

  lemma SamePair(requests: seq<Request>, requests': seq<Request>, ops: seq<Op>, ops': seq<Op>, texts: seq<string>,
                 hash: string -> string, i: nat, j: nat, g: nat, h: nat)
    requires StandFor(ops, requests, texts, hash) && StandFor(ops', requests', texts, hash)
    requires i < |ops'| && j < |ops'| && g < |ops| && h < |ops|
    requires requests[g] == requests'[i] && requests[h] == requests'[j]
    ensures Conflict(ops'[i], ops'[j]) ==> Conflict(ops[g], ops[h]) && Conflict(ops[h], ops[g])
  {
    assert Resolved(requests'[i], i, texts, hash) == Some(ops'[i])
        && Resolved(requests'[j], j, texts, hash) == Some(ops'[j]);
    assert Resolved(requests[g], g, texts, hash) == Some(ops[g])
        && Resolved(requests[h], h, texts, hash) == Some(ops[h]);
    PlainIsAlike(requests[g], i, texts, hash);
    PlainIsAlike(requests[g], g, texts, hash);
    PlainIsAlike(requests[h], j, texts, hash);
    PlainIsAlike(requests[h], h, texts, hash);
    AlikeMeansTheSame(ops'[i], ops[g], ops'[j], ops[h], texts);
  }

  /** Listing the same requests in another order changes neither whether the call succeeds nor what it
      makes of the file. */
  lemma OrderIsIrrelevant(raw: string, requests: seq<Request>, requests': seq<Request>, hash: string -> string)
    requires multiset(requests) == multiset(requests')
    ensures Accepts(raw, requests, hash) <==> Accepts(raw, requests', hash)
    ensures Accepts(raw, requests, hash) && Accepts(raw, requests', hash) ==>
              BatchResult(raw, OpsOf(requests, TextsOf(raw), hash))
              == BatchResult(raw, OpsOf(requests', TextsOf(raw), hash))
  {
    if Accepts(raw, requests, hash) {
      AcceptedInOtherOrder(raw, requests, requests', hash);
    }
    if Accepts(raw, requests', hash) {
      AcceptedInOtherOrder(raw, requests', requests, hash);
      var texts, lines := TextsOf(raw), RawLines(raw);
      var ops, ops' := OpsOf(requests, texts, hash), OpsOf(requests', texts, hash);
      OpsFoundIn(requests, requests', ops, ops', texts, hash);
      OpsFoundIn(requests', requests, ops', ops, texts, hash);
      ConflictFreeIsCompatible(ops);
      ConflictFreeIsCompatible(ops');
      AlikeFollows(AsSet(ops), AsSet(ops'));
      AlikeFollows(AsSet(ops'), AsSet(ops));
      AlikeEdited(lines, DominantEnding(lines), AsSet(ops), AsSet(ops'), 0);
    }
  }
}
