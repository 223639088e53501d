/** Whole runs of the delta-view protocol: what the server remembers of each client's picture of a
    file, against what the client really holds. Requests are atomic. */
module ViewProtocol {
  import opened Wrappers
  import opened LineText
  import opened DeltaShape
  import opened DeltaRender
  import opened ViewCache
  import opened Sessions
  import opened Extraction

  const MAX_RESULT_BYTES := 8 * 1024 * 1024

  /** The length of a delta's text. */
  type Sizes = seq<Item<string>> -> nat

  /** A client's context: its generation, and the lines of each file as the client knows them. */
  datatype Client = Client(epoch: nat, pictures: map<string, seq<string>>)

  datatype World = World(files: map<string, string>, sessions: Table, now: nat, clients: map<Id, Client>)

  const NEW_CLIENT := Client(0, map[])

  function ClientOf(w: World, id: Id): Client { if id in w.clients then w.clients[id] else NEW_CLIENT }

  function PictureOf(c: Client, key: string): Option<seq<string>>
  {
    if key in c.pictures then Some(c.pictures[key]) else None
  }

  // ----- the size of a result

  function Digits(n: nat): nat { if n < 10 then 1 else 1 + Digits(n / 10) }

  /** The length of the lines from the given number on, each written "N:hh|text" and joined by newlines. */
  function LinesBytes(lines: seq<string>, first: nat): nat
    decreases |lines|
  {
    if lines == [] then 0
    else Digits(first) + 4 + |lines[0]| + (if |lines| == 1 then 0 else 1) + LinesBytes(lines[1..], first + 1)
  }

  /** A number in decimal. */
  function Decimal(n: nat): string
  {
    if n < 10 then [['0', '1', '2', '3', '4', '5', '6', '7', '8', '9'][n]] else Decimal(n / 10) + Decimal(n % 10)
  }

  /** The lines as a view shows them, from the given number on, each with its id. */
  function ViewText(lines: seq<string>, first: nat, hash: string -> string): string
    decreases |lines|
  {
    if lines == [] then ""
    else Decimal(first) + ":" + hash(lines[0]) + "|" + lines[0]
         + (if |lines| == 1 then "" else "\n") + ViewText(lines[1..], first + 1, hash)
  }

  lemma {:induction false} DecimalDigits(n: nat)
    ensures |Decimal(n)| == Digits(n)
  {
    if n >= 10 {
      DecimalDigits(n / 10);
      assert |Decimal(n % 10)| == 1;
    }
  }

  /** The length that decides whether a view is rejected is that of the text it shows. */
  lemma {:induction false} LinesBytesIsLength(lines: seq<string>, first: nat, hash: string -> string)
    requires forall line :: |hash(line)| == 2
    ensures |ViewText(lines, first, hash)| == LinesBytes(lines, first)
    decreases |lines|
  {
    if lines != [] {
      DecimalDigits(first);
      LinesBytesIsLength(lines[1..], first + 1, hash);
    }
  }

  const TOO_MANY_CHANGES := "[changed since your last view: too many changes for a delta, full content follows]\n"

  /** The result of a view is rejected, after the cache was set, if it is too long; a delta's length
      is given by the parameter. */
  predicate Fits(a: Answer, deltaBytes: Sizes)
  {
    match a
    case Delta(view) => deltaBytes(view) <= MAX_RESULT_BYTES
    case Whole(lines) => LinesBytes(lines, 1) <= MAX_RESULT_BYTES
    case TooManyChanges(lines) => |TOO_MANY_CHANGES| + LinesBytes(lines, 1) <= MAX_RESULT_BYTES
    case _ => true
  }

  /** Exactly the answers whose text is within the limit fit; short notices always do. */
  lemma FitsExactly(a: Answer, deltaBytes: Sizes, hash: string -> string)
    requires forall line :: |hash(line)| == 2
    ensures Fits(a, deltaBytes) <==>
            match a
            case Delta(view) => deltaBytes(view) <= MAX_RESULT_BYTES
            case Whole(lines) => |ViewText(lines, 1, hash)| <= MAX_RESULT_BYTES
            case TooManyChanges(lines) => |TOO_MANY_CHANGES + ViewText(lines, 1, hash)| <= MAX_RESULT_BYTES
            case Unchanged(_) => true
            case EmptyFile => true
  {
    match a {
      case Whole(lines) => LinesBytesIsLength(lines, 1, hash);
      case TooManyChanges(lines) => LinesBytesIsLength(lines, 1, hash);
      case _ =>
    }
  }

  // ----- events

  /** What a request does to one file. Edits give the texts that are noted, which are the file's raw
      texts or their normalised forms. */
  datatype Operation =
    | View(key: string, full: bool, answer: Answer)
    | Edit(key: string, before: string, after: string, raw: string)
    | Create(key: string, raw: string)
    | Extract(key: string, source: string, first: nat, last: nat, place: Place) // lines of source, copied into key
    | Restore(key: string, content: Option<string>) // undo and delete
    | Untracked // ranged views, searches, and requests that fail before they touch the cache

  /** A request may be cancelled when what it does to the files is done or can no longer be stopped; its
      result is then not delivered. */
  datatype Event =
    | Request(id: Id, root: string, reports: bool, delivered: bool, op: Operation)
    | External(key: string, content: Option<string>) // another program, or a failed write or rollback
    | Compaction(id: Id, epoch: nat) // a client loses its context

  function WithFile(files: map<string, string>, key: string, raw: Option<string>): map<string, string>
  {
    if raw.Some? then files[key := raw.value] else files - {key}
  }

  /** A file that is not there is taken for an empty one. */
  function TextAt(files: map<string, string>, key: string): string { if key in files then files[key] else "" }

  predicate CanExtract(files: map<string, string>, op: Operation)
    requires op.Extract?
  {
    var count := |RawLines(TextAt(files, op.key))|;
    op.source in files && InRange(files[op.source], op.first, op.last) && PositionOf(op.place, count) <= count
  }

  ghost function ExtendedBy(files: map<string, string>, op: Operation): string
    requires op.Extract? && CanExtract(files, op)
  {
    Extended(TextAt(files, op.key), files[op.source], op.first, op.last, op.place)
  }

  ghost function CopiedBy(files: map<string, string>, op: Operation): seq<string>
    requires op.Extract? && CanExtract(files, op)
  {
    CopiedLines(files[op.source], op.first, op.last)
  }

  /** What a client that knows the target's lines makes of the result of a copy. */
  ghost function SplicedBy(files: map<string, string>, op: Operation): seq<string>
    requires op.Extract? && CanExtract(files, op)
  {
    var text := TextAt(files, op.key);
    ExtractionShows(text, files[op.source], op.first, op.last, op.place);
    Spliced(Lines(LfText(text)), PositionOf(op.place, |RawLines(text)|), CopiedBy(files, op))
  }

  ghost predicate IsNoted(text: string, raw: string) { text == raw || text == LfText(raw) }

  ghost predicate Legal(files: map<string, string>, cache: Option<Entries>, op: Operation)
  {
    match op
    case View(key, full, answer) =>
      key in files
      && Answers(if full || cache.None? then None else Lookup(cache.value, key), LfText(files[key]), answer)
    case Edit(key, before, after, raw) => key in files && IsNoted(before, files[key]) && IsNoted(after, raw)
    case Create(key, _) => key !in files
    case Extract(_, _, _, _, _) => CanExtract(files, op)
    case Restore(_, _) => true
    case Untracked => true
  }

  ghost function FilesAfter(files: map<string, string>, op: Operation): map<string, string>
  {
    match op
    case Edit(key, _, _, raw) => files[key := raw]
    case Create(key, raw) => files[key := raw]
    case Extract(key, _, _, _, _) => if CanExtract(files, op) then files[key := ExtendedBy(files, op)] else files
    case Restore(key, raw) => WithFile(files, key, raw)
    case _ => files
  }

  ghost function EntriesAfter(entries: Entries, files: map<string, string>, op: Operation): Entries
  {
    match op
    case View(key, _, _) => if key in files then Remembered(entries, key, LfText(files[key])) else entries
    case Edit(key, before, after, _) => Noted(entries, key, before, after)
    case Create(key, raw) => Remembered(entries, key, LfText(raw))
    case Extract(key, _, _, _, _) =>
      if CanExtract(files, op) then Noted(entries, key, TextAt(files, key), ExtendedBy(files, op)) else entries
    case Restore(key, _) => entries - {key}
    case Untracked => entries
  }

  /** The result reaches the client: it is delivered and, for a view, not too long. */
  predicate Reaches(op: Operation, delivered: bool, deltaBytes: Sizes)
  {
    delivered && (op.View? ==> Fits(op.answer, deltaBytes))
  }

  ghost predicate HoldsPresent(c: Client, files: map<string, string>, key: string)
  {
    PictureOf(c, key) == Some(Lines(LfText(TextAt(files, key))))
  }

  /** The client knows the lines that a copy adds: the result shows them all, or it holds the source. */
  ghost predicate KnowsCopied(c: Client, files: map<string, string>, op: Operation)
    requires op.Extract? && CanExtract(files, op)
  {
    |CopiedBy(files, op)| <= ECHO_MAX || HoldsPresent(c, files, op.source)
  }

  /** The client learns from a view that reaches it, and from its own writes if their result does and its
      picture was current; it knows what it creates. */
  ghost function PicturesAfter(c: Client, files: map<string, string>, op: Operation,
                               reaches: bool): map<string, seq<string>>
  {
    match op
    case View(key, _, answer) =>
      var seen := ReadAnswer(PictureOf(c, key), answer);
      if reaches && seen.Some? then c.pictures[key := seen.value] else c.pictures
    case Edit(key, before, after, _) =>
      if reaches && key in files && HoldsPresent(c, files, key)
      then c.pictures[key := Lines(after)]
      else c.pictures - {key}
    case Create(key, raw) => if reaches then c.pictures[key := Lines(LfText(raw))] else c.pictures - {key}
    case Extract(key, _, _, _, _) =>
      if reaches && CanExtract(files, op) && HoldsPresent(c, files, key) && KnowsCopied(c, files, op)
      then c.pictures[key := SplicedBy(files, op)]
      else c.pictures - {key}
    case _ => c.pictures
  }

  ghost function EpochOf(w: World, id: Id, reports: bool): Option<nat>
  {
    if reports then Some(ClientOf(w, id).epoch) else None
  }

  /** The world after a request whose session lookup led to the given table. */
  ghost function Served(w: World, t: Table, e: Event, deltaBytes: Sizes): World
    requires e.Request? && e.id in t
  {
    var client, s := ClientOf(w, e.id), t[e.id];
    var cache := if s.cache.Some? then Some(EntriesAfter(s.cache.value, w.files, e.op)) else None;
    World(FilesAfter(w.files, e.op), t[e.id := s.(cache := cache)], w.now + 1,
          w.clients[e.id := client.(pictures := PicturesAfter(client, w.files, e.op,
                                                                Reaches(e.op, e.delivered, deltaBytes)))])
  }

  ghost predicate LooksUp(w: World, e: Event, t: Table)
    requires e.Request?
  {
    Gets(w.sessions, w.now, e.id, e.root, EpochOf(w, e.id, e.reports), t) && e.id in t
  }

  ghost predicate Happens(w: World, e: Event, w': World, deltaBytes: Sizes)
  {
    match e
    case Request(id, root, reports, delivered, op) =>
      exists t: Table :: LooksUp(w, e, t) && Legal(w.files, t[id].cache, op) && w' == Served(w, t, e, deltaBytes)
    case External(key, raw) => w' == w.(files := WithFile(w.files, key, raw))
    case Compaction(id, epoch) =>
      epoch > ClientOf(w, id).epoch && w' == w.(clients := w.clients[id := Client(epoch, map[])])
  }

  // ----- what every event keeps

  /** The client holds the lines of the remembered text. */
  ghost predicate EntryTrue(entries: Entries, pictures: map<string, seq<string>>, key: string)
  {
    key in entries ==> key in pictures && pictures[key] == Lines(entries[key])
  }

  /** A session's cache, if it belongs to the client's present context, agrees with the client. */
  ghost predicate InStep(s: Session, c: Client)
  {
    && s.epoch <= c.epoch
    && (s.cache.Some? && s.epoch == c.epoch ==> AllTrue(s.cache.value, c.pictures))
  }

  ghost predicate Valid(w: World)
  {
    forall id | id in w.sessions :: InStep(w.sessions[id], ClientOf(w, id))
  }

  /** What the edit result shows and what is remembered are the same lines: the text noted as the one
      before is the file's own or has no extra carriage return, and neither has the text after. */
  ghost predicate Clean(files: map<string, string>, edit: Operation)
    requires edit.Edit? && edit.key in files
  {
    (edit.before == files[edit.key] || NoExtraCr(edit.before)) && NoExtraCr(edit.after)
  }

  /** The client can tell what the copy made of the file: its result reaches the client, which knows the
      copied lines, and none of them, nor a carriage return, is lost at the end of the old text. */
  ghost predicate Told(c: Client, files: map<string, string>, op: Operation, reaches: bool)
    requires op.Extract? && CanExtract(files, op)
  {
    var text := TextAt(files, op.key);
    var lines := RawLines(text);
    var at := PositionOf(op.place, |lines|);
    && reaches && KnowsCopied(c, files, op) && !TakesInCr(lines, at)
    && !LosesBlank(|lines|, at, CopiedBy(files, op), Trailing(text, files[op.source], op.first, op.last, op.place))
  }

  /** Exactly the operations that leave every remembered text true: a view reaches its client, is too long
      to remember or nothing new; an edit reaches it and is clean, and a copy tells what it did, unless too
      long to remember or not taken for known; a created file reaches it or is too long to remember. */
  ghost predicate KeepsEntries(entries: Entries, c: Client, files: map<string, string>, op: Operation, reaches: bool)
  {
    match op
    case View(key, _, answer) =>
      key in files ==> reaches || |LfText(files[key])| > MAX_CACHED_BYTES || HoldsPresent(c, files, key)
    case Edit(key, before, after, _) =>
      key in files ==>
        Lookup(entries, key) != Some(LfText(before)) || |LfText(after)| > MAX_CACHED_BYTES
        || (reaches && Clean(files, op))
    case Create(_, raw) => reaches || |LfText(raw)| > MAX_CACHED_BYTES
    case Extract(key, _, _, _, _) =>
      CanExtract(files, op) ==>
        Lookup(entries, key) != Some(LfText(TextAt(files, key))) || |LfText(ExtendedBy(files, op))| > MAX_CACHED_BYTES
        || Told(c, files, op, reaches)
    case _ => true
  }

  ghost predicate AllTrue(entries: Entries, pictures: map<string, seq<string>>)
  {
    forall key :: EntryTrue(entries, pictures, key)
  }

  /** A request that keeps the entries of its session, if the session has a cache. */
  ghost predicate Benign(w: World, e: Event, deltaBytes: Sizes)
  {
    e.Request? ==>
      forall t: Table | LooksUp(w, e, t) && t[e.id].cache.Some? ::
        KeepsEntries(t[e.id].cache.value, ClientOf(w, e.id), w.files, e.op, Reaches(e.op, e.delivered, deltaBytes))
  }

  /** A looked-up session is in step, and in the client's present context. */
  lemma LookedUp(w: World, e: Event, t: Table)
    requires Valid(w) && e.Request? && LooksUp(w, e, t)
    ensures InStep(t[e.id], ClientOf(w, e.id)) && (t[e.id].cache.Some? ==> t[e.id].epoch == ClientOf(w, e.id).epoch)
    ensures forall id | id in t && id != e.id :: InStep(t[id], ClientOf(w, id))
  {
  }

  /** After a view the entry is true exactly if the view was delivered, its text is not remembered, or
      the client held the present lines already. */
  lemma ViewRemembersTruly(entries: Entries, c: Client, files: map<string, string>, op: Operation, reaches: bool)
    requires op.View? && Legal(files, Some(entries), op) && EntryTrue(entries, c.pictures, op.key)
    ensures EntryTrue(EntriesAfter(entries, files, op), PicturesAfter(c, files, op, reaches), op.key)
       <==> KeepsEntries(entries, c, files, op, reaches)
  {
    var previous := if op.full then None else Lookup(entries, op.key);
    AnswerIsTrue(PictureOf(c, op.key), previous, LfText(files[op.key]), op.answer);
  }

  lemma NotedIsCurrent(raw: string, before: string)
    requires IsNoted(before, raw)
    ensures Lines(LfText(before)) == Lines(LfText(raw)) <==> before == raw || NoExtraCr(before)
  {
    SameLinesExactlyWithoutExtraCr(before);
  }

  /** After an edit the entry is true exactly if the edit is clean, its text is not remembered, or the
      server did not take the client's picture for current. */
  lemma EditRemembersTruly(entries: Entries, c: Client, files: map<string, string>, op: Operation, reaches: bool)
    requires op.Edit? && Legal(files, Some(entries), op) && EntryTrue(entries, c.pictures, op.key)
    ensures EntryTrue(EntriesAfter(entries, files, op), PicturesAfter(c, files, op, reaches), op.key)
       <==> KeepsEntries(entries, c, files, op, reaches)
  {
    NotedIsCurrent(files[op.key], op.before);
    SameLinesExactlyWithoutExtraCr(op.after);
  }

  /** After a copy the entry is true exactly if the client was told what it did, the text is not
      remembered, or the server did not take the client's picture for current. */
  lemma ExtractRemembersTruly(entries: Entries, c: Client, files: map<string, string>, op: Operation, reaches: bool)
    requires op.Extract? && Legal(files, Some(entries), op) && EntryTrue(entries, c.pictures, op.key)
    ensures EntryTrue(EntriesAfter(entries, files, op), PicturesAfter(c, files, op, reaches), op.key)
       <==> KeepsEntries(entries, c, files, op, reaches)
  {
    ExtractionShows(TextAt(files, op.key), files[op.source], op.first, op.last, op.place);
  }

  lemma OtherRemembersTruly(entries: Entries, c: Client, files: map<string, string>, op: Operation, reaches: bool)
    requires op.Create? || op.Restore?
    ensures EntryTrue(EntriesAfter(entries, files, op), PicturesAfter(c, files, op, reaches), op.key)
       <==> KeepsEntries(entries, c, files, op, reaches)
  {
  }

  lemma OtherEntriesStay(entries: Entries, c: Client, files: map<string, string>, op: Operation, reaches: bool,
                         key: string)
    requires EntryTrue(entries, c.pictures, key) && (op == Untracked || op.key != key)
    ensures EntryTrue(EntriesAfter(entries, files, op), PicturesAfter(c, files, op, reaches), key)
  {
  }

  /** The exact condition under which an operation leaves every entry of its session true. */
  lemma KeepsEntriesIsExact(entries: Entries, c: Client, files: map<string, string>, op: Operation, reaches: bool)
    requires Legal(files, Some(entries), op) && AllTrue(entries, c.pictures)
    ensures AllTrue(EntriesAfter(entries, files, op), PicturesAfter(c, files, op, reaches))
       <==> KeepsEntries(entries, c, files, op, reaches)
  {
    forall key | op == Untracked || op.key != key
      ensures EntryTrue(EntriesAfter(entries, files, op), PicturesAfter(c, files, op, reaches), key)
    {
      assert EntryTrue(entries, c.pictures, key);
      OtherEntriesStay(entries, c, files, op, reaches, key);
    }
    if !op.Untracked? {
      assert EntryTrue(entries, c.pictures, op.key);
      if op.View? {
        ViewRemembersTruly(entries, c, files, op, reaches);
      } else if op.Edit? {
        EditRemembersTruly(entries, c, files, op, reaches);
      } else if op.Extract? {
        ExtractRemembersTruly(entries, c, files, op, reaches);
      } else {
        OtherRemembersTruly(entries, c, files, op, reaches);
      }
    }
  }

  /** The session that a request finds does not depend on which other session was dropped. */
  lemma SameSession(w: World, e: Event, t: Table, u: Table)
    requires e.Request? && LooksUp(w, e, t) && LooksUp(w, e, u)
    ensures t[e.id] == u[e.id]
  {
  }

  lemma OtherSessionsStay(w: World, e: Event, t: Table, deltaBytes: Sizes)
    requires Valid(w) && e.Request? && LooksUp(w, e, t)
    ensures var w' := Served(w, t, e, deltaBytes);
            Valid(w') <==> InStep(w'.sessions[e.id], ClientOf(w', e.id))
  {
    LookedUp(w, e, t);
    var w' := Served(w, t, e, deltaBytes);
    forall id | id in w'.sessions && id != e.id
      ensures InStep(w'.sessions[id], ClientOf(w', id))
    {
      assert InStep(t[id], ClientOf(w, id));
    }
  }

  lemma RequestKeepsValid(w: World, e: Event, t: Table, deltaBytes: Sizes)
    requires Valid(w) && e.Request? && LooksUp(w, e, t) && Legal(w.files, t[e.id].cache, e.op)
    ensures Valid(Served(w, t, e, deltaBytes)) <==> Benign(w, e, deltaBytes)
  {
    LookedUp(w, e, t);
    OtherSessionsStay(w, e, t, deltaBytes);
    forall u: Table | LooksUp(w, e, u)
      ensures u[e.id] == t[e.id]
    {
      SameSession(w, e, t, u);
    }
    if t[e.id].cache.Some? {
      KeepsEntriesIsExact(t[e.id].cache.value, ClientOf(w, e.id), w.files, e.op,
                          Reaches(e.op, e.delivered, deltaBytes));
    }
  }

  /** An event keeps the server in step with every client exactly if it is benign: views, edits,
      creates, undo, deletes, other programs, other sessions, lost contexts and dropped sessions. */
  lemma EventKeepsValid(w: World, e: Event, w': World, deltaBytes: Sizes)
    requires Valid(w) && Happens(w, e, w', deltaBytes)
    ensures Valid(w') <==> Benign(w, e, deltaBytes)
  {
    match e {
      case Request(id, root, reports, delivered, op) =>
        var t: Table :| LooksUp(w, e, t) && Legal(w.files, t[id].cache, op) && w' == Served(w, t, e, deltaBytes);
        RequestKeepsValid(w, e, t, deltaBytes);
      case _ =>
        forall id | id in w'.sessions
          ensures InStep(w'.sessions[id], ClientOf(w', id))
        {
          assert InStep(w.sessions[id], ClientOf(w, id));
        }
    }
  }

  /** What a request puts into its file; none if the file is gone. */
  ghost function Puts(files: map<string, string>, op: Operation): Option<string>
    requires Legal(files, None, op) && !op.View? && !op.Untracked?
  {
    match op
    case Edit(_, _, _, raw) => Some(raw)
    case Create(_, raw) => Some(raw)
    case Extract(key, source, first, last, place) =>
      Some(Extended(TextAt(files, key), files[source], first, last, place))
    case Restore(_, content) => content
  }

  /** A file is there after a request exactly if the request put something into it, or left it alone and it
      was there; a full view then shows exactly that, or what the file held before. */
  lemma WrittenIsViewed(files: map<string, string>, op: Operation, key: string, answer: Answer)
    requires Legal(files, None, op) && !op.View? && !op.Untracked?
    ensures var text := if key == op.key then Puts(files, op) else if key in files then Some(files[key]) else None;
            && (key in FilesAfter(files, op) <==> text.Some?)
            && (Legal(FilesAfter(files, op), None, View(key, true, answer)) ==>
                  text.Some? && ReadAnswer(None, answer) == Some(Lines(LfText(text.value))))
  {
    if Legal(FilesAfter(files, op), None, View(key, true, answer)) {
      AnswerIsTrue(None, None, LfText(FilesAfter(files, op)[key]), answer);
    }
  }

  // ----- runs

  ghost predicate Run(start: map<string, string>, events: seq<Event>, worlds: seq<World>, deltaBytes: Sizes)
  {
    && |worlds| == |events| + 1 && worlds[0] == World(start, map[], 0, map[])
    && forall i | 0 <= i < |events| ::
      Happens(worlds[i], events[i], worlds[i + 1], deltaBytes) && Benign(worlds[i], events[i], deltaBytes)
  }

  lemma {:induction false} RunIsValid(start: map<string, string>, events: seq<Event>, worlds: seq<World>,
                                      deltaBytes: Sizes, n: nat)
    requires Run(start, events, worlds, deltaBytes) && n < |worlds|
    ensures Valid(worlds[n])
  {
    if n > 0 {
      RunIsValid(start, events, worlds, deltaBytes, n - 1);
      assert Happens(worlds[n - 1], events[n - 1], worlds[n - 1 + 1], deltaBytes);
      EventKeepsValid(worlds[n - 1], events[n - 1], worlds[n], deltaBytes);
    }
  }

  /** In every run, every answer to a whole-file view, read by a client with the picture it has at
      that moment, tells it exactly the current lines; so "unchanged" is answered only when true. */
  lemma EveryAnswerIsTrue(start: map<string, string>, events: seq<Event>, worlds: seq<World>, deltaBytes: Sizes, n: nat)
    requires Run(start, events, worlds, deltaBytes) && n < |events| && events[n].Request? && events[n].op.View?
    ensures var w, view := worlds[n], events[n].op;
            view.key in w.files
            && ReadAnswer(PictureOf(ClientOf(w, events[n].id), view.key),
                          view.answer) == Some(Lines(LfText(w.files[view.key])))
    ensures var w, view := worlds[n], events[n].op;
            view.answer.Unchanged? ==>
              PictureOf(ClientOf(w, events[n].id), view.key) == Some(Lines(LfText(w.files[view.key])))
  {
    RunIsValid(start, events, worlds, deltaBytes, n);
    var w, e := worlds[n], events[n];
    assert Happens(w, e, worlds[n + 1], deltaBytes);
    var t: Table :|
      LooksUp(w, e, t) && Legal(w.files, t[e.id].cache, e.op) && worlds[n + 1] == Served(w, t, e, deltaBytes);
    LookedUp(w, e, t);
    var c, cache := ClientOf(w, e.id), t[e.id].cache;
    if cache.Some? {
      assert EntryTrue(cache.value, c.pictures, e.op.key);
    }
    AnswerIsTrue(PictureOf(c, e.op.key), if e.op.full || cache.None? then None else Lookup(cache.value, e.op.key),
                 LfText(w.files[e.op.key]), e.op.answer);
  }
}
