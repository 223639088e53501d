/** Edit calls running at once: each takes the locks of its files in key order, then loads them, then
    writes. Steps of different calls interleave in any way. */
module Transactions {
  import opened Wrappers
  import Keys

  type Files = map<string, string>

  function Get(files: Files, key: string): Option<string> { if key in files then Some(files[key]) else None }

  /** One write, or one removal. */
  datatype Write = Write(key: string, content: Option<string>)

  function Put(files: Files, w: Write): Files
  {
    if w.content.Some? then files[w.key := w.content.value] else files - {w.key}
  }

  function PutAll(files: Files, writes: seq<Write>): Files
  {
    if writes == [] then files else Put(PutAll(files, writes[..|writes| - 1]), writes[|writes| - 1])
  }

  type Texts = map<string, Option<string>>

  /** A single-file or multi-file call. What it writes, including garbage of failed writes and the
      rollback, depends on nothing but the texts it loaded. The commit of a multi-file call is shielded
      from cancellation, the one write of a single-file call is not. */
  datatype Call = Call(keys: seq<string>, plan: Texts -> seq<Write>, shielded: bool)

  /** A call writes only files that it locked, each at most once to commit and once to roll back. */
  ghost predicate WellFormed(c: Call)
  {
    && Keys.Ascending(c.keys)
    && (!c.shielded ==> |c.keys| == 1 && forall texts :: |c.plan(texts)| <= 1)
    && forall texts ::
      |c.plan(texts)| <= 2 * |c.keys| && forall i | 0 <= i < |c.plan(texts)| :: c.plan(texts)[i].key in c.keys
  }

  function Loaded(files: Files, keys: seq<string>): Texts { map k | k in keys :: Get(files, k) }

  // ----- calls run one at a time

  /** A call by itself that makes the first n of its writes. */
  function Effect(c: Call, files: Files, n: nat): Files
  {
    var writes := c.plan(Loaded(files, c.keys));
    PutAll(files, if n <= |writes| then writes[..n] else writes)
  }

  /** The calls of the order one after another, with the number of writes each makes. */
  ghost function Serial(calls: seq<Call>, files: Files, order: seq<nat>, made: seq<nat>): Files
    requires |made| == |order| && forall i | 0 <= i < |order| :: order[i] < |calls|
  {
    if order == [] then files else
      var last := |order| - 1;
      Effect(calls[order[last]], Serial(calls, files, order[..last], made[..last]), made[last])
  }

  /** Every shielded call of the order makes all its writes. */
  ghost predicate ShieldedMakeAll(calls: seq<Call>, files: Files, order: seq<nat>, made: seq<nat>)
    requires |made| == |order| && forall i | 0 <= i < |order| :: order[i] < |calls|
  {
    forall i | 0 <= i < |order| && calls[order[i]].shielded :: MakesAll(calls, files, order, made, i)
  }

  ghost predicate MakesAll(calls: seq<Call>, files: Files, order: seq<nat>, made: seq<nat>, i: nat)
    requires |made| == |order| && (forall i | 0 <= i < |order| :: order[i] < |calls|) && i < |order|
  {
    var c := calls[order[i]];
    made[i] == |c.plan(Loaded(Serial(calls, files, order[..i], made[..i]), c.keys))|
  }

  // ----- calls interleaved

  datatype Phase =
    | Locking(n: nat) // holds the first n locks
    | Loading(n: nat, texts: Texts) // holds all locks, has loaded the first n files
    | Writing(texts: Texts, n: nat) // has made the first n writes
    | Finished
    | Cancelled

  predicate Over(p: Phase) { p.Finished? || p.Cancelled? }

  /** The owner of each lock, each call's progress, and the calls in the order they finished, with the
      number of writes each made. */
  datatype State = State(files: Files, owner: map<string, nat>, phases: seq<Phase>, order: seq<nat>, made: seq<nat>)

  function Start(calls: seq<Call>, files: Files): State { State(files, map[], seq(|calls|, i => Locking(0)), [], []) }

  function Release(owner: map<string, nat>, c: nat): map<string, nat>
  {
    map k | k in owner && owner[k] != c :: owner[k]
  }

  ghost predicate CanAdvance(calls: seq<Call>, s: State, c: nat)
    requires |s.phases| == |calls|
  {
    c < |calls| && !Over(s.phases[c])
    && (s.phases[c].Locking? && s.phases[c].n < |calls[c].keys| ==> calls[c].keys[s.phases[c].n] !in s.owner)
  }

  /** The next step of a call: take a lock, load a file, write a file, or finish and unlock. */
  ghost function Advance(calls: seq<Call>, s: State, c: nat): State
    requires |s.phases| == |calls| && CanAdvance(calls, s, c)
  {
    var keys := calls[c].keys;
    match s.phases[c]
    case Locking(n) =>
      if n < |keys| then s.(owner := s.owner[keys[n] := c], phases := s.phases[c := Locking(n + 1)])
      else s.(phases := s.phases[c := Loading(0, map[])])
    case Loading(n, texts) =>
      if n < |keys| then s.(phases := s.phases[c := Loading(n + 1, texts[keys[n] := Get(s.files, keys[n])])])
      else s.(phases := s.phases[c := Writing(texts, 0)])
    case Writing(texts, n) =>
      var writes := calls[c].plan(texts);
      if n < |writes| then s.(files := Put(s.files, writes[n]), phases := s.phases[c := Writing(texts, n + 1)])
      else Finish(s, c, n)
  }

  /** A call that ends with the writes it has made. */
  function Finish(s: State, c: nat, n: nat): State
    requires c < |s.phases|
  {
    State(s.files, Release(s.owner, c), s.phases[c := Finished], s.order + [c], s.made + [n])
  }

  /** A call can be cancelled before it writes; one that is not shielded, also while it writes. */
  ghost predicate CanCancel(calls: seq<Call>, s: State, c: nat)
    requires |s.phases| == |calls|
  {
    c < |calls| && (s.phases[c].Locking? || s.phases[c].Loading? || (s.phases[c].Writing? && !calls[c].shielded))
  }

  /** Cancelled before it writes, a call leaves no trace; later it ends with the writes it has made. */
  function Cancel(s: State, c: nat): State
    requires c < |s.phases|
  {
    if s.phases[c].Writing? then Finish(s, c, s.phases[c].n)
    else s.(owner := Release(s.owner, c), phases := s.phases[c := Cancelled])
  }

  ghost predicate Step(calls: seq<Call>, s: State, s': State)
    requires |s.phases| == |calls|
  {
    || (exists c: nat :: CanAdvance(calls, s, c) && s' == Advance(calls, s, c))
    || (exists c: nat :: CanCancel(calls, s, c) && s' == Cancel(s, c))
  }

  // ----- what every step keeps

  /** The locks a call holds. */
  function Held(c: Call, p: Phase): seq<string>
  {
    match p
    case Locking(n) => if n <= |c.keys| then c.keys[..n] else []
    case Loading(_, _) => c.keys
    case Writing(_, _) => c.keys
    case _ => []
  }

  ghost predicate Locked(calls: seq<Call>, s: State)
    requires |s.phases| == |calls|
  {
    && (forall k | k in s.owner :: s.owner[k] < |calls| && k in Held(calls[s.owner[k]], s.phases[s.owner[k]]))
    && forall c: nat, k | c < |calls| && k in Held(calls[c], s.phases[c]) :: k in s.owner && s.owner[k] == c
  }

  ghost predicate Ordered(calls: seq<Call>, s: State)
    requires |s.phases| == |calls|
  {
    && |s.made| == |s.order|
    && (forall i | 0 <= i < |s.order| :: s.order[i] < |calls| && s.phases[s.order[i]].Finished?)
    && (forall i, j | 0 <= i < j < |s.order| :: s.order[i] != s.order[j])
    && forall c: nat | c < |calls| && s.phases[c].Finished? :: c in s.order
  }

  /** How far a call has come, against the files as the finished calls left them. */
  ghost predicate OnTrack(call: Call, p: Phase, serial: Files, files: Files)
  {
    match p
    case Locking(n) => n <= |call.keys| && forall k | k in call.keys[..n] :: Get(files, k) == Get(serial, k)
    case Loading(n, texts) =>
      n <= |call.keys| && texts == Loaded(serial, call.keys[..n])
      && forall k | k in call.keys :: Get(files, k) == Get(serial, k)
    case Writing(texts, n) =>
      && n <= |call.plan(texts)| && texts == Loaded(serial, call.keys)
      && forall k | k in call.keys :: Get(files, k) == Get(PutAll(serial, call.plan(texts)[..n]), k)
    case _ => true
  }

  ghost predicate Valid(calls: seq<Call>, start: Files, s: State)
  {
    && |s.phases| == |calls| && Ordered(calls, s) && Locked(calls, s) && ShieldedMakeAll(calls, start, s.order, s.made)
    && (forall k | k !in s.owner :: Get(s.files, k) == Get(Serial(calls, start, s.order, s.made), k))
    && forall c: nat | c < |calls| :: OnTrack(calls[c], s.phases[c], Serial(calls, start, s.order, s.made), s.files)
  }

  lemma SameFiles(f: Files, g: Files)
    requires forall k :: Get(f, k) == Get(g, k)
    ensures f == g
  {
    forall k
      ensures k in f <==> k in g
      ensures k in f ==> f[k] == g[k]
    {
      assert Get(f, k) == Get(g, k);
    }
  }

  lemma {:induction false} PutAllAppend(files: Files, p: seq<Write>, q: seq<Write>)
    ensures PutAll(files, p + q) == PutAll(PutAll(files, p), q)
    decreases |q|
  {
    if q == [] {
      assert p + q == p;
    } else {
      assert (p + q)[..|p + q| - 1] == p + q[..|q| - 1];
      PutAllAppend(files, p, q[..|q| - 1]);
    }
  }

  /** Writes leave other files alone. */
  lemma {:induction false} PutAllOthers(files: Files, writes: seq<Write>, keys: seq<string>, k: string)
    requires k !in keys && forall i | 0 <= i < |writes| :: writes[i].key in keys
    ensures Get(PutAll(files, writes), k) == Get(files, k)
  {
    if writes != [] {
      PutAllOthers(files, writes[..|writes| - 1], keys, k);
    }
  }

  /** A call finishing changes the serial outcome only for files that it has locked. */
  lemma SerialNext(calls: seq<Call>, start: Files, order: seq<nat>, made: seq<nat>, c: nat, n: nat)
    requires |made| == |order| && forall i | 0 <= i < |order| :: order[i] < |calls|
    requires c < |calls| && WellFormed(calls[c])
    ensures Serial(calls, start, order + [c], made + [n]) == Effect(calls[c], Serial(calls, start, order, made), n)
    ensures forall k | k !in calls[c].keys ::
              Get(Serial(calls, start, order + [c], made + [n]), k) == Get(Serial(calls, start, order, made), k)
  {
    assert (order + [c])[..|order|] == order && (made + [n])[..|made|] == made;
    var before := Serial(calls, start, order, made);
    var writes := calls[c].plan(Loaded(before, calls[c].keys));
    forall k | k !in calls[c].keys
      ensures Get(Effect(calls[c], before, n), k) == Get(before, k)
    {
      PutAllOthers(before, if n <= |writes| then writes[..n] else writes, calls[c].keys, k);
    }
  }

  /** A further call in the order leaves what is said of the earlier ones. */
  lemma MakeAllNext(calls: seq<Call>, start: Files, order: seq<nat>, made: seq<nat>, c: nat, n: nat)
    requires |made| == |order| && (forall i | 0 <= i < |order| :: order[i] < |calls|) && c < |calls|
    requires ShieldedMakeAll(calls, start, order, made)
    requires calls[c].shielded ==> n == |calls[c].plan(Loaded(Serial(calls, start, order, made), calls[c].keys))|
    ensures ShieldedMakeAll(calls, start, order + [c], made + [n])
  {
    var order', made' := order + [c], made + [n];
    forall i | 0 <= i < |order'| && calls[order'[i]].shielded
      ensures MakesAll(calls, start, order', made', i)
    {
      if i < |order| {
        assert order'[..i] == order[..i] && made'[..i] == made[..i];
        assert MakesAll(calls, start, order, made, i);
      } else {
        assert order'[..i] == order && made'[..i] == made;
      }
    }
  }

  lemma {:induction false} PutAllSameAt(f: Files, g: Files, writes: seq<Write>, k: string)
    requires Get(f, k) == Get(g, k)
    ensures Get(PutAll(f, writes), k) == Get(PutAll(g, writes), k)
  {
    if writes != [] {
      PutAllSameAt(f, g, writes[..|writes| - 1], k);
    }
  }

  /** A call's standing depends only on the files it holds. */
  lemma OnTrackElsewhere(call: Call, p: Phase, serial: Files, files: Files, serial': Files, files': Files)
    requires OnTrack(call, p, serial, files)
    requires forall k | k in Held(call, p) :: Get(files', k) == Get(files, k) && Get(serial', k) == Get(serial, k)
    ensures OnTrack(call, p, serial', files')
  {
    match p {
      case Locking(n) =>
      case Loading(n, texts) =>
        assert Loaded(serial', call.keys[..n]) == texts;
      case Writing(texts, n) =>
        assert Loaded(serial', call.keys) == texts;
        forall k | k in call.keys
          ensures Get(files', k) == Get(PutAll(serial', call.plan(texts)[..n]), k)
        {
          PutAllSameAt(serial, serial', call.plan(texts)[..n], k);
        }
      case _ =>
    }
  }

  /** No two calls hold the lock of one file. */
  lemma HeldApart(calls: seq<Call>, s: State, c: nat, d: nat, k: string)
    requires |s.phases| == |calls| && Locked(calls, s) && c < |calls| && d < |calls|
    requires k in Held(calls[c], s.phases[c]) && k in Held(calls[d], s.phases[d])
    ensures c == d
  {
    assert s.owner[k] == c;
  }

  lemma SameOrder(calls: seq<Call>, s: State, c: nat, s': State)
    requires |s.phases| == |calls| && Ordered(calls, s) && c < |calls| && !s.phases[c].Finished?
    requires s'.order == s.order && s'.made == s.made
    requires |s'.phases| == |calls| && s'.phases == s.phases[c := s'.phases[c]] && !s'.phases[c].Finished?
    ensures Ordered(calls, s')
  {
    forall i | 0 <= i < |s'.order|
      ensures s'.order[i] < |calls| && s'.phases[s'.order[i]].Finished?
    {
      assert s.phases[s.order[i]].Finished?;
    }
  }

  /** Steps that change neither the files nor the serial order. */
  lemma QuietStep(calls: seq<Call>, start: Files, s: State, c: nat, p: Phase, owner: map<string, nat>, s': State)
    requires Valid(calls, start, s) && c < |calls| && !Over(s.phases[c]) && !Over(p)
    requires s' == s.(owner := owner, phases := s.phases[c := p]) && Locked(calls, s')
    requires forall k | k in s.owner :: k in owner
    requires OnTrack(calls[c], p, Serial(calls, start, s.order, s.made), s.files)
    ensures Valid(calls, start, s')
  {
    SameOrder(calls, s, c, s');
    forall d: nat | d < |calls|
      ensures OnTrack(calls[d], s'.phases[d], Serial(calls, start, s.order, s.made), s.files)
    {
      assert OnTrack(calls[d], s.phases[d], Serial(calls, start, s.order, s.made), s.files);
    }
  }

  lemma LockStep(calls: seq<Call>, start: Files, s: State, c: nat, n: nat, key: string, s': State)
    requires Valid(calls, start, s) && c < |calls| && s.phases[c] == Locking(n) && n < |calls[c].keys|
    requires key == calls[c].keys[n] && key !in s.owner
    requires s' == s.(owner := s.owner[key := c], phases := s.phases[c := Locking(n + 1)])
    ensures Valid(calls, start, s')
  {
    var serial := Serial(calls, start, s.order, s.made);
    LockedGrows(calls, s, c, n, s');
    assert OnTrack(calls[c], Locking(n + 1), serial, s.files) by {
      assert OnTrack(calls[c], Locking(n), serial, s.files);
      LockOnTrack(calls[c], n, serial, s.files);
    }
    QuietStep(calls, start, s, c, Locking(n + 1), s.owner[key := c], s');
  }

  lemma LockOnTrack(call: Call, n: nat, serial: Files, files: Files)
    requires OnTrack(call, Locking(n), serial, files) && n < |call.keys|
    requires Get(files, call.keys[n]) == Get(serial, call.keys[n])
    ensures OnTrack(call, Locking(n + 1), serial, files)
  {
    assert call.keys[..n + 1] == call.keys[..n] + [call.keys[n]];
  }

  lemma LockedGrows(calls: seq<Call>, s: State, c: nat, n: nat, s': State)
    requires |s.phases| == |calls| && Locked(calls, s) && c < |calls|
    requires s.phases[c] == Locking(n) && n < |calls[c].keys| && calls[c].keys[n] !in s.owner
    requires s' == s.(owner := s.owner[calls[c].keys[n] := c], phases := s.phases[c := Locking(n + 1)])
    ensures Locked(calls, s')
  {
    var keys := calls[c].keys;
    assert keys[..n + 1] == keys[..n] + [keys[n]];
    forall k | k in s'.owner
      ensures s'.owner[k] < |calls| && k in Held(calls[s'.owner[k]], s'.phases[s'.owner[k]])
    {
      if k != keys[n] {
        assert k in Held(calls[s.owner[k]], s.phases[s.owner[k]]);
      }
    }
    forall d: nat, k | d < |calls| && k in Held(calls[d], s'.phases[d])
      ensures k in s'.owner && s'.owner[k] == d
    {
      if d != c || k != keys[n] {
        assert k in Held(calls[d], s.phases[d]);
      }
    }
  }

  /** A step after which the call holds the same locks. */
  lemma SameLocks(calls: seq<Call>, s: State, c: nat, s': State)
    requires |s.phases| == |calls| && Locked(calls, s) && c < |calls| && s'.owner == s.owner
    requires |s'.phases| == |calls| && s'.phases == s.phases[c := s'.phases[c]]
    requires Held(calls[c], s'.phases[c]) == Held(calls[c], s.phases[c])
    ensures Locked(calls, s')
  {
    forall d: nat | d < |calls|
      ensures Held(calls[d], s'.phases[d]) == Held(calls[d], s.phases[d])
    {
    }
  }

  /** A step after which the call holds the same locks and the files are the same. */
  lemma InPlaceStep(calls: seq<Call>, start: Files, s: State, c: nat, p: Phase, s': State)
    requires Valid(calls, start, s) && c < |calls| && !Over(s.phases[c]) && !Over(p)
    requires s' == s.(phases := s.phases[c := p]) && Held(calls[c], p) == Held(calls[c], s.phases[c])
    requires OnTrack(calls[c], p, Serial(calls, start, s.order, s.made), s.files)
    ensures Valid(calls, start, s')
  {
    SameLocks(calls, s, c, s');
    QuietStep(calls, start, s, c, p, s.owner, s');
  }

  lemma LoadNext(call: Call, n: nat, texts: Texts, serial: Files, files: Files)
    requires OnTrack(call, Loading(n, texts), serial, files) && n < |call.keys|
    ensures OnTrack(call, Loading(n + 1, texts[call.keys[n] := Get(files, call.keys[n])]), serial, files)
  {
    assert call.keys[..n + 1] == call.keys[..n] + [call.keys[n]];
    assert Loaded(serial, call.keys[..n + 1]) == texts[call.keys[n] := Get(files, call.keys[n])];
  }

  /** All locks are held: loading begins. */
  lemma LoadFirst(call: Call, serial: Files, files: Files)
    requires OnTrack(call, Locking(|call.keys|), serial, files)
    ensures OnTrack(call, Loading(0, map[]), serial, files)
    ensures Held(call, Loading(0, map[])) == Held(call, Locking(|call.keys|))
  {
    assert call.keys[..|call.keys|] == call.keys;
    assert Loaded(serial, call.keys[..0]) == map[];
  }

  /** All files are loaded: writing begins. */
  lemma LoadLast(call: Call, texts: Texts, serial: Files, files: Files)
    requires OnTrack(call, Loading(|call.keys|, texts), serial, files)
    ensures OnTrack(call, Writing(texts, 0), serial, files)
  {
    assert call.keys[..|call.keys|] == call.keys;
    assert call.plan(texts)[..0] == [];
  }

  /** The phase a call goes into when it needs no lock and no write for that. */
  function LoadPhase(call: Call, p: Phase, files: Files): Phase
    requires p.Locking? || p.Loading?
  {
    if p.Locking? then Loading(0, map[])
    else if p.n < |call.keys| then Loading(p.n + 1, p.texts[call.keys[p.n] := Get(files, call.keys[p.n])])
    else Writing(p.texts, 0)
  }

  lemma LoadOnTrack(call: Call, p: Phase, serial: Files, files: Files)
    requires OnTrack(call, p, serial, files) && ((p.Locking? && p.n == |call.keys|) || p.Loading?)
    ensures OnTrack(call, LoadPhase(call, p, files), serial, files)
    ensures Held(call, LoadPhase(call, p, files)) == Held(call, p)
  {
    if p.Locking? {
      LoadFirst(call, serial, files);
    } else if p.n < |call.keys| {
      LoadNext(call, p.n, p.texts, serial, files);
    } else {
      LoadLast(call, p.texts, serial, files);
    }
  }

  lemma LoadStep(calls: seq<Call>, start: Files, s: State, c: nat, p: Phase, s': State)
    requires Valid(calls, start, s) && c < |calls|
    requires (s.phases[c].Locking? && s.phases[c].n == |calls[c].keys|) || s.phases[c].Loading?
    requires p == LoadPhase(calls[c], s.phases[c], s.files) && s' == s.(phases := s.phases[c := p])
    ensures Valid(calls, start, s')
  {
    LoadOnTrack(calls[c], s.phases[c], Serial(calls, start, s.order, s.made), s.files);
    InPlaceStep(calls, start, s, c, p, s');
  }

  /** A write moves the writing call on and leaves the files of every other call alone. */
  lemma WriteKeepsTrack(calls: seq<Call>, s: State, c: nat, texts: Texts, n: nat, serial: Files, d: nat)
    requires |s.phases| == |calls| && Locked(calls, s) && c < |calls| && WellFormed(calls[c]) && d < |calls|
    requires s.phases[c] == Writing(texts, n) && n < |calls[c].plan(texts)|
    requires OnTrack(calls[d], s.phases[d], serial, s.files)
    ensures OnTrack(calls[d], if d == c then Writing(texts, n + 1) else s.phases[d], serial,
                    Put(s.files, calls[c].plan(texts)[n]))
  {
    if d == c {
      OwnWrite(calls[c], texts, n, serial, s.files);
    } else {
      OtherWrite(calls, s, c, d, calls[c].plan(texts)[n], serial);
    }
  }

  lemma OwnWrite(call: Call, texts: Texts, n: nat, serial: Files, files: Files)
    requires OnTrack(call, Writing(texts, n), serial, files) && n < |call.plan(texts)|
    ensures OnTrack(call, Writing(texts, n + 1), serial, Put(files, call.plan(texts)[n]))
  {
    var writes := call.plan(texts);
    var done := PutAll(serial, writes[..n]);
    assert PutAll(serial, writes[..n + 1]) == Put(done, writes[n]) by {
      assert writes[..n + 1][..n] == writes[..n];
    }
    forall k | k in call.keys
      ensures Get(Put(files, writes[n]), k) == Get(Put(done, writes[n]), k)
    {
      assert Get(files, k) == Get(done, k);
    }
  }

  lemma OtherWrite(calls: seq<Call>, s: State, c: nat, d: nat, w: Write, serial: Files)
    requires |s.phases| == |calls| && Locked(calls, s) && c < |calls| && d < |calls| && d != c
    requires s.phases[c].Writing? && w.key in calls[c].keys && OnTrack(calls[d], s.phases[d], serial, s.files)
    ensures OnTrack(calls[d], s.phases[d], serial, Put(s.files, w))
  {
    forall k | k in Held(calls[d], s.phases[d])
      ensures Get(Put(s.files, w), k) == Get(s.files, k)
    {
      if k == w.key {
        HeldApart(calls, s, c, d, k);
      }
    }
    OnTrackElsewhere(calls[d], s.phases[d], serial, s.files, serial, Put(s.files, w));
  }

  /** The write of a call, and the state it leads to. */
  ghost predicate IsWrite(call: Call, s: State, c: nat, texts: Texts, n: nat, w: Write, s': State)
    requires c < |s.phases|
  {
    && WellFormed(call) && s.phases[c] == Writing(texts, n) && n < |call.plan(texts)| && w == call.plan(texts)[n]
    && s' == s.(files := Put(s.files, w), phases := s.phases[c := Writing(texts, n + 1)])
  }

  lemma WriteKeepsTracks(calls: seq<Call>, s: State, c: nat, texts: Texts, n: nat, w: Write, serial: Files, s': State)
    requires |s.phases| == |calls| && Locked(calls, s) && c < |calls| && IsWrite(calls[c], s, c, texts, n, w, s')
    requires forall d: nat | d < |calls| :: OnTrack(calls[d], s.phases[d], serial, s.files)
    ensures forall d: nat | d < |calls| :: OnTrack(calls[d], s'.phases[d], serial, s'.files)
  {
    forall d: nat | d < |calls|
      ensures OnTrack(calls[d], s'.phases[d], serial, s'.files)
    {
      WriteKeepsTrack(calls, s, c, texts, n, serial, d);
    }
  }

  lemma WriteStep(calls: seq<Call>, start: Files, s: State, c: nat, texts: Texts, n: nat, w: Write, s': State)
    requires Valid(calls, start, s) && c < |calls| && IsWrite(calls[c], s, c, texts, n, w, s')
    ensures Valid(calls, start, s')
  {
    SameLocks(calls, s, c, s');
    SameOrder(calls, s, c, s');
    var serial := Serial(calls, start, s.order, s.made);
    WriteKeepsTracks(calls, s, c, texts, n, w, serial, s');
    assert forall k | k !in s'.owner :: Get(s'.files, k) == Get(serial, k) by {
      WriteIsOwned(calls, s, c, texts, n);
    }
  }

  lemma WriteIsOwned(calls: seq<Call>, s: State, c: nat, texts: Texts, n: nat)
    requires |s.phases| == |calls| && Locked(calls, s) && c < |calls| && WellFormed(calls[c])
    requires s.phases[c] == Writing(texts, n) && n < |calls[c].plan(texts)|
    ensures calls[c].plan(texts)[n].key in s.owner
  {
    assert calls[c].plan(texts)[n].key in Held(calls[c], s.phases[c]);
  }

  lemma Released(calls: seq<Call>, s: State, c: nat, s': State)
    requires |s.phases| == |calls| && Locked(calls, s) && c < |calls|
    requires |s'.phases| == |calls| && s'.phases == s.phases[c := s'.phases[c]] && Over(s'.phases[c])
    requires s'.owner == Release(s.owner, c)
    ensures Locked(calls, s')
    ensures forall k | k !in s'.owner :: k !in s.owner || k in Held(calls[c], s.phases[c])
  {
    forall k | k in s'.owner
      ensures s'.owner[k] < |calls| && k in Held(calls[s'.owner[k]], s'.phases[s'.owner[k]])
    {
      assert k in Held(calls[s.owner[k]], s.phases[s.owner[k]]);
    }
    forall d: nat, k | d < |calls| && k in Held(calls[d], s'.phases[d])
      ensures k in s'.owner && s'.owner[k] == d
    {
      assert k in Held(calls[d], s.phases[d]);
    }
  }

  lemma CancelEarly(calls: seq<Call>, start: Files, s: State, c: nat, s': State)
    requires Valid(calls, start, s) && c < |calls| && (s.phases[c].Locking? || s.phases[c].Loading?)
    requires s' == s.(owner := Release(s.owner, c), phases := s.phases[c := Cancelled])
    ensures Valid(calls, start, s')
  {
    var serial := Serial(calls, start, s.order, s.made);
    Released(calls, s, c, s');
    assert OnTrack(calls[c], s.phases[c], serial, s.files);
    forall d: nat | d < |calls|
      ensures OnTrack(calls[d], s'.phases[d], serial, s.files)
    {
      assert OnTrack(calls[d], s.phases[d], serial, s.files);
    }
    SameOrder(calls, s, c, s');
  }

  lemma CancelStep(calls: seq<Call>, start: Files, s: State, c: nat)
    requires Valid(calls, start, s) && CanCancel(calls, s, c) && WellFormed(calls[c])
    ensures Valid(calls, start, Cancel(s, c))
  {
    if s.phases[c].Writing? {
      FinishStep(calls, start, s, c, s.phases[c].texts, s.phases[c].n, Cancel(s, c));
    } else {
      CancelEarly(calls, start, s, c, Cancel(s, c));
    }
  }

  /** The finishing call takes its place after those that finished before it. */
  lemma FinishStep(calls: seq<Call>, start: Files, s: State, c: nat, texts: Texts, n: nat, s': State)
    requires Valid(calls, start, s) && c < |calls| && WellFormed(calls[c])
    requires s.phases[c] == Writing(texts, n) && s' == Finish(s, c, n)
    requires calls[c].shielded ==> n == |calls[c].plan(texts)|
    ensures Valid(calls, start, s')
  {
    var serial, serial' := Serial(calls, start, s.order, s.made), Serial(calls, start, s'.order, s'.made);
    Released(calls, s, c, s');
    FinishOrder(calls, s, c, s');
    SerialNext(calls, start, s.order, s.made, c, n);
    assert OnTrack(calls[c], s.phases[c], serial, s.files);
    MakeAllNext(calls, start, s.order, s.made, c, n);
    FinishFiles(calls[c], texts, n, s.files, s.owner, s'.owner, serial, serial');
    forall d: nat | d < |calls|
      ensures OnTrack(calls[d], s'.phases[d], serial', s'.files)
    {
      if d != c {
        OthersOnTrack(calls, s, c, d, serial, serial');
      }
    }
  }

  /** What no call holds any more is as the calls that ended leave it. */
  lemma FinishFiles(call: Call, texts: Texts, n: nat, files: Files, owner: map<string, nat>, owner': map<string, nat>,
                    serial: Files, serial': Files)
    requires OnTrack(call, Writing(texts, n), serial, files) && serial' == Effect(call, serial, n)
    requires forall k | k !in owner :: Get(files, k) == Get(serial, k)
    requires forall k | k !in owner' :: k !in owner || k in call.keys
    requires forall k | k !in call.keys :: Get(serial', k) == Get(serial, k)
    ensures forall k | k !in owner' :: Get(files, k) == Get(serial', k)
  {
    assert serial' == PutAll(serial, call.plan(texts)[..n]);
  }

  lemma OthersOnTrack(calls: seq<Call>, s: State, c: nat, d: nat, serial: Files, serial': Files)
    requires |s.phases| == |calls| && Locked(calls, s) && c < |calls| && d < |calls| && d != c && s.phases[c].Writing?
    requires OnTrack(calls[d], s.phases[d], serial, s.files)
    requires forall k | k !in calls[c].keys :: Get(serial', k) == Get(serial, k)
    ensures OnTrack(calls[d], s.phases[d], serial', s.files)
  {
    forall k | k in Held(calls[d], s.phases[d])
      ensures Get(serial', k) == Get(serial, k)
    {
      if k in calls[c].keys {
        HeldApart(calls, s, c, d, k);
      }
    }
    OnTrackElsewhere(calls[d], s.phases[d], serial, s.files, serial', s.files);
  }

  lemma FinishOrder(calls: seq<Call>, s: State, c: nat, s': State)
    requires |s.phases| == |calls| && Ordered(calls, s) && c < |calls| && !s.phases[c].Finished?
    requires s'.phases == s.phases[c := Finished] && s'.order == s.order + [c] && |s'.made| == |s'.order|
    ensures Ordered(calls, s')
  {
    assert c !in s.order;
    forall d: nat | d < |calls| && s'.phases[d].Finished?
      ensures d in s'.order
    {
      assert d == c || s.phases[d].Finished?;
      assert s'.order[|s.order|] == c;
    }
  }

  /** How a writing call goes on: it makes its next write, or ends. */
  lemma AdvanceWrites(calls: seq<Call>, s: State, c: nat, texts: Texts, n: nat, s': State)
    requires |s.phases| == |calls| && c < |calls| && WellFormed(calls[c]) && s.phases[c] == Writing(texts, n)
    requires s' == Advance(calls, s, c)
    ensures if n < |calls[c].plan(texts)| then IsWrite(calls[c], s, c, texts, n, calls[c].plan(texts)[n], s')
            else s' == Finish(s, c, n)
  {
  }

  lemma WritingStep(calls: seq<Call>, start: Files, s: State, c: nat, texts: Texts, n: nat, s': State)
    requires Valid(calls, start, s) && c < |calls| && WellFormed(calls[c]) && s.phases[c] == Writing(texts, n)
    requires s' == Advance(calls, s, c) && n <= |calls[c].plan(texts)|
    ensures Valid(calls, start, s')
  {
    AdvanceWrites(calls, s, c, texts, n, s');
    if n < |calls[c].plan(texts)| {
      WriteStep(calls, start, s, c, texts, n, calls[c].plan(texts)[n], s');
    } else {
      FinishStep(calls, start, s, c, texts, n, s');
    }
  }

  lemma AdvanceIsValid(calls: seq<Call>, start: Files, s: State, c: nat)
    requires (forall d | d in calls :: WellFormed(d)) && Valid(calls, start, s) && CanAdvance(calls, s, c)
    ensures Valid(calls, start, Advance(calls, s, c))
  {
    assert (s.phases[c].Locking? ==> s.phases[c].n <= |calls[c].keys|)
        && (s.phases[c].Writing? ==> s.phases[c].n <= |calls[c].plan(s.phases[c].texts)|) by {
      assert OnTrack(calls[c], s.phases[c], Serial(calls, start, s.order, s.made), s.files);
    }
    if s.phases[c].Writing? {
      WritingStep(calls, start, s, c, s.phases[c].texts, s.phases[c].n, Advance(calls, s, c));
    } else if s.phases[c].Locking? && s.phases[c].n < |calls[c].keys| {
      LockStep(calls, start, s, c, s.phases[c].n, calls[c].keys[s.phases[c].n], Advance(calls, s, c));
    } else {
      LoadStep(calls, start, s, c, LoadPhase(calls[c], s.phases[c], s.files), Advance(calls, s, c));
    }
  }

  // ----- every run

  ghost predicate Run(calls: seq<Call>, start: Files, states: seq<State>)
  {
    && states != [] && states[0] == Start(calls, start) && (forall c | c in calls :: WellFormed(c))
    && forall i | 0 <= i < |states| ::
      |states[i].phases| == |calls| && (i + 1 < |states| ==> Step(calls, states[i], states[i + 1]))
  }

  lemma {:induction false} RunIsValid(calls: seq<Call>, start: Files, states: seq<State>, n: nat)
    requires Run(calls, start, states) && n < |states|
    ensures Valid(calls, start, states[n])
  {
    if n == 0 {
      forall c: nat | c < |calls|
        ensures OnTrack(calls[c], states[0].phases[c], start, start)
      {
      }
    } else {
      RunIsValid(calls, start, states, n - 1);
      var s := states[n - 1];
      assert Step(calls, s, states[n - 1 + 1]);
      if c: nat :| CanAdvance(calls, s, c) && states[n] == Advance(calls, s, c) {
        AdvanceIsValid(calls, start, s, c);
      } else {
        var c: nat :| CanCancel(calls, s, c) && states[n] == Cancel(s, c);
        CancelStep(calls, start, s, c);
      }
    }
  }

  lemma OwnerIsNotOver(calls: seq<Call>, s: State, k: string)
    requires |s.phases| == |calls| && Locked(calls, s) && k in s.owner
    ensures s.owner[k] < |calls| && s.phases[s.owner[k]] in s.phases && !Over(s.phases[s.owner[k]])
  {
    assert k in Held(calls[s.owner[k]], s.phases[s.owner[k]]);
  }

  lemma NoneOwned(calls: seq<Call>, s: State)
    requires |s.phases| == |calls| && Locked(calls, s) && forall p | p in s.phases :: Over(p)
    ensures s.owner == map[]
  {
    if k :| k in s.owner {
      OwnerIsNotOver(calls, s, k);
      assert false;
    }
  }

  /** When all calls of a run are over, the files are as the calls that wrote leave them when they run
      one at a time, each once, in the order they ended; calls cancelled earlier leave no trace. Every
      shielded call makes all its writes; a single-file call cancelled at its write makes it or not. */
  lemma Serializable(calls: seq<Call>, start: Files, states: seq<State>, n: nat)
    requires Run(calls, start, states) && n < |states| && forall p | p in states[n].phases :: Over(p)
    ensures var s := states[n];
            && Ordered(calls, s) && ShieldedMakeAll(calls, start, s.order, s.made)
            && s.files == Serial(calls, start, s.order, s.made)
  {
    RunIsValid(calls, start, states, n);
    var s := states[n];
    NoneOwned(calls, s);
    SameFiles(s.files, Serial(calls, start, s.order, s.made));
  }

  // ----- no deadlock

  /** The calls that want a key above the given one. */
  ghost function WantAbove(calls: seq<Call>, s: State, key: string): set<nat>
    requires |s.phases| == |calls|
  {
    set c: nat |
      c < |calls| && s.phases[c].Locking? && s.phases[c].n < |calls[c].keys|
      && Keys.Below(key, calls[c].keys[s.phases[c].n])
  }

  /** Following a blocked call to the owner of the lock it wants leads up the keys, so it ends. */
  lemma {:induction false} SomeCallAdvances(calls: seq<Call>, start: Files, s: State, c: nat) returns (d: nat)
    requires (forall call | call in calls :: WellFormed(call)) && Valid(calls, start, s) && c < |calls|
             && !Over(s.phases[c])
    ensures CanAdvance(calls, s, d)
    decreases if s.phases[c].Locking? && s.phases[c].n < |calls[c].keys|
              then |WantAbove(calls, s, calls[c].keys[s.phases[c].n])| else 0,
              if s.phases[c].Locking? && s.phases[c].n < |calls[c].keys| then 1 else 0
  {
    if CanAdvance(calls, s, c) {
      return c;
    }
    var key := calls[c].keys[s.phases[c].n];
    var o := s.owner[key];
    assert key in Held(calls[o], s.phases[o]);
    if s.phases[o].Locking? && s.phases[o].n < |calls[o].keys| {
      var wanted := calls[o].keys[s.phases[o].n];
      var j :| 0 <= j < s.phases[o].n && calls[o].keys[j] == key;
      assert WellFormed(calls[o]) && Keys.Below(key, wanted);
      forall e | e in WantAbove(calls, s, wanted)
        ensures e in WantAbove(calls, s, key)
      {
        Keys.BelowIsTransitive(key, wanted, calls[e].keys[s.phases[e].n]);
      }
      Keys.BelowIsTotal(wanted, wanted);
      assert o in WantAbove(calls, s, key) && o !in WantAbove(calls, s, wanted);
      SmallerSubset(WantAbove(calls, s, wanted), WantAbove(calls, s, key), o);
      d := SomeCallAdvances(calls, start, s, o);
    } else {
      d := o;
    }
  }

  lemma SmallerSubset(a: set<nat>, b: set<nat>, x: nat)
    requires a <= b && x in b && x !in a
    ensures |a| < |b|
  {
    assert |b| == |a| + |b - a| by {
      assert a + (b - a) == b;
    }
    assert x in b - a;
  }

  /** In every reached state some call can go on, unless all are over. */
  lemma NoDeadlock(calls: seq<Call>, start: Files, states: seq<State>, n: nat)
    requires Run(calls, start, states) && n < |states|
    ensures (forall p | p in states[n].phases :: Over(p)) || exists c :: CanAdvance(calls, states[n], c)
  {
    RunIsValid(calls, start, states, n);
    if p :| p in states[n].phases && !Over(p) {
      var c: nat :| c < |calls| && states[n].phases[c] == p;
      var d := SomeCallAdvances(calls, start, states[n], c);
    }
  }

  // ----- and no endless run

  /** A bound on the steps a call still takes. */
  ghost function Left(c: Call, p: Phase): int
  {
    match p
    case Locking(n) => 4 * |c.keys| + 3 - n
    case Loading(n, _) => 3 * |c.keys| + 2 - n
    case Writing(_, n) => 2 * |c.keys| + 1 - n
    case _ => 0
  }

  ghost function AllLeft(calls: seq<Call>, phases: seq<Phase>): int
    requires |calls| == |phases|
  {
    if calls == [] then 0 else Left(calls[0], phases[0]) + AllLeft(calls[1..], phases[1..])
  }

  lemma {:induction false} AllLeftUpdate(calls: seq<Call>, phases: seq<Phase>, c: nat, p: Phase)
    requires |calls| == |phases| && c < |calls|
    ensures AllLeft(calls, phases[c := p]) == AllLeft(calls, phases) - Left(calls[c], phases[c]) + Left(calls[c], p)
  {
    if c > 0 {
      assert phases[c := p][1..] == phases[1..][c - 1 := p];
      AllLeftUpdate(calls[1..], phases[1..], c - 1, p);
    }
  }

  lemma {:induction false} AllLeftIsNat(calls: seq<Call>, phases: seq<Phase>)
    requires |calls| == |phases| && forall c | 0 <= c < |calls| :: Left(calls[c], phases[c]) >= 0
    ensures AllLeft(calls, phases) >= 0
  {
    if calls != [] {
      forall c | 0 <= c < |calls[1..]|
        ensures Left(calls[1..][c], phases[1..][c]) >= 0
      {
        assert Left(calls[c + 1], phases[c + 1]) >= 0;
      }
      AllLeftIsNat(calls[1..], phases[1..]);
    }
  }

  lemma PhaseUsesBudget(calls: seq<Call>, phases: seq<Phase>, c: nat, p: Phase)
    requires |calls| == |phases| && c < |calls| && Left(calls[c], p) < Left(calls[c], phases[c])
    ensures AllLeft(calls, phases[c := p]) < AllLeft(calls, phases)
  {
    AllLeftUpdate(calls, phases, c, p);
  }

  lemma {:induction false} AdvanceUsesBudget(calls: seq<Call>, s: State, c: nat, serial: Files)
    requires |s.phases| == |calls| && CanAdvance(calls, s, c) && WellFormed(calls[c])
    requires OnTrack(calls[c], s.phases[c], serial, s.files)
    ensures var s' := Advance(calls, s, c);
            |s'.phases| == |calls| && AllLeft(calls, s'.phases) < AllLeft(calls, s.phases)
  {
    var p := Advance(calls, s, c).phases[c];
    if s.phases[c].Writing? {
      assert |calls[c].plan(s.phases[c].texts)| <= 2 * |calls[c].keys|;
    }
    PhaseUsesBudget(calls, s.phases, c, p);
    assert Advance(calls, s, c).phases == s.phases[c := p];
  }

  lemma {:induction false} CancelUsesBudget(calls: seq<Call>, s: State, c: nat, serial: Files)
    requires |s.phases| == |calls| && CanCancel(calls, s, c) && WellFormed(calls[c])
             && OnTrack(calls[c], s.phases[c], serial, s.files)
    ensures AllLeft(calls, Cancel(s, c).phases) < AllLeft(calls, s.phases)
  {
    PhaseUsesBudget(calls, s.phases, c, Cancel(s, c).phases[c]);
  }

  lemma StepUsesBudget(calls: seq<Call>, start: Files, s: State, s': State)
    requires (forall call | call in calls :: WellFormed(call)) && Valid(calls, start, s) && Step(calls, s, s')
    ensures |s'.phases| == |calls| && AllLeft(calls, s'.phases) < AllLeft(calls, s.phases)
  {
    var serial := Serial(calls, start, s.order, s.made);
    assert forall c: nat | c < |calls| :: OnTrack(calls[c], s.phases[c], serial, s.files);
    if c: nat :| CanAdvance(calls, s, c) && s' == Advance(calls, s, c) {
      AdvanceUsesBudget(calls, s, c, serial);
    } else {
      var c: nat :| CanCancel(calls, s, c) && s' == Cancel(s, c);
      CancelUsesBudget(calls, s, c, serial);
    }
  }

  lemma {:induction false} RunIsShort(calls: seq<Call>, start: Files, states: seq<State>, n: nat)
    requires Run(calls, start, states) && n < |states|
    ensures n + AllLeft(calls, states[n].phases) <= AllLeft(calls, states[0].phases)
            && AllLeft(calls, states[n].phases) >= 0
  {
    RunIsValid(calls, start, states, n);
    forall c | 0 <= c < |calls|
      ensures Left(calls[c], states[n].phases[c]) >= 0
    {
      assert OnTrack(calls[c], states[n].phases[c], Serial(calls, start, states[n].order, states[n].made),
               states[n].files);
      assert WellFormed(calls[c]);
    }
    AllLeftIsNat(calls, states[n].phases);
    if n > 0 {
      RunIsShort(calls, start, states, n - 1);
      RunIsValid(calls, start, states, n - 1);
      assert Step(calls, states[n - 1], states[n - 1 + 1]);
      StepUsesBudget(calls, start, states[n - 1], states[n]);
    }
  }

  lemma {:induction false} StartBudget(calls: seq<Call>, files: Files)
    ensures AllLeft(calls, Start(calls, files).phases) == 4 * AllKeys(calls) + 3 * |calls|
  {
    if calls != [] {
      StartBudget(calls[1..], files);
      assert Start(calls, files).phases[1..] == Start(calls[1..], files).phases;
    }
  }

  ghost function AllKeys(calls: seq<Call>): nat { if calls == [] then 0 else |calls[0].keys| + AllKeys(calls[1..]) }

  /** No run of the calls is longer than four steps for each file and three for each call; with
      NoDeadlock, every run that is not cut short ends with all calls over. */
  lemma RunsEnd(calls: seq<Call>, start: Files, states: seq<State>)
    requires Run(calls, start, states)
    ensures |states| - 1 <= 4 * AllKeys(calls) + 3 * |calls|
  {
    RunIsShort(calls, start, states, |states| - 1);
    StartBudget(calls, start);
  }
}
