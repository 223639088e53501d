/** The client sessions of one connection (`server.rs`): a bounded table with least-recently-used
    eviction, and the rules for when a session's view cache starts over. */
module Sessions {
  import opened Wrappers
  import opened ViewCache

  const MAX_TRACKED_SESSIONS := 64

  /** None is a client that sends no session id. */
  type Id = Option<string>

  /** A session works in the directory it last moved to, or in its root. The cache is there only for a
      client that reports a context epoch. */
  datatype Session = Session(root: string, current: Option<string>, cache: Option<Entries>, epoch: nat, lastUsed: nat)

  type Table = map<Id, Session>

  function Fresh(root: string, epoch: Option<nat>, now: nat): Session
  {
    Session(root, None, if epoch.Some? then Some(map[]) else None, if epoch.Some? then epoch.value else 0, now)
  }

  predicate Matches(t: Table, id: Id, root: string, epoch: Option<nat>)
  {
    id in t && t[id].root == root && t[id].cache.Some? == epoch.Some?
  }

  /** The session as a request with a matching anchor finds it: its cache is emptied if the client's
      context changed. */
  function Resumed(s: Session, epoch: Option<nat>, now: nat): Session
  {
    var used := s.(lastUsed := now);
    if s.cache.Some? && epoch.Some? && epoch.value != s.epoch
    then used.(cache := Some(map[]), epoch := epoch.value)
    else used
  }

  function Workdir(s: Session): string { if s.current.Some? then s.current.value else s.root }

  /** The table after a session has moved, or gone back to its root. */
  function Moved(t: Table, id: Id, to: Option<string>): Table
    requires id in t
  {
    t[id := t[id].(current := to)]
  }

  predicate LeastRecentlyUsed(t: Table, id: Id)
  {
    id in t && forall other | other in t :: t[id].lastUsed <= t[other].lastUsed
  }

  /** What looking a session up does to the table. */
  ghost predicate Gets(t: Table, now: nat, id: Id, root: string, epoch: Option<nat>, t': Table)
  {
    if Matches(t, id, root, epoch) then t' == t[id := Resumed(t[id], epoch, now)]
    else if id !in t && |t| >= MAX_TRACKED_SESSIONS then
      exists oldest :: LeastRecentlyUsed(t, oldest) && t' == (t - {oldest})[id := Fresh(root, epoch, now)]
    else t' == t[id := Fresh(root, epoch, now)]
  }

  ghost predicate Bounded(t: Table, now: nat)
  {
    && |t| <= MAX_TRACKED_SESSIONS
    && (forall id | id in t :: t[id].lastUsed < now)
    && forall id, other | id in t && other in t && t[id].lastUsed == t[other].lastUsed :: id == other
  }

  lemma SizeAfterInsert(t: Table, id: Id, s: Session)
    ensures |t[id := s]| == if id in t then |t| else |t| + 1
  {
    assert t[id := s].Keys == t.Keys + {id};
  }

  lemma SizeAfterRemove(t: Table, id: Id)
    requires id in t
    ensures |t - {id}| == |t| - 1
  {
    assert (t - {id}).Keys == t.Keys - {id};
  }

  lemma InsertKeepsBound(t: Table, now: nat, id: Id, s: Session)
    requires Bounded(t, now) && s.lastUsed == now && (id in t || |t| < MAX_TRACKED_SESSIONS)
    ensures Bounded(t[id := s], now + 1)
  {
    SizeAfterInsert(t, id, s);
  }

  lemma RemoveKeepsBound(t: Table, now: nat, id: Id)
    requires Bounded(t, now) && id in t
    ensures Bounded(t - {id}, now) && |t - {id}| < MAX_TRACKED_SESSIONS
  {
    SizeAfterRemove(t, id);
  }

  lemma GetKeepsBound(t: Table, now: nat, id: Id, root: string, epoch: Option<nat>, t': Table)
    requires Bounded(t, now) && Gets(t, now, id, root, epoch, t')
    ensures Bounded(t', now + 1) && id in t' && t'[id].lastUsed == now
  {
    if Matches(t, id, root, epoch) {
      InsertKeepsBound(t, now, id, Resumed(t[id], epoch, now));
    } else if id !in t && |t| >= MAX_TRACKED_SESSIONS {
      var oldest :| LeastRecentlyUsed(t, oldest) && t' == (t - {oldest})[id := Fresh(root, epoch, now)];
      RemoveKeepsBound(t, now, oldest);
      InsertKeepsBound(t - {oldest}, now, id, Fresh(root, epoch, now));
    } else {
      InsertKeepsBound(t, now, id, Fresh(root, epoch, now));
    }
  }

  // ----- what a request finds

  /** The session is there for this root, with a cache exactly if the client reports an epoch. */
  ghost predicate Carries(t: Table, id: Id, root: string, epoch: Option<nat>)
  {
    id in t && t[id].root == root && (t[id].cache.Some? <==> epoch.Some?)
  }

  /** What a session that is carried on holds: all it held, but for the entries of another epoch. */
  ghost predicate CarriedOn(was: Session, epoch: Option<nat>, s: Session)
  {
    && s.root == was.root && s.current == was.current
    && match epoch
       case None => s.cache == was.cache == None
       case Some(e) => s.epoch == e && s.cache == if e == was.epoch then was.cache else Some(map[])
  }

  /** What a session that starts over holds: its root, and nothing that its client has seen. */
  ghost predicate StartedOver(root: string, epoch: Option<nat>, s: Session)
  {
    && s.root == root && s.current == None
    && match epoch
       case None => s.cache == None
       case Some(e) => s.epoch == e && s.cache == Some(map[])
  }

  /** What looking a session up gives, and what it does to the other sessions: none changes, and one goes
      only if the table is full, the session is new and that one is least recently used. */
  ghost predicate Finds(t: Table, now: nat, id: Id, root: string, epoch: Option<nat>, t': Table)
  {
    && id in t' && t'[id].lastUsed == now
    && (if Carries(t, id, root, epoch) then CarriedOn(t[id], epoch, t'[id]) else StartedOver(root, epoch, t'[id]))
    && (forall other | other in t' && other != id :: other in t && t'[other] == t[other])
    && (forall other | other in t && other !in t' ::
          id !in t && |t| >= MAX_TRACKED_SESSIONS && forall x | x in t :: t[other].lastUsed <= t[x].lastUsed)
    && |t| <= |t'| + 1
  }

  lemma GetFinds(t: Table, now: nat, id: Id, root: string, epoch: Option<nat>, t': Table)
    requires Gets(t, now, id, root, epoch, t')
    ensures Finds(t, now, id, root, epoch, t')
  {
    if !Matches(t, id, root, epoch) && id !in t && |t| >= MAX_TRACKED_SESSIONS {
      var oldest :| LeastRecentlyUsed(t, oldest) && t' == (t - {oldest})[id := Fresh(root, epoch, now)];
      SizeAfterRemove(t, oldest);
      SizeAfterInsert(t - {oldest}, id, Fresh(root, epoch, now));
    } else {
      SizeAfterInsert(t, id, t'[id]);
    }
  }

  // ----- which sessions survive

  /** A request of a session, which may change its working directory. */
  datatype Request = Request(id: Id, root: string, epoch: Option<nat>, moves: Option<Option<string>>)

  ghost predicate Serves(t: Table, now: nat, r: Request, t': Table)
  {
    exists u: Table ::
      Gets(t, now, r.id, r.root, r.epoch, u) && r.id in u
      && t' == if r.moves.Some? then Moved(u, r.id, r.moves.value) else u
  }

  lemma ServeKeepsBound(t: Table, now: nat, r: Request, t': Table)
    requires Bounded(t, now) && Serves(t, now, r, t')
    ensures Bounded(t', now + 1) && r.id in t' && t'[r.id].lastUsed == now
  {
    var u: Table :| Gets(t, now, r.id, r.root, r.epoch, u) && r.id in u
                    && t' == if r.moves.Some? then Moved(u, r.id, r.moves.value) else u;
    GetKeepsBound(t, now, r.id, r.root, r.epoch, u);
    SizeAfterInsert(u, r.id, t'[r.id]);
  }

  /** Tables over a run of requests. */
  ghost predicate Run(requests: seq<Request>, tables: seq<Table>)
  {
    match |tables|
    case 0 => false
    case n =>
      && n == |requests| + 1 && tables[0] == map[]
      && forall i | 0 <= i < |requests| :: Serves(tables[i], i, requests[i], tables[i + 1])
  }

  lemma StepOf(requests: seq<Request>, tables: seq<Table>, i: nat)
    requires Run(requests, tables) && i < |requests|
    ensures |tables| == |requests| + 1 && Serves(tables[i], i, requests[i], tables[i + 1])
  {
  }

  lemma {:induction false} RunIsBounded(requests: seq<Request>, tables: seq<Table>, n: nat)
    requires Run(requests, tables) && n <= |requests|
    ensures |tables| == |requests| + 1 && Bounded(tables[n], n)
  {
    if n > 0 {
      RunIsBounded(requests, tables, n - 1);
      StepOf(requests, tables, n - 1);
      ServeKeepsBound(tables[n - 1], n - 1, requests[n - 1], tables[n]);
    }
  }

  ghost function IdsOf(requests: seq<Request>, from: nat, to: nat): set<Id>
    requires from <= to <= |requests|
  {
    if from == to then {} else IdsOf(requests, from, to - 1) + {requests[to - 1].id}
  }

  /** The session is there, last used at the given time, and every session used since then belongs
      to one of the given ids. */
  ghost predicate KeptSince(t: Table, id: Id, since: nat, others: set<Id>)
  {
    match if id in t then Some(t[id]) else None
    case None => false
    case Some(s) =>
      s.lastUsed == since && forall other | other in t && t[other].lastUsed > since :: other in others
  }

  lemma NoMoreThan(a: set<Id>, b: set<Id>)
    requires a <= b
    ensures |a| <= |b|
  {
    assert b == a + (b - a);
  }

  /** If this session were the least recently used, all sessions of the table would be the others. */
  lemma OldestIsOutnumbered(t: Table, now: nat, newcomer: Id, id: Id, since: nat, others: set<Id>)
    requires Bounded(t, now) && KeptSince(t, id, since, others) && newcomer !in t && LeastRecentlyUsed(t, id)
    ensures |t| <= |others + {newcomer}|
  {
    forall other | other in t.Keys - {id}
      ensures other in others
    {
      assert t[other].lastUsed != t[id].lastUsed;
    }
    NoMoreThan(t.Keys - {id} + {newcomer}, others + {newcomer});
    assert |t.Keys - {id}| == |t| - 1;
  }

  /** A request of another session drops this one only after a full table of other sessions was used. */
  lemma OthersKeepIt(t: Table, now: nat, r: Request, t': Table, id: Id, since: nat, others: set<Id>)
    requires Bounded(t, now) && Serves(t, now, r, t') && r.id != id
    requires KeptSince(t, id, since, others) && |others + {r.id}| < MAX_TRACKED_SESSIONS
    ensures KeptSince(t', id, since, others + {r.id}) && t'[id] == t[id]
  {
    var u: Table :| Gets(t, now, r.id, r.root, r.epoch, u) && r.id in u
                    && t' == if r.moves.Some? then Moved(u, r.id, r.moves.value) else u;
    if !Matches(t, r.id, r.root, r.epoch) && r.id !in t && |t| >= MAX_TRACKED_SESSIONS {
      var oldest :| LeastRecentlyUsed(t, oldest) && u == (t - {oldest})[r.id := Fresh(r.root, r.epoch, now)];
      if LeastRecentlyUsed(t, id) {
        OldestIsOutnumbered(t, now, r.id, id, since, others);
      }
    }
  }

  /** A session is kept, with its cache and its working directory, as long as fewer than a full table of
      other sessions send requests after its own last one. */
  lemma RecentSessionSurvives(requests: seq<Request>, tables: seq<Table>, i: nat, n: nat)
    requires Run(requests, tables) && i < n <= |requests|
    requires forall j | i < j < n :: requests[j].id != requests[i].id
    requires |IdsOf(requests, i + 1, n)| < MAX_TRACKED_SESSIONS
    ensures KeptSince(tables[n], requests[i].id, i, IdsOf(requests, i + 1, n))
    ensures tables[n][requests[i].id] == tables[i + 1][requests[i].id]
  {
    JustUsed(requests, tables, i);
    Survives(requests, tables, i, n, requests[i].id, tables[i + 1][requests[i].id], IdsOf(requests, i + 1, n));
  }

  lemma {:induction false} Survives(requests: seq<Request>, tables: seq<Table>, i: nat, n: nat, id: Id, s: Session,
                                    others: set<Id>)
    requires Run(requests, tables) && i < n <= |requests| && (forall j | i < j < n :: requests[j].id != id)
    requires others == IdsOf(requests, i + 1, n) && |others| < MAX_TRACKED_SESSIONS
    requires KeptSince(tables[i + 1], id, i, {}) && tables[i + 1][id] == s
    ensures KeptSince(tables[n], id, i, others) && tables[n][id] == s
    decreases n
  {
    if n > i + 1 {
      var fewer := IdsOf(requests, i + 1, n - 1);
      assert others == fewer + {requests[n - 1].id};
      assert |fewer| < MAX_TRACKED_SESSIONS by { NoMoreThan(fewer, others); }
      Survives(requests, tables, i, n - 1, id, s, fewer);
      OneMoreRequest(requests, tables, n, id, i, s, fewer, others);
    }
  }

  lemma OneMoreRequest(requests: seq<Request>, tables: seq<Table>, n: nat, id: Id, since: nat, s: Session,
                       others: set<Id>, all: set<Id>)
    requires Run(requests, tables) && 0 < n <= |requests| && requests[n - 1].id != id
    requires all == others + {requests[n - 1].id} && |all| < MAX_TRACKED_SESSIONS
    requires KeptSince(tables[n - 1], id, since, others) && tables[n - 1][id] == s
    ensures KeptSince(tables[n], id, since, all) && tables[n][id] == s
  {
    RunIsBounded(requests, tables, n - 1);
    StepOf(requests, tables, n - 1);
    OthersKeepIt(tables[n - 1], n - 1, requests[n - 1], tables[n], id, since, others);
  }

  lemma JustUsed(requests: seq<Request>, tables: seq<Table>, i: nat)
    requires Run(requests, tables) && i < |requests|
    ensures KeptSince(tables[i + 1], requests[i].id, i, {})
  {
    RunIsBounded(requests, tables, i);
    StepOf(requests, tables, i);
    ServeKeepsBound(tables[i], i, requests[i], tables[i + 1]);
  }

  // ----- where a session works

  /** The directory that the requests of a session from one on last moved it to, or none. */
  ghost function LastMove(requests: seq<Request>, id: Id, from: nat, to: nat): Option<string>
    requires to <= |requests|
  {
    if to <= from then None
    else if requests[to - 1].id == id && requests[to - 1].moves.Some? then requests[to - 1].moves.value
    else LastMove(requests, id, from, to - 1)
  }

  /** Request k does not start the session over. */
  ghost predicate CarriesAt(requests: seq<Request>, tables: seq<Table>, id: Id, k: nat)
    requires k < |requests| <= |tables|
  {
    match requests[k]
    case Request(other, root, epoch, _) => other == id ==> Carries(tables[k], id, root, epoch)
  }

  /** The session last started over with request i, among the first n. */
  ghost predicate StartedWith(requests: seq<Request>, tables: seq<Table>, id: Id, i: nat, n: nat)
    requires |tables| == |requests| + 1
  {
    match n
    case 0 => false
    case _ =>
      && i < n <= |requests| && requests[i].id == id && !CarriesAt(requests, tables, id, i)
      && forall k | i < k < n :: CarriesAt(requests, tables, id, k)
  }

  lemma StartedAlso(requests: seq<Request>, tables: seq<Table>, id: Id, i: nat, n: nat)
    requires |tables| == |requests| + 1 && 0 < n <= |requests|
    requires if CarriesAt(requests, tables, id, n - 1) then StartedWith(requests, tables, id, i, n - 1) else i == n - 1
    ensures StartedWith(requests, tables, id, i, n)
  {
  }

  /** One request, as its session and the others see it. */
  lemma ServeFinds(t: Table, now: nat, r: Request, t': Table)
    requires Serves(t, now, r, t')
    ensures r.id in t' && t'[r.id].root == r.root
    ensures r.moves.Some? ==> t'[r.id].current == r.moves.value
    ensures r.moves.None? ==>
              t'[r.id].current == if Carries(t, r.id, r.root, r.epoch) then t[r.id].current else None
    ensures forall other | other in t' && other != r.id :: other in t && t'[other] == t[other]
  {
    var u: Table :| Gets(t, now, r.id, r.root, r.epoch, u) && r.id in u
                    && t' == if r.moves.Some? then Moved(u, r.id, r.moves.value) else u;
    GetFinds(t, now, r.id, r.root, r.epoch, u);
  }

  /** In every run a session stands in the root it last started over with, and works in the directory it
      has moved to last since then, or in the root if it has not moved or has gone back. */
  lemma WorksWhereItMoved(requests: seq<Request>, tables: seq<Table>, n: nat, id: Id) returns (i: nat)
    requires Run(requests, tables) && n <= |requests| && |tables| == |requests| + 1 && id in tables[n]
    ensures StartedWith(requests, tables, id, i, n)
    ensures var moved := LastMove(requests, id, i, n);
            Workdir(tables[n][id]) == if moved.Some? then moved.value else requests[i].root
  {
    i := HasMoved(requests, tables, n, id);
  }

  lemma {:induction false} HasMoved(requests: seq<Request>, tables: seq<Table>, n: nat, id: Id) returns (i: nat)
    requires Run(requests, tables) && n <= |requests| && |tables| == |requests| + 1 && id in tables[n]
    ensures StartedWith(requests, tables, id, i, n)
    ensures tables[n][id].root == requests[i].root && tables[n][id].current == LastMove(requests, id, i, n)
  {
    StepOfRun(requests, tables, n);
    i := n - 1;
    ServeFinds(tables[i], i, requests[i], tables[n]);
    var before := None;
    if CarriesAt(requests, tables, id, i) {
      before := tables[i][id].current;
      i := HasMoved(requests, tables, n - 1, id);
    }
    MovesOn(requests, id, i, n, before, tables[n][id].current);
    StartedAlso(requests, tables, id, i, n);
  }

  lemma MovesOn(requests: seq<Request>, id: Id, i: nat, n: nat, before: Option<string>, after: Option<string>)
    requires i < n <= |requests| && before == LastMove(requests, id, i, n - 1)
    requires after == if requests[n - 1].id == id && requests[n - 1].moves.Some? then requests[n - 1].moves.value
                      else before
    ensures after == LastMove(requests, id, i, n)
  {
  }

  lemma StepOfRun(requests: seq<Request>, tables: seq<Table>, n: nat)
    requires Run(requests, tables) && n <= |requests|
    ensures |tables| == |requests| + 1 && (n == 0 ==> tables[n] == map[])
    ensures n > 0 ==> Serves(tables[n - 1], n - 1, requests[n - 1], tables[n])
  {
    if n > 0 {
      StepOf(requests, tables, n - 1);
    }
  }

  // ----- the table itself

  class SessionTable {
    var states: Table
    var clock: nat

    constructor ()
      ensures states == map[] && clock == 0 && Bounded(states, clock)
    {
      states, clock := map[], 0;
    }

    method Oldest() returns (oldest: Id)
      requires states != map[]
      ensures LeastRecentlyUsed(states, oldest)
    {
      oldest :| oldest in states;
      var rest := states.Keys - {oldest};
      while rest != {}
        invariant rest <= states.Keys && oldest in states
        invariant forall id | id in states && id !in rest :: states[oldest].lastUsed <= states[id].lastUsed
        decreases |rest|
      {
        var id :| id in rest;
        if states[id].lastUsed < states[oldest].lastUsed {
          oldest := id;
        }
        rest := rest - {id};
      }
    }

    /** The state of a session, made or started over if need be. */
    method Get(id: Id, root: string, epoch: Option<nat>) returns (s: Session)
      requires Bounded(states, clock)
      modifies this
      ensures Gets(old(states), old(clock), id, root, epoch, states) && clock == old(clock) + 1
      ensures Finds(old(states), old(clock), id, root, epoch, states)
      ensures Bounded(states, clock) && id in states && s == states[id]
    {
      ghost var before := states;
      var now := clock;
      clock := clock + 1;
      if Matches(states, id, root, epoch) {
        s := Resumed(states[id], epoch, now);
      } else {
        if id !in states && |states| >= MAX_TRACKED_SESSIONS {
          var oldest := Oldest();
          states := states - {oldest};
        }
        s := Fresh(root, epoch, now);
      }
      states := states[id := s];
      GetKeepsBound(before, now, id, root, epoch, states);
      GetFinds(before, now, id, root, epoch, states);
    }

    /** Moves a session to a directory, or back to its root. */
    method Move(id: Id, to: Option<string>)
      requires Bounded(states, clock) && id in states
      modifies this`states
      ensures states == Moved(old(states), id, to) && Bounded(states, clock)
      ensures Workdir(states[id]) == if to.Some? then to.value else states[id].root
    {
      SizeAfterInsert(states, id, states[id].(current := to));
      states := states[id := states[id].(current := to)];
    }
  }
}
