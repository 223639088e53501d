/** The registry of listening streams (`server.rs`) and the delivery of one completion to them. */
module Subscriptions {
  import opened Seqs
  import Jobs

  /** A stream with the URIs it asked for; none if it asked for no resources. */
  datatype Sink = Sink(id: nat, uris: seq<string>)

  function Covering(sinks: seq<Sink>, uri: string): (r: seq<Sink>)
    ensures forall s :: s in r <==> s in sinks && uri in s.uris
  {
    if sinks == [] then [] else (if uri in sinks[0].uris then [sinks[0]] else []) + Covering(sinks[1..], uri)
  }

  lemma CoveringNext(sinks: seq<Sink>, uri: string, i: nat, r: seq<Sink>)
    requires i < |sinks|
    ensures r + Covering(sinks[i..], uri)
         == (if uri in sinks[i].uris then r + [sinks[i]] else r) + Covering(sinks[i + 1..], uri)
  {
    assert sinks[i..][0] == sinks[i] && sinks[i..][1..] == sinks[i + 1..];
    CatEmpty(Covering(sinks[i + 1..], uri));
    Cat(r, [sinks[i]], Covering(sinks[i + 1..], uri));
  }

  function WithoutIds(sinks: seq<Sink>, ids: set<nat>): (r: seq<Sink>)
    ensures forall s :: s in r <==> s in sinks && s.id !in ids
  {
    if sinks == [] then [] else (if sinks[0].id in ids then [] else [sinks[0]]) + WithoutIds(sinks[1..], ids)
  }

  lemma {:induction false} WithoutTwice(sinks: seq<Sink>, ids: set<nat>, more: set<nat>)
    ensures WithoutIds(WithoutIds(sinks, ids), more) == WithoutIds(sinks, ids + more)
  {
    if sinks != [] {
      var rest := WithoutIds(sinks[1..], ids);
      assert ([sinks[0]] + rest)[1..] == rest;
      assert [] + rest == rest && [] + WithoutIds(sinks[1..], ids + more) == WithoutIds(sinks[1..], ids + more);
      WithoutTwice(sinks[1..], ids, more);
    }
  }

  lemma {:induction false} WithoutNone(sinks: seq<Sink>)
    ensures WithoutIds(sinks, {}) == sinks
  {
    if sinks != [] {
      WithoutNone(sinks[1..]);
    }
  }

  /** One send to a stream, and whether it got through. */
  datatype Attempt = Attempt(id: nat, uri: string, sent: bool)

  function FailedIn(attempts: seq<Attempt>): set<nat> { set a | a in attempts && !a.sent :: a.id }

  predicate SomeSent(attempts: seq<Attempt>) { exists a :: a in attempts && a.sent }

  /** One attempt for each of the streams, in order. */
  ghost predicate OnePerSink(attempts: seq<Attempt>, targets: seq<Sink>, uri: string)
  {
    |attempts| == |targets| && forall i | 0 <= i < |attempts| ::
      attempts[i].id == targets[i].id && attempts[i].uri == uri
  }

  lemma NextAttempt(attempts: seq<Attempt>, a: Attempt)
    ensures FailedIn(attempts + [a]) == FailedIn(attempts) + if a.sent then {} else {a.id}
    ensures SomeSent(attempts + [a]) <==> SomeSent(attempts) || a.sent
  {
    assert a in attempts + [a];
    forall id
      ensures id in FailedIn(attempts + [a]) <==> id in FailedIn(attempts) || (!a.sent && id == a.id)
    {
      if id in FailedIn(attempts) {
        var b :| b in attempts && !b.sent && b.id == id;
        assert b in attempts + [a];
      }
    }
    if SomeSent(attempts) {
      var b :| b in attempts && b.sent;
      assert b in attempts + [a];
    }
  }

  lemma Extended(log: seq<Attempt>, attempts: seq<Attempt>, targets: seq<Sink>, i: nat, uri: string, a: Attempt)
    returns (next: seq<Attempt>)
    requires i < |targets| && OnePerSink(attempts, targets[..i], uri) && a.id == targets[i].id && a.uri == uri
    ensures log + attempts + [a] == log + next && OnePerSink(next, targets[..i + 1], uri)
    ensures FailedIn(next) == FailedIn(attempts) + if a.sent then {} else {a.id}
    ensures SomeSent(next) <==> SomeSent(attempts) || a.sent
  {
    next := attempts + [a];
    NextAttempt(attempts, a);
    assert log + attempts + [a] == log + next;
  }

  class SubscriptionRegistry {
    var sinks: seq<Sink>
    ghost var log: seq<Attempt>

    constructor ()
      ensures sinks == [] && log == []
    {
      sinks, log := [], [];
    }

    method Register(sink: Sink)
      modifies this`sinks
      ensures sinks == old(sinks) + [sink]
    {
      sinks := sinks + [sink];
    }

    method Unregister(id: nat)
      modifies this`sinks
      ensures sinks == WithoutIds(old(sinks), {id})
    {
      sinks := WithoutIds(sinks, {id});
    }

    method SinksFor(uri: string) returns (r: seq<Sink>)
      ensures r == Covering(sinks, uri)
    {
      r := [];
      assert sinks[0..] == sinks;
      CatEmpty(Covering(sinks, uri));
      for i := 0 to |sinks|
        invariant Covering(sinks, uri) == r + Covering(sinks[i..], uri)
      {
        CoveringNext(sinks, uri, i, r);
        if uri in sinks[i].uris {
          r := r + [sinks[i]];
        }
      }
      assert sinks[|sinks|..] == [];
      CatEmpty(r);
    }

    /** Sends to every matching stream once, in order. A stream that failed is removed, so that it
        cannot keep a later completion from the fallback; every other stream stays registered. */
    method Notify(uri: string) returns (delivered: bool, ghost attempts: seq<Attempt>)
      modifies this
      ensures log == old(log) + attempts && OnePerSink(attempts, Covering(old(sinks), uri), uri)
      ensures delivered <==> SomeSent(attempts)
      ensures sinks == WithoutIds(old(sinks), FailedIn(attempts))
    {
      delivered, attempts := false, [];
      WithoutNone(sinks);
      var targets := SinksFor(uri);
      ghost var before, log0 := sinks, log;
      assert FailedIn([]) == {};
      for i := 0 to |targets|
        invariant log == log0 + attempts && OnePerSink(attempts, targets[..i], uri)
        invariant delivered <==> SomeSent(attempts)
        invariant sinks == WithoutIds(before, FailedIn(attempts))
      {
        var sent := NotifyOne(targets[i], uri, before, FailedIn(attempts));
        delivered := delivered || sent;
        ghost var a := Attempt(targets[i].id, uri, sent);
        ghost var next := Extended(log0, attempts, targets, i, uri, a);
        attempts := next;
      }
      assert targets[..|targets|] == targets;
    }

    method NotifyOne(sink: Sink, uri: string, ghost before: seq<Sink>, ghost failed: set<nat>) returns (sent: bool)
      requires sinks == WithoutIds(before, failed)
      modifies this
      ensures log == old(log) + [Attempt(sink.id, uri, sent)]
      ensures sinks == WithoutIds(before, failed + if sent then {} else {sink.id})
    {
      sent := Send(sink, uri);
      assert failed + {} == failed;
      if !sent {
        WithoutTwice(before, failed, {sink.id});
        Unregister(sink.id);
      }
    }

    /** Whether a stream is still open is not known before the send. */
    method Send(sink: Sink, uri: string) returns (sent: bool)
      modifies this`log
      ensures log == old(log) + [Attempt(sink.id, uri, sent)]
    {
      sent := *;
      log := log + [Attempt(sink.id, uri, sent)];
    }
  }

  // ----- the registry of the protocol

  function Ids(sinks: seq<Sink>): (r: seq<nat>)
    ensures |r| == |sinks|
  {
    if sinks == [] then [] else [sinks[0].id] + Ids(sinks[1..])
  }

  /** Removing one stream here is removing its id there. */
  lemma {:induction false} UnregisterIsWithout(sinks: seq<Sink>, id: nat)
    ensures Ids(WithoutIds(sinks, {id})) == Jobs.Without(Ids(sinks), id)
  {
    if sinks != [] {
      UnregisterIsWithout(sinks[1..], id);
      var rest := WithoutIds(sinks[1..], {id});
      assert [sinks[0]] + rest == [sinks[0]] + rest && ([sinks[0]] + rest)[1..] == rest;
      CatEmpty(rest);
      CatEmpty(Ids(rest));
      assert Ids(sinks)[1..] == Ids(sinks[1..]);
    }
  }

  /** The streams of this registry belong to listeners there, which want a job exactly if the stream
      asks for its URI. */
  ghost predicate Stands(sinks: seq<Sink>, s: Jobs.State, uri: string, j: nat)
  {
    forall i | 0 <= i < |sinks| ::
      sinks[i].id in s.listeners && (uri in sinks[i].uris <==> j in s.listeners[sinks[i].id].wants)
  }

  /** The streams found here are those that the notifier is to send to there, in the same order. */
  lemma {:induction false} CoveringIsSinksFor(sinks: seq<Sink>, s: Jobs.State, uri: string, j: nat)
    requires Stands(sinks, s, uri, j)
    ensures Ids(Covering(sinks, uri)) == Jobs.SinksFor(s, Ids(sinks), j)
  {
    if sinks != [] {
      assert forall i | 0 <= i < |sinks| - 1 :: sinks[1..][i] == sinks[i + 1];
      CoveringIsSinksFor(sinks[1..], s, uri, j);
      var rest := Covering(sinks[1..], uri);
      assert ([sinks[0]] + rest)[1..] == rest;
      CatEmpty(rest);
      CatEmpty(Ids(rest));
      assert Ids(sinks)[1..] == Ids(sinks[1..]);
    }
  }
}
