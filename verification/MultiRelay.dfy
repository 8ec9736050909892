/**
 The merging client of src/client/multi.rs: one query to every relay, the answers united with
 the first occurrence of each id kept; and why resolving a nametag over the merged answer is
 resolving it over everything the relays sent.
 */
module MultiRelay {
  import opened Basics
  import opened Events
  import opened Binding
  import opened Resolution
  import opened Dialogue
  import opened Exchanges
  import opened Relay

  /** A relay as a query finds it. */
  datatype Peer = Peer(s: Session, net: Net)

  function PeerOf(c: RelayClient): Peer
    reads c
  {
    Peer(c.s, c.State())
  }

  function Peers(clients: seq<RelayClient>): (peers: seq<Peer>)
    reads clients
    ensures |peers| == |clients| && forall i :: 0 <= i < |clients| ==> peers[i] == PeerOf(clients[i])
  {
    seq(|clients|, i requires 0 <= i < |clients| reads clients => PeerOf(clients[i]))
  }

  /** What one relay contributes: the answer of its query, or nothing if that fails. */
  ghost function AnswerOf(peer: Peer, filter: Filter): seq<Event> {
    match QueryAnswer(peer.s, peer.net, filter)
    case None => []
    case Some(answer) => answer
  }

  ghost function AnswersTo(filter: Filter): Peer -> seq<Event> {
    (peer: Peer) => AnswerOf(peer, filter)
  }

  /** All verified answers, relay after relay. */
  ghost function AllAnswers(peers: seq<Peer>, filter: Filter): seq<Event> {
    FlatMap(AnswersTo(filter), peers)
  }

  lemma AllAnswersSnoc(peers: seq<Peer>, peer: Peer, filter: Filter)
    ensures AllAnswers(peers + [peer], filter) == AllAnswers(peers, filter) + AnswerOf(peer, filter)
  {
    FlatMapSnoc(AnswersTo(filter), peers, peer);
  }

  lemma OneMorePeer(peers: seq<Peer>, i: nat, filter: Filter)
    requires i < |peers|
    ensures AllAnswers(peers[..i + 1], filter) == AllAnswers(peers[..i], filter) + AnswerOf(peers[i], filter)
  {
    assert peers[..i + 1] == peers[..i] + [peers[i]];
    AllAnswersSnoc(peers[..i], peers[i], filter);
  }

  /** No relay is left out and none comes twice: the answers of two lists of relays are those of the joined list. */
  lemma AllAnswersSplit(a: seq<Peer>, b: seq<Peer>, peer: Peer, filter: Filter)
    ensures AllAnswers(a + b, filter) == AllAnswers(a, filter) + AllAnswers(b, filter)
    ensures AllAnswers([peer], filter) == AnswerOf(peer, filter)
  {
    FlatMapAppend(AnswersTo(filter), a, b);
    FlatMapSnoc(AnswersTo(filter), [], peer);
    assert [] + [peer] == [peer];
  }

  ghost predicate Seen(seen: set<Text>, events: seq<Event>) {
    forall id :: id in seen <==> HasId(events, id)
  }

  lemma DeduplicatedSnoc(events: seq<Event>, e: Event)
    ensures Deduplicated(events + [e]) == Deduplicated(events) + if HasId(events, e.id) then [] else [e]
    ensures forall id :: HasId(events + [e], id) <==> HasId(events, id) || id == e.id
  {
    DeduplicatedStep(events, e);
    forall id
      ensures HasId(events + [e], id) <==> HasId(events, id) || id == e.id
    {
      assert (events + [e])[|events|] == e;
      if HasId(events, id) {
        var i :| 0 <= i < |events| && events[i].id == id;
        assert (events + [e])[i].id == id;
      }
    }
  }

  lemma MergeStep(seen: set<Text>, all: seq<Event>, e: Event)
    requires Seen(seen, all)
    ensures Deduplicated(all + [e]) == if e.id in seen then Deduplicated(all) else Deduplicated(all) + [e]
    ensures Seen(seen + {e.id}, all + [e])
    ensures e.id in seen ==> Seen(seen, all + [e])
  {
    DeduplicatedSnoc(all, e);
  }

  lemma OneMoreMerged(all: seq<Event>, events: seq<Event>, k: nat)
    requires k < |events|
    ensures all + events[..k + 1] == (all + events[..k]) + [events[k]]
  {
  }

  class MultiRelayClient {
    var clients: seq<RelayClient>

    constructor (clients: seq<RelayClient>)
      ensures this.clients == clients
    {
      this.clients := clients;
    }

    method Query(filter: Filter) returns (out: seq<Event>)
      requires forall i, j :: 0 <= i < j < |clients| ==> clients[i] != clients[j]
      modifies clients
      ensures clients == old(clients) && out == Deduplicated(AllAnswers(old(Peers(clients)), filter))
    {
      var seen: set<Text> := {};
      out := [];
      ghost var peers, all := Peers(clients), [];
      for i := 0 to |clients|
        invariant clients == old(clients)
        invariant forall j :: i <= j < |clients| ==> PeerOf(clients[j]) == peers[j]
        invariant all == AllAnswers(peers[..i], filter)
        invariant out == Deduplicated(all) && Seen(seen, all)
      {
        seen, out, all := AskOne(clients[i], filter, seen, out, all, peers, i);
      }
      assert peers[..|clients|] == peers;
    }

    /** The body of the loop: one relay's query, and its answer merged. */
    method AskOne(c: RelayClient, filter: Filter, seenBefore: set<Text>, before: seq<Event>,
                  ghost all: seq<Event>, ghost peers: seq<Peer>, ghost i: nat)
      returns (seen: set<Text>, out: seq<Event>, ghost more: seq<Event>)
      requires i < |peers| && peers[i] == PeerOf(c) && all == AllAnswers(peers[..i], filter)
      requires before == Deduplicated(all) && Seen(seenBefore, all)
      modifies c
      ensures more == AllAnswers(peers[..i + 1], filter)
      ensures out == Deduplicated(more) && Seen(seen, more)
    {
      var answer := c.Query(filter);
      if answer.Ok? {
        seen, out := Merge(seenBefore, before, all, answer.value);
      } else {
        assert all + [] == all;
        seen, out := seenBefore, before;
      }
      OneMorePeer(peers, i, filter);
      more := all + AnswerOf(peers[i], filter);
    }

    /** The inner loop: one relay's answer. */
    method Merge(seenBefore: set<Text>, before: seq<Event>, ghost all: seq<Event>, events: seq<Event>)
      returns (seen: set<Text>, out: seq<Event>)
      requires before == Deduplicated(all) && Seen(seenBefore, all)
      ensures out == Deduplicated(all + events) && Seen(seen, all + events)
    {
      seen, out := seenBefore, before;
      ghost var done := all;
      for k := 0 to |events|
        invariant done == all + events[..k]
        invariant out == Deduplicated(done) && Seen(seen, done)
      {
        MergeStep(seen, done, events[k]);
        OneMoreMerged(all, events, k);
        done := done + [events[k]];
        if events[k].id !in seen {
          seen := seen + {events[k].id};
          out := out + [events[k]];
        }
      }
      assert events[..|events|] == events;
    }
  }

  // ---- Merging commutes with resolving ----

  lemma {:induction false} AnswersVerified(p: Primitives, id: Text, window: seq<Incoming>)
    ensures forall e :: e in AnswersIn(p, id, window) ==> Verify(p, e)
  {
    if window != [] {
      AnswersVerified(p, id, window[..|window| - 1]);
    }
  }

  lemma {:induction false} AllAnswersVerified(p: Primitives, peers: seq<Peer>, filter: Filter)
    requires forall peer :: peer in peers ==> peer.s.p == p
    ensures forall e :: e in AllAnswers(peers, filter) ==> Verify(p, e)
  {
    if peers != [] {
      var n := |peers| - 1;
      AllAnswersVerified(p, peers[..n], filter);
      assert peers[n] in peers && peers == peers[..n] + [peers[n]];
      AllAnswersSnoc(peers[..n], peers[n], filter);
      AnswerVerified(p, peers[n], filter);
    }
  }

  lemma AnswerVerified(p: Primitives, peer: Peer, filter: Filter)
    requires peer.s.p == p
    ensures forall e :: e in AnswerOf(peer, filter) ==> Verify(p, e)
  {
    var id := SubId(Next(peer.net.nextSub));
    AnswersVerified(p, id, peer.net.incoming[..Until(peer.net.incoming, QueryEnds(id))]);
  }

  /** No two of these events are a SHA-256 collision. */
  ghost predicate CollisionFree(p: Primitives, events: seq<Event>) {
    forall e, f :: e in events && f in events ==>
      var a, b := Canonical(FieldsOf(e)), Canonical(FieldsOf(f));
      (p.sha256(a) == p.sha256(b) ==> a == b)
  }

  lemma VerifiedIdsCommit(p: Primitives, events: seq<Event>)
    requires CollisionFree(p, events) && forall e :: e in events ==> Verify(p, e)
    ensures IdsCommit(events)
  {
    forall e, f | e in events && f in events && e.id == f.id
      ensures FieldsOf(e) == FieldsOf(f)
    {
      IdCommits(p, e, f);
    }
  }

  /**
   Whatever the relays answer, resolving a nametag over the merged query gives the same event as
   resolving it over all their verified answers one after the other.
   */
  lemma MergingKeepsOwner(reg: Registry, peers: seq<Peer>, filter: Filter, nametag: Text)
    requires forall peer :: peer in peers ==> peer.s.p == reg.p
    requires CollisionFree(reg.p, AllAnswers(peers, filter))
    ensures OwnerEvent(Deduplicated(AllAnswers(peers, filter)), reg.ForNametag(nametag))
         == OwnerEvent(AllAnswers(peers, filter), reg.ForNametag(nametag))
  {
    var all, counts := AllAnswers(peers, filter), reg.ForNametag(nametag);
    AllAnswersVerified(reg.p, peers, filter);
    VerifiedIdsCommit(reg.p, all);
    forall e, f | e in all && f in all && FieldsOf(e) == FieldsOf(f)
      ensures counts(e) == counts(f)
    {
      assert e.kind == FieldsOf(e).kind && e.tags == FieldsOf(e).tags && e.content == FieldsOf(e).content;
      assert f.kind == FieldsOf(f).kind && f.tags == FieldsOf(f).tags && f.content == FieldsOf(f).content;
    }
    ResolvesDeduplicated(all, counts);
  }
}
