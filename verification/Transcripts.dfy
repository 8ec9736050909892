/**
 What a query and a publish come to, entry by entry of the script and frame by frame of the log,
 without the vocabulary in which their contracts are stated.
 */
module Transcripts {
  import opened Basics
  import opened TextCodecs
  import opened Events
  import opened Dialogue
  import opened Exchanges

  // ---- Where a query stops ----

  /** Entry `k` is the first at which a query with this id stops, and the connection held until then. */
  ghost predicate StopsAt(id: Text, incoming: seq<Incoming>, k: nat) {
    && k < |incoming|
    && (incoming[k] == Timeout || incoming[k] == Received(EoseMsg(id))
        || exists why :: incoming[k] == Received(ClosedMsg(id, why)))
    && (forall i :: 0 <= i < k ==>
          && incoming[i] != Broken && incoming[i] != Timeout && incoming[i] != Received(EoseMsg(id))
          && forall why :: incoming[i] != Received(ClosedMsg(id, why)))
  }

  lemma StopIsUntil(id: Text, incoming: seq<Incoming>, k: nat)
    ensures StopsAt(id, incoming, k) <==>
            k == Until(incoming, QueryEnds(id)) < |incoming| && !incoming[k].Broken?
  {
    forall i | 0 <= i < |incoming|
      ensures QueryEnds(id)(incoming[i]) <==>
              || incoming[i] == Broken || incoming[i] == Timeout || incoming[i] == Received(EoseMsg(id))
              || exists why :: incoming[i] == Received(ClosedMsg(id, why))
    {
      ClosesExactly(id, incoming[i]);
    }
  }

  lemma ClosesExactly(id: Text, m: Incoming)
    ensures m.Received? && m.msg.ClosedMsg? && m.msg.subId == id <==> exists why :: m == Received(ClosedMsg(id, why))
  {
    if m.Received? && m.msg.ClosedMsg? && m.msg.subId == id {
      assert m == Received(ClosedMsg(id, m.msg.message));
    }
  }

  // ---- What a query returns ----

  /** `at` lists the positions, in order, at which `pick` finds something, and `out` what it finds there. */
  ghost predicate Picks<T, U>(pick: T -> Option<U>, s: seq<T>, out: seq<U>, at: seq<nat>) {
    && |at| == |out|
    && (forall i, j :: 0 <= i < j < |at| ==> at[i] < at[j])
    && (forall i :: 0 <= i < |at| ==> at[i] < |s| && pick(s[at[i]]) == Some(out[i]))
    && (forall n: nat :: n < |s| && pick(s[n]).Some? ==> n in at)
  }

  function Found<U>(o: Option<U>): seq<U> {
    match o
    case Some(u) => [u]
    case None => []
  }

  lemma PicksSkip<T, U>(pick: T -> Option<U>, s: seq<T>, out: seq<U>, at: seq<nat>)
    requires s != [] && Picks(pick, s[..|s| - 1], out, at) && pick(s[|s| - 1]).None?
    ensures Picks(pick, s, out, at)
  {
    var front := s[..|s| - 1];
    forall n: nat | n < |s| && pick(s[n]).Some?
      ensures n in at
    {
      assert front[n] == s[n];
    }
    forall i | 0 <= i < |at|
      ensures at[i] < |s| && pick(s[at[i]]) == Some(out[i])
    {
      assert front[at[i]] == s[at[i]];
    }
  }

  lemma PicksTake<T, U>(pick: T -> Option<U>, s: seq<T>, out: seq<U>, at: seq<nat>, u: U)
    requires s != [] && Picks(pick, s[..|s| - 1], out, at) && pick(s[|s| - 1]) == Some(u)
    ensures Picks(pick, s, out + [u], at + [|s| - 1])
  {
    var front, all, m := s[..|s| - 1], at + [|s| - 1], |at|;
    assert all[m] == |s| - 1 && forall i :: 0 <= i < m ==> all[i] == at[i];
    forall n: nat | n < |s| && pick(s[n]).Some?
      ensures n in all
    {
      if n < |s| - 1 {
        assert front[n] == s[n];
        assert n in at;
      } else {
        assert all[m] == n;
      }
    }
    forall i | 0 <= i < |all|
      ensures all[i] < |s| && pick(s[all[i]]) == Some((out + [u])[i])
    {
      if i < m {
        assert front[at[i]] == s[at[i]];
      }
    }
  }

  /** The event of an entry, if it is a verified one under this id. */
  function OwnEvent(p: Primitives, id: Text): Incoming -> Option<Event> {
    (m: Incoming) =>
      match m
      case Received(EventMsg(sub, e)) => if sub == id && Verify(p, e) then Some(e) else None
      case _ => None
  }

  lemma OwnEventIs(p: Primitives, id: Text, m: Incoming)
    ensures OwnEvent(p, id)(m).Some? <==> exists e :: m == Received(EventMsg(id, e)) && Verify(p, e)
    ensures OwnEvent(p, id)(m).Some? ==> m == Received(EventMsg(id, OwnEvent(p, id)(m).value))
  {
  }

  lemma AnswersStep(p: Primitives, id: Text, window: seq<Incoming>)
    requires window != []
    ensures AnswersIn(p, id, window)
         == AnswersIn(p, id, window[..|window| - 1]) + Found(OwnEvent(p, id)(window[|window| - 1]))
  {
  }

  lemma {:induction false} AnswersPicked(p: Primitives, id: Text, window: seq<Incoming>) returns (at: seq<nat>)
    ensures Picks(OwnEvent(p, id), window, AnswersIn(p, id, window), at)
  {
    if window == [] {
      at := [];
    } else {
      var n := |window| - 1;
      var before := AnswersPicked(p, id, window[..n]);
      AnswersStep(p, id, window);
      at := LastPicked(OwnEvent(p, id), window, AnswersIn(p, id, window[..n]), before);
    }
  }

  lemma LastPicked<T, U>(pick: T -> Option<U>, s: seq<T>, out: seq<U>, before: seq<nat>) returns (at: seq<nat>)
    requires s != [] && Picks(pick, s[..|s| - 1], out, before)
    ensures Picks(pick, s, out + Found(pick(s[|s| - 1])), at)
  {
    match pick(s[|s| - 1])
    case None =>
      PicksSkip(pick, s, out, before);
      assert out + [] == out;
      at := before;
    case Some(u) =>
      PicksTake(pick, s, out, before, u);
      at := before + [|s| - 1];
  }

  lemma PickedExactly(p: Primitives, id: Text, incoming: seq<Incoming>, k: nat, out: seq<Event>, at: seq<nat>)
    requires k <= |incoming| && Picks(OwnEvent(p, id), incoming[..k], out, at)
    ensures |at| == |out| && forall i, j :: 0 <= i < j < |at| ==> at[i] < at[j]
    ensures forall i :: 0 <= i < |at| ==>
              at[i] < k && incoming[at[i]] == Received(EventMsg(id, out[i])) && Verify(p, out[i])
    ensures forall n: nat, e :: n < k && incoming[n] == Received(EventMsg(id, e)) && Verify(p, e) ==> n in at
  {
    forall i | 0 <= i < |at|
      ensures at[i] < k && incoming[at[i]] == Received(EventMsg(id, out[i])) && Verify(p, out[i])
    {
      OwnEventIs(p, id, incoming[..k][at[i]]);
    }
    forall n: nat, e | n < k && incoming[n] == Received(EventMsg(id, e)) && Verify(p, e)
      ensures n in at
    {
      OwnEventIs(p, id, incoming[..k][n]);
    }
  }

  /**
   A successful query, in full: where it stops, what is left of the script, which events it returns,
   what it sends, and that everything but the closing frame was delivered.
   */
  lemma QueryMeans(s: Session, net: Net, filter: Filter, after: Net, answer: seq<Event>)
    returns (id: Text, k: nat, at: seq<nat>)
    requires QueryPost(s, net, filter, after, Ok(answer))
    ensures id == Lit("q") + Decimal((net.nextSub + 1) % 0x1_0000_0000_0000_0000)
    ensures StopsAt(id, net.incoming, k) && after.incoming == net.incoming[k + 1..]
    ensures |at| == |answer| && forall i, j :: 0 <= i < j < |at| ==> at[i] < at[j]
    ensures forall i :: 0 <= i < |at| ==>
              at[i] < k && net.incoming[at[i]] == Received(EventMsg(id, answer[i])) && Verify(s.p, answer[i])
    ensures forall n: nat, e :: n < k && net.incoming[n] == Received(EventMsg(id, e)) && Verify(s.p, e) ==> n in at
    ensures net.sent + [ReqFrame(id, filter)] <= after.sent && after.sent[|after.sent| - 1] == CloseFrame(id)
    ensures forall i :: |net.sent| <= i < |after.sent| - 1 ==> s.sendOk(i)
  {
    id := SubId(Next(net.nextSub));
    k := Until(net.incoming, QueryEnds(id));
    StopIsUntil(id, net.incoming, k);
    at := AnswersPicked(s.p, id, net.incoming[..k]);
    PickedExactly(s.p, id, net.incoming, k, answer, at);
  }

  // ---- When a query succeeds ----

  /** Nothing stands in the way: all frames get through, and all challenges can be signed. */
  ghost predicate Healthy(s: Session) {
    && (forall i: nat :: s.sendOk(i))
    && (forall challenge, at :: s.answer(challenge, at).Ok?)
  }

  lemma {:induction false} HealthyServes(s: Session, follow: FollowUp, window: seq<Incoming>, at: nat)
    requires Healthy(s)
    ensures Served(s, follow, window, at).Some?
  {
    if window != [] {
      HealthyServes(s, follow, window[..|window| - 1], at);
    }
  }

  /** With a healthy connection, a query succeeds exactly when it stops before the connection does. */
  lemma QuerySucceeds(s: Session, net: Net, filter: Filter, after: Net, r: Result<seq<Event>>)
    requires QueryPost(s, net, filter, after, r) && Healthy(s)
    ensures r.Ok? <==> exists k: nat :: StopsAt(SubId(Next(net.nextSub)), net.incoming, k)
  {
    var id := SubId(Next(net.nextSub));
    var k := Until(net.incoming, QueryEnds(id));
    HealthyServes(s, QueryFollowUp(id, filter), net.incoming[..k], |net.sent| + 1);
    assert Smooth(s, QueryFollowUp(id, filter), QueryEnds(id), net.incoming, |net.sent|) <==> k < |net.incoming|;
    assert r.Ok? <==> k < |net.incoming| && !net.incoming[k].Broken?;
    StopIsUntil(id, net.incoming, k);
    if n: nat :| StopsAt(id, net.incoming, n) {
      StopIsUntil(id, net.incoming, n);
    }
  }

  // ---- Publishing ----

  /** Before entry `k`, neither an OK for this event, nor a timeout, nor a break. */
  ghost predicate Unacknowledged(id: Text, incoming: seq<Incoming>, k: nat) {
    && k <= |incoming|
    && forall i :: 0 <= i < k ==>
         && incoming[i] != Broken && incoming[i] != Timeout
         && forall ok, why :: incoming[i] != Received(OkMsg(id, ok, why))
  }

  lemma UnacknowledgedIsUntil(id: Text, incoming: seq<Incoming>, k: nat)
    ensures Unacknowledged(id, incoming, k) <==> k <= Until(incoming, PublishEnds(id))
  {
    forall i | 0 <= i < |incoming|
      ensures PublishEnds(id)(incoming[i]) <==>
              || incoming[i] == Broken || incoming[i] == Timeout
              || exists ok, why :: incoming[i] == Received(OkMsg(id, ok, why))
    {
      AcknowledgesExactly(id, incoming[i]);
    }
  }

  lemma AcknowledgesExactly(id: Text, m: Incoming)
    ensures m.Received? && m.msg.OkMsg? && m.msg.id == id <==> exists ok, why :: m == Received(OkMsg(id, ok, why))
  {
    if m.Received? && m.msg.OkMsg? && m.msg.id == id {
      assert m == Received(OkMsg(id, m.msg.accepted, m.msg.message));
    }
  }

  /** A successful publish, in full. */
  lemma PublishMeans(s: Session, net: Net, event: Event, after: Net, ok: bool, why: Text) returns (k: nat)
    requires PublishPost(s, net, event, after, Ok((ok, why)))
    ensures k < 64 && k < |net.incoming| && net.incoming[k] == Received(OkMsg(event.id, ok, why))
    ensures Unacknowledged(event.id, net.incoming, k) && after.incoming == net.incoming[k + 1..]
    ensures net.sent + [EventFrame(event)] <= after.sent && after.nextSub == net.nextSub
    ensures forall i :: |net.sent| <= i < |after.sent| ==> s.sendOk(i)
  {
    k := Until(net.incoming, PublishEnds(event.id));
    UnacknowledgedIsUntil(event.id, net.incoming, k);
  }

  lemma HealthyAnswer(s: Session, net: Net, event: Event)
    requires Healthy(s)
    ensures var k := Until(net.incoming, PublishEnds(event.id));
            PublishAnswer(s, net, event) ==
            if k < 64 && k < |net.incoming| && net.incoming[k].Received?
            then Some((net.incoming[k].msg.accepted, net.incoming[k].msg.message)) else None
  {
    var follow, ends := PublishFollowUp(event), PublishEnds(event.id);
    var k := Until(net.incoming, ends);
    HealthyServes(s, follow, net.incoming[..k], |net.sent| + 1);
    assert Smooth(s, follow, ends, net.incoming, |net.sent|) <==> k < |net.incoming|;
  }

  /** With a healthy connection, a publish succeeds exactly with an OK for its event among the first 64 entries. */
  lemma PublishSucceeds(s: Session, net: Net, event: Event, after: Net, r: Result<(bool, Text)>, k: nat)
    requires PublishPost(s, net, event, after, r) && Healthy(s)
    requires k <= 64 && Unacknowledged(event.id, net.incoming, k)
    ensures forall ok, why :: k < 64 && k < |net.incoming| && net.incoming[k] == Received(OkMsg(event.id, ok, why)) ==>
              r == Ok((ok, why))
    ensures k == 64 || k == |net.incoming| || net.incoming[k] in {Broken, Timeout} ==> r.Err?
  {
    UnacknowledgedIsUntil(event.id, net.incoming, k);
    HealthyAnswer(s, net, event);
  }

  /** Otherwise it gives up on a timeout or after 64 messages, and says which. */
  lemma PublishGivesUp(s: Session, net: Net, event: Event, after: Net, r: Result<(bool, Text)>, k: nat)
    requires PublishPost(s, net, event, after, r) && Healthy(s)
    requires k <= 64 && Unacknowledged(event.id, net.incoming, k)
    ensures k < 64 && k < |net.incoming| && net.incoming[k] == Timeout ==>
              r == Err(Malformed("publish: timed out waiting for OK")) && after.incoming == net.incoming[k + 1..]
    ensures k == 64 ==>
              r == Err(Malformed("publish: no OK received")) && after.incoming == net.incoming[64..]
  {
    PublishSucceeds(s, net, event, after, r, k);
    UnacknowledgedIsUntil(event.id, net.incoming, k);
    if k == 64 || (k < |net.incoming| && net.incoming[k] == Timeout) {
      NoBreak(s, net, event, after, r.error, k);
    }
  }

  /** A healthy connection fails only by ending or breaking. */
  lemma HealthyBreaks(s: Session, net: Net, opening: Frame, follow: FollowUp, ends: Incoming -> bool, j: nat,
                      after: Net, e: Error)
    requires FailsAt(s, net, opening, follow, ends, j, after, e) && Healthy(s)
    ensures j <= Until(net.incoming, ends) && (j == |net.incoming| || net.incoming[j] == Broken)
  {
    if j < |net.incoming| {
      assert net.incoming[j..][0] == net.incoming[j];
    }
  }

  lemma NoBreak(s: Session, net: Net, event: Event, after: Net, e: Error, k: nat)
    requires PublishFails(s, net, event, after, e) && Healthy(s)
    requires k <= 64 && k <= Until(net.incoming, PublishEnds(event.id))
    requires k == 64 || (k < |net.incoming| && net.incoming[k] == Timeout)
    ensures PublishEndsWithoutOk(s, net, event, k, after, e)
  {
    forall j: nat | j < 64
      ensures !FailsAt(s, net, EventFrame(event), PublishFollowUp(event), PublishEnds(event.id), j, after, e)
    {
      BreaksElsewhere(s, net, EventFrame(event), PublishFollowUp(event), PublishEnds(event.id), j, after, e, k);
    }
    var j: nat :| PublishEndsWithoutOk(s, net, event, j, after, e);
    EndsThere(s, net, event, j, after, e, k);
  }

  lemma BreaksElsewhere(s: Session, net: Net, opening: Frame, follow: FollowUp, ends: Incoming -> bool, j: nat,
                        after: Net, e: Error, k: nat)
    requires Healthy(s) && j < 64 && k <= Until(net.incoming, ends) && ends(Broken) && ends(Timeout)
    requires k == 64 || (k < |net.incoming| && net.incoming[k] == Timeout)
    ensures !FailsAt(s, net, opening, follow, ends, j, after, e)
  {
    if FailsAt(s, net, opening, follow, ends, j, after, e) {
      HealthyBreaks(s, net, opening, follow, ends, j, after, e);
    }
  }

  lemma EndsThere(s: Session, net: Net, event: Event, j: nat, after: Net, e: Error, k: nat)
    requires PublishEndsWithoutOk(s, net, event, j, after, e)
    requires k <= 64 && k <= Until(net.incoming, PublishEnds(event.id))
    requires k == 64 || (k < |net.incoming| && net.incoming[k] == Timeout)
    ensures j == k
  {
  }
}
