/**
 The two calls of src/client/mod.rs that converse with the relay: what `query` and `publish`
 return and leave behind, for any script the relay may play.
 */
module Exchanges {
  import opened Basics
  import opened TextCodecs
  import opened Events
  import opened Dialogue

  // ---- Querying ----

  function Next(n: u64): u64 {
    (n + 1) % 0x1_0000_0000_0000_0000
  }

  function SubId(n: u64): Text {
    Lit("q") + Digits(n)
  }

  lemma SubIdInjective(m: u64, n: u64)
    requires SubId(m) == SubId(n)
    ensures m == n
  {
    SplitAt(Lit("q"), Digits(m), Lit("q"), Digits(n));
    DigitsRead(m);
    DigitsRead(n);
  }

  /** EOSE or CLOSED for this subscription, an elapsed timeout, or a broken connection. */
  function QueryEnds(id: Text): Incoming -> bool {
    (m: Incoming) =>
      m.Broken? || m.Timeout? || m == Received(EoseMsg(id)) || (m.Received? && m.msg.ClosedMsg? && m.msg.subId == id)
  }

  function QueryFollowUp(id: Text, filter: Filter): FollowUp {
    (n: nat) => [ReqFrame(id, filter)]
  }

  predicate Answers(p: Primitives, id: Text, m: Incoming) {
    m.Received? && m.msg.EventMsg? && m.msg.subId == id && Verify(p, m.msg.event)
  }

  /** The verified events of this subscription, in order and with repetitions. */
  function AnswersIn(p: Primitives, id: Text, window: seq<Incoming>): seq<Event> {
    FlatMap((m: Incoming) => if Answers(p, id, m) then [m.msg.event] else [], window)
  }

  /** The answer of `query`, if it succeeds. */
  ghost function QueryAnswer(s: Session, net: Net, filter: Filter): Option<seq<Event>> {
    var id := SubId(Next(net.nextSub));
    var k := Until(net.incoming, QueryEnds(id));
    if Smooth(s, QueryFollowUp(id, filter), QueryEnds(id), net.incoming, |net.sent|) && !net.incoming[k].Broken?
    then Some(AnswersIn(s.p, id, net.incoming[..k]))
    else None
  }

  /** REQ, AUTH, REQ, AUTH, ... */
  ghost predicate Alternates(frames: seq<Frame>, id: Text, filter: Filter) {
    forall i :: 0 <= i < |frames| ==> if i % 2 == 0 then frames[i] == ReqFrame(id, filter) else frames[i].AuthFrame?
  }

  /** The state that a failing query leaves: its REQ unsent, or everything up to the entry where the wait fails. */
  ghost predicate QueryFails(s: Session, net: Net, filter: Filter, after: Net, e: Error) {
    var id := SubId(Next(net.nextSub));
    if !s.sendOk(|net.sent|) then after.incoming == net.incoming && after.sent == net.sent + [ReqFrame(id, filter)]
    else exists j :: FailsAt(s, net, ReqFrame(id, filter), QueryFollowUp(id, filter), QueryEnds(id), j, after, e)
  }

  ghost predicate QueryPost(s: Session, net: Net, filter: Filter, after: Net, r: Result<seq<Event>>) {
    var id := SubId(Next(net.nextSub));
    var k := Until(net.incoming, QueryEnds(id));
    && after.nextSub == Next(net.nextSub)
    && (r.Ok? <==> QueryAnswer(s, net, filter).Some?)
    && (r.Ok? ==>
          && r.value == QueryAnswer(s, net, filter).value
          && after.incoming == net.incoming[k + 1..]
          && after.sent == net.sent + [ReqFrame(id, filter)]
                           + Served(s, QueryFollowUp(id, filter), net.incoming[..k], |net.sent| + 1).value
                           + [CloseFrame(id)])
    && (r.Err? ==> QueryFails(s, net, filter, after, r.error))
  }

  // ---- Publishing ----

  /** OK for this event, an elapsed timeout, or a broken connection. */
  function PublishEnds(id: Text): Incoming -> bool {
    (m: Incoming) => m.Broken? || m.Timeout? || (m.Received? && m.msg.OkMsg? && m.msg.id == id)
  }

  /** The event is sent again once, after the first challenge. */
  function PublishFollowUp(event: Event): FollowUp {
    (n: nat) => if n == 0 then [EventFrame(event)] else []
  }

  /** What `publish` reports, if it succeeds: the first OK for the event among 64 messages. */
  ghost function PublishAnswer(s: Session, net: Net, event: Event): Option<(bool, Text)> {
    var k := Until(net.incoming, PublishEnds(event.id));
    if k < 64 && Smooth(s, PublishFollowUp(event), PublishEnds(event.id), net.incoming, |net.sent|)
       && net.incoming[k].Received?
    then Some((net.incoming[k].msg.accepted, net.incoming[k].msg.message))
    else None
  }

  /** EVENT, then at most AUTH, EVENT, then AUTHs. */
  ghost predicate PublishTrace(frames: seq<Frame>, event: Event) {
    forall i :: 0 <= i < |frames| ==> if i == 0 || i == 2 then frames[i] == EventFrame(event) else frames[i].AuthFrame?
  }

  /** 64 messages without an OK for the event, or a timeout before. */
  ghost predicate PublishEndsWithoutOk(s: Session, net: Net, event: Event, j: nat, after: Net, e: Error) {
    && j <= 64
    && Reached(s, net, PublishFollowUp(event), PublishEnds(event.id), j)
    && after.sent == SentBefore(s, net, EventFrame(event), PublishFollowUp(event), j)
    && if j == 64 then after.incoming == net.incoming[64..] && e == Malformed("publish: no OK received")
       else j < |net.incoming| && net.incoming[j] == Timeout && after.incoming == net.incoming[j + 1..]
            && e == Malformed("publish: timed out waiting for OK")
  }

  /** The state that a failing publish leaves, and with which error if that is its own. */
  ghost predicate PublishFails(s: Session, net: Net, event: Event, after: Net, e: Error) {
    if !s.sendOk(|net.sent|) then after.incoming == net.incoming && after.sent == net.sent + [EventFrame(event)]
    else
      || (exists j :: PublishEndsWithoutOk(s, net, event, j, after, e))
      || (exists j | j < 64 ::
            FailsAt(s, net, EventFrame(event), PublishFollowUp(event), PublishEnds(event.id), j, after, e))
  }

  ghost predicate PublishPost(s: Session, net: Net, event: Event, after: Net, r: Result<(bool, Text)>) {
    var k := Until(net.incoming, PublishEnds(event.id));
    && after.nextSub == net.nextSub
    && (r.Ok? <==> PublishAnswer(s, net, event).Some?)
    && (r.Ok? ==>
          && r.value == PublishAnswer(s, net, event).value
          && after.incoming == net.incoming[k + 1..]
          && after.sent == net.sent + [EventFrame(event)]
                           + Served(s, PublishFollowUp(event), net.incoming[..k], |net.sent| + 1).value)
    && (r.Err? ==> PublishFails(s, net, event, after, r.error))
  }

  // ---- The grammar of what is sent ----

  /** While a query waits, the answers it sends come in pairs. */
  lemma {:induction false} QueryServedAlternates(s: Session, id: Text, filter: Filter, window: seq<Incoming>, at: nat)
    requires Served(s, QueryFollowUp(id, filter), window, at).Some?
    ensures var frames := Served(s, QueryFollowUp(id, filter), window, at).value;
            |frames| == 2 * |Challenges(window)| && Alternates([ReqFrame(id, filter)] + frames, id, filter)
  {
    if window != [] {
      var n := |window| - 1;
      QueryServedAlternates(s, id, filter, window[..n], at);
      var before, m := Served(s, QueryFollowUp(id, filter), window[..n], at).value, window[n];
      if IsChallenge(m) {
        var auth := AuthFrame(s.answer(m.msg.challenge, at + |before|).value);
        AlternatesOn(before, auth, id, filter);
        assert before + [auth] + [ReqFrame(id, filter)] == before + [auth, ReqFrame(id, filter)];
      }
    }
  }

  lemma AlternatesOn(frames: seq<Frame>, auth: Frame, id: Text, filter: Filter)
    requires |frames| % 2 == 0 && auth.AuthFrame? && Alternates([ReqFrame(id, filter)] + frames, id, filter)
    ensures Alternates([ReqFrame(id, filter)] + (frames + [auth, ReqFrame(id, filter)]), id, filter)
    ensures Alternates([ReqFrame(id, filter)] + (frames + [auth]), id, filter)
  {
    var req := [ReqFrame(id, filter)];
    assert req + (frames + [auth, ReqFrame(id, filter)]) == (req + frames) + [auth, ReqFrame(id, filter)];
    assert req + (frames + [auth]) == (req + frames) + [auth];
  }

  /** While a publish waits, only the first challenge is followed by the event. */
  lemma {:induction false} PublishServedTrace(s: Session, event: Event, window: seq<Incoming>, at: nat)
    requires Served(s, PublishFollowUp(event), window, at).Some?
    ensures var frames, n := Served(s, PublishFollowUp(event), window, at).value, |Challenges(window)|;
            |frames| == (if n == 0 then 0 else n + 1) && PublishTrace([EventFrame(event)] + frames, event)
  {
    if window != [] {
      var n := |window| - 1;
      PublishServedTrace(s, event, window[..n], at);
      var before, m := Served(s, PublishFollowUp(event), window[..n], at).value, window[n];
      if IsChallenge(m) {
        var auth := AuthFrame(s.answer(m.msg.challenge, at + |before|).value);
        PublishTraceOn(before, auth, event);
        assert before + [auth] + [] == before + [auth];
      }
    }
  }

  lemma PublishTraceOn(frames: seq<Frame>, auth: Frame, event: Event)
    requires |frames| != 1 && auth.AuthFrame? && PublishTrace([EventFrame(event)] + frames, event)
    ensures PublishTrace([EventFrame(event)] + (frames + [auth]), event)
    ensures frames == [] ==> PublishTrace([EventFrame(event)] + (frames + [auth] + [EventFrame(event)]), event)
  {
    var open := [EventFrame(event)];
    assert open + (frames + [auth]) == (open + frames) + [auth];
  }

  // ---- Every way out of `publish` satisfies its contract ----

  lemma PublishUnopened(s: Session, net: Net, event: Event, after: Net, e: Error)
    requires after == net.(sent := net.sent + [EventFrame(event)]) && !s.sendOk(|net.sent|)
    ensures PublishPost(s, net, event, after, Err(e))
  {
  }

  /** `publish` between two rounds. */
  ghost predicate Publishing(s: Session, net: Net, event: Event, j: nat, now: Net) {
    && Waiting(s, net, EventFrame(event), PublishFollowUp(event), PublishEnds(event.id), j, now)
    && now.nextSub == net.nextSub
  }

  lemma PublishReceiveFails(s: Session, net: Net, event: Event, j: nat, now: Net, after: Net, e: Error)
    requires Publishing(s, net, event, j, now) && j < 64 && RecvPost(s, now, after, Err(e))
    ensures PublishPost(s, net, event, after, Err(e))
  {
    WaitFails(s, net, EventFrame(event), PublishFollowUp(event), PublishEnds(event.id), j, now, after, Err(e));
    ReceivingFails(s, net, EventFrame(event), PublishFollowUp(event), PublishEnds(event.id), j, now, after, e);
  }

  lemma PublishTimesOut(s: Session, net: Net, event: Event, j: nat, now: Net, after: Net)
    requires Publishing(s, net, event, j, now) && j < 64 && RecvPost(s, now, after, Ok(None))
    ensures PublishPost(s, net, event, after, Err(Malformed("publish: timed out waiting for OK")))
  {
    WaitEnds(s, net, EventFrame(event), PublishFollowUp(event), PublishEnds(event.id), j, now, after, Ok(None));
    assert PublishEndsWithoutOk(s, net, event, j, after, Malformed("publish: timed out waiting for OK"));
  }

  lemma PublishAcknowledged(s: Session, net: Net, event: Event, j: nat, now: Net, after: Net, m: RelayMessage)
    requires Publishing(s, net, event, j, now) && j < 64 && RecvPost(s, now, after, Ok(Some(m)))
    requires m.OkMsg? && m.id == event.id
    ensures PublishPost(s, net, event, after, Ok((m.accepted, m.message)))
  {
    WaitEnds(s, net, EventFrame(event), PublishFollowUp(event), PublishEnds(event.id), j, now, after, Ok(Some(m)));
  }

  lemma PublishContinues(s: Session, net: Net, event: Event, j: nat, now: Net, after: Net, m: RelayMessage, later: Net)
    requires Publishing(s, net, event, j, now) && RecvPost(s, now, after, Ok(Some(m)))
    requires !(m.OkMsg? && m.id == event.id)
    requires if m.AuthMsg? && Challenges(net.incoming[..j]) == []
             then later == after.(sent := after.sent + [EventFrame(event)]) && s.sendOk(|after.sent|)
             else later == after
    ensures Publishing(s, net, event, j + 1, later)
    ensures Challenges(net.incoming[..j + 1]) == [] <==> Challenges(net.incoming[..j]) == [] && !m.AuthMsg?
  {
    WaitGoesOn(s, net, EventFrame(event), PublishFollowUp(event), PublishEnds(event.id), j, now, after, m, later);
  }

  lemma PublishResendFails(s: Session, net: Net, event: Event, j: nat, now: Net, after: Net, m: RelayMessage,
                           later: Net, e: Error)
    requires Publishing(s, net, event, j, now) && j < 64 && RecvPost(s, now, after, Ok(Some(m)))
    requires m.AuthMsg? && Challenges(net.incoming[..j]) == []
    requires later == after.(sent := after.sent + [EventFrame(event)]) && !s.sendOk(|after.sent|)
    ensures PublishPost(s, net, event, later, Err(e))
  {
    WaitUnsent(s, net, EventFrame(event), PublishFollowUp(event), PublishEnds(event.id), j, now, after, m);
    FollowingUpFails(s, net, EventFrame(event), PublishFollowUp(event), PublishEnds(event.id), j,
                     now, after, m, later, e);
  }

  lemma PublishGivesUp(s: Session, net: Net, event: Event, now: Net)
    requires Publishing(s, net, event, 64, now)
    ensures PublishPost(s, net, event, now, Err(Malformed("publish: no OK received")))
  {
    assert PublishEndsWithoutOk(s, net, event, 64, now, Malformed("publish: no OK received"));
  }

  // ---- Every way out of `query` satisfies its contract ----

  /** `query` between two entries. */
  ghost predicate Querying(s: Session, net: Net, filter: Filter, j: nat, now: Net, events: seq<Event>) {
    var id := SubId(Next(net.nextSub));
    && Waiting(s, net, ReqFrame(id, filter), QueryFollowUp(id, filter), QueryEnds(id), j, now)
    && now.nextSub == Next(net.nextSub)
    && events == AnswersIn(s.p, id, net.incoming[..j])
  }

  lemma QueryUnopened(s: Session, net: Net, filter: Filter, after: Net, e: Error)
    requires !s.sendOk(|net.sent|)
    requires after == Net(net.incoming, net.sent + [ReqFrame(SubId(Next(net.nextSub)), filter)], Next(net.nextSub))
    ensures QueryPost(s, net, filter, after, Err(e))
  {
  }

  lemma QueryReceiveFails(s: Session, net: Net, filter: Filter, j: nat, now: Net, events: seq<Event>,
                          after: Net, e: Error)
    requires Querying(s, net, filter, j, now, events) && RecvPost(s, now, after, Err(e))
    ensures QueryPost(s, net, filter, after, Err(e))
  {
    var id := SubId(Next(net.nextSub));
    WaitFails(s, net, ReqFrame(id, filter), QueryFollowUp(id, filter), QueryEnds(id), j, now, after, Err(e));
    ReceivingFails(s, net, ReqFrame(id, filter), QueryFollowUp(id, filter), QueryEnds(id), j, now, after, e);
  }

  lemma QueryCompletes(s: Session, net: Net, filter: Filter, j: nat, now: Net, events: seq<Event>,
                       after: Net, got: Result<Option<RelayMessage>>, closed: Net)
    requires Querying(s, net, filter, j, now, events) && RecvPost(s, now, after, got)
    requires now.incoming != [] && QueryEnds(SubId(Next(net.nextSub)))(now.incoming[0]) && !now.incoming[0].Broken?
    requires closed == after.(sent := after.sent + [CloseFrame(SubId(Next(net.nextSub)))])
    ensures QueryPost(s, net, filter, closed, Ok(events))
  {
    var id := SubId(Next(net.nextSub));
    WaitEnds(s, net, ReqFrame(id, filter), QueryFollowUp(id, filter), QueryEnds(id), j, now, after, got);
  }

  lemma QueryContinues(s: Session, net: Net, filter: Filter, j: nat, now: Net, events: seq<Event>,
                       after: Net, m: RelayMessage, later: Net)
    requires Querying(s, net, filter, j, now, events) && RecvPost(s, now, after, Ok(Some(m)))
    requires now.incoming != [] && now.incoming[0] == Received(m)
    requires !QueryEnds(SubId(Next(net.nextSub)))(Received(m))
    requires if m.AuthMsg?
             then later == after.(sent := after.sent + [ReqFrame(SubId(Next(net.nextSub)), filter)])
                  && s.sendOk(|after.sent|)
             else later == after
    ensures Querying(s, net, filter, j + 1, later,
                     events + if Answers(s.p, SubId(Next(net.nextSub)), Received(m)) then [m.event] else [])
  {
    var id := SubId(Next(net.nextSub));
    WaitGoesOn(s, net, ReqFrame(id, filter), QueryFollowUp(id, filter), QueryEnds(id), j, now, after, m, later);
    assert net.incoming[j] == Received(m);
    AnswersSnoc(s.p, id, net.incoming, j);
  }

  lemma AnswersSnoc(p: Primitives, id: Text, start: seq<Incoming>, j: nat)
    requires j < |start|
    ensures AnswersIn(p, id, start[..j + 1])
         == AnswersIn(p, id, start[..j]) + if Answers(p, id, start[j]) then [start[j].msg.event] else []
  {
    assert start[..j + 1][..j] == start[..j];
  }

  lemma QueryRearmFails(s: Session, net: Net, filter: Filter, j: nat, now: Net, events: seq<Event>,
                        after: Net, m: RelayMessage, later: Net, e: Error)
    requires Querying(s, net, filter, j, now, events) && RecvPost(s, now, after, Ok(Some(m)))
    requires now.incoming != [] && now.incoming[0] == Received(m) && m.AuthMsg?
    requires later == after.(sent := after.sent + [ReqFrame(SubId(Next(net.nextSub)), filter)])
    requires !s.sendOk(|after.sent|)
    ensures QueryPost(s, net, filter, later, Err(e))
  {
    var id := SubId(Next(net.nextSub));
    WaitUnsent(s, net, ReqFrame(id, filter), QueryFollowUp(id, filter), QueryEnds(id), j, now, after, m);
    FollowingUpFails(s, net, ReqFrame(id, filter), QueryFollowUp(id, filter), QueryEnds(id), j,
                     now, after, m, later, e);
  }

  // ---- What failing calls leave behind ----

  /** The contract of `query` leaves no choice: one result, and one state, also when it fails. */
  lemma QueryDetermined(s: Session, net: Net, filter: Filter,
                        after: Net, r: Result<seq<Event>>, other: Net, q: Result<seq<Event>>)
    requires QueryPost(s, net, filter, after, r) && QueryPost(s, net, filter, other, q)
    ensures after == other && (r.Ok? <==> q.Ok?) && (r.Ok? ==> r == q)
  {
    if r.Err? && s.sendOk(|net.sent|) {
      var id := SubId(Next(net.nextSub));
      var open, follow, ends := ReqFrame(id, filter), QueryFollowUp(id, filter), QueryEnds(id);
      var j: nat :| FailsAt(s, net, open, follow, ends, j, after, r.error);
      var k: nat :| FailsAt(s, net, open, follow, ends, k, other, q.error);
      FailsOneWay(s, net, open, follow, ends, j, after, r.error, k, other, q.error);
    }
  }

  lemma FailsOneWay(s: Session, net: Net, open: Frame, follow: FollowUp, ends: Incoming -> bool,
                    j: nat, after: Net, e: Error, k: nat, other: Net, x: Error)
    requires ends(Broken)
    requires FailsAt(s, net, open, follow, ends, j, after, e) && FailsAt(s, net, open, follow, ends, k, other, x)
    ensures after.incoming == other.incoming && after.sent == other.sent
  {
    FailsOnce(s, net, open, follow, ends, j, k, after, e);
    FailsOnce(s, net, open, follow, ends, k, j, other, x);
    BreaksOneWay(s, follow(|Challenges(net.incoming[..j])|), net.incoming[j..],
                 SentBefore(s, net, open, follow, j), after, e, other, x);
  }

  /** `publish` fails on its own account, or with the connection; never both. */
  lemma EndsOrBreaks(s: Session, net: Net, event: Event, j: nat, after: Net, e: Error, k: nat, other: Net, x: Error)
    requires PublishEndsWithoutOk(s, net, event, j, after, e) && k < 64
    ensures !FailsAt(s, net, EventFrame(event), PublishFollowUp(event), PublishEnds(event.id), k, other, x)
  {
    if j < |net.incoming| {
      assert net.incoming[j..][0] == net.incoming[j];
    }
    if FailsAt(s, net, EventFrame(event), PublishFollowUp(event), PublishEnds(event.id), k, other, x) {
      FailsOnce(s, net, EventFrame(event), PublishFollowUp(event), PublishEnds(event.id), k, j, other, x);
    }
  }

  lemma EndsOneWay(s: Session, net: Net, event: Event, j: nat, after: Net, e: Error, k: nat, other: Net, x: Error)
    requires PublishEndsWithoutOk(s, net, event, j, after, e) && PublishEndsWithoutOk(s, net, event, k, other, x)
    ensures j == k && after.incoming == other.incoming && after.sent == other.sent && e == x
  {
  }

  lemma PublishDetermined(s: Session, net: Net, event: Event,
                          after: Net, r: Result<(bool, Text)>, other: Net, q: Result<(bool, Text)>)
    requires PublishPost(s, net, event, after, r) && PublishPost(s, net, event, other, q)
    ensures after == other && (r.Ok? <==> q.Ok?) && (r.Ok? ==> r == q)
  {
    if r.Err? && s.sendOk(|net.sent|) {
      var open, follow, ends := EventFrame(event), PublishFollowUp(event), PublishEnds(event.id);
      if j: nat :| PublishEndsWithoutOk(s, net, event, j, after, r.error) {
        if k: nat :| PublishEndsWithoutOk(s, net, event, k, other, q.error) {
          EndsOneWay(s, net, event, j, after, r.error, k, other, q.error);
        } else {
          var k: nat :| k < 64 && FailsAt(s, net, open, follow, ends, k, other, q.error);
          EndsOrBreaks(s, net, event, j, after, r.error, k, other, q.error);
        }
      } else {
        var j: nat :| j < 64 && FailsAt(s, net, open, follow, ends, j, after, r.error);
        if k: nat :| PublishEndsWithoutOk(s, net, event, k, other, q.error) {
          EndsOrBreaks(s, net, event, k, other, q.error, j, after, r.error);
        } else {
          var k: nat :| k < 64 && FailsAt(s, net, open, follow, ends, k, other, q.error);
          FailsOneWay(s, net, open, follow, ends, j, after, r.error, k, other, q.error);
        }
      }
    }
  }

  /** A failing query still logs a beginning of REQ, AUTH, REQ, AUTH, ... */
  lemma QueryFailureLog(s: Session, net: Net, filter: Filter, after: Net, r: Result<seq<Event>>)
    requires QueryPost(s, net, filter, after, r) && r.Err?
    ensures net.sent < after.sent && Alternates(after.sent[|net.sent|..], SubId(Next(net.nextSub)), filter)
    ensures Consumes(net.incoming, after.incoming, |net.incoming|)
  {
    var id := SubId(Next(net.nextSub));
    if !s.sendOk(|net.sent|) {
      assert after.sent[|net.sent|..] == [ReqFrame(id, filter)];
    } else {
      var j: nat :| FailsAt(s, net, ReqFrame(id, filter), QueryFollowUp(id, filter), QueryEnds(id), j, after, r.error);
      QueryBreakLog(s, net, id, filter, j, after, r.error);
    }
  }

  lemma QueryBreakLog(s: Session, net: Net, id: Text, filter: Filter, j: nat, after: Net, e: Error)
    requires FailsAt(s, net, ReqFrame(id, filter), QueryFollowUp(id, filter), QueryEnds(id), j, after, e)
    ensures net.sent < after.sent && Alternates(after.sent[|net.sent|..], id, filter)
    ensures Consumes(net.incoming, after.incoming, j + 1)
  {
    var open, follow := ReqFrame(id, filter), QueryFollowUp(id, filter);
    var frames := Served(s, follow, net.incoming[..j], |net.sent| + 1).value;
    var extra := BreakAdds(s, follow(|Challenges(net.incoming[..j])|), net.incoming[j..],
                           SentBefore(s, net, open, follow, j), after, e);
    QueryServedAlternates(s, id, filter, net.incoming[..j], |net.sent| + 1);
    AlternatesWith([open] + frames, extra, id, filter);
    LogTail(net.sent, open, frames, extra, after.sent);
    DropsOn(net.incoming, j, after.incoming);
  }

  lemma LogTail(before: seq<Frame>, open: Frame, frames: seq<Frame>, extra: seq<Frame>, log: seq<Frame>)
    requires log == before + [open] + frames + extra
    ensures before < log && log[|before|..] == [open] + frames + extra
  {
  }

  lemma DropsOn(incoming: seq<Incoming>, j: nat, after: seq<Incoming>)
    requires j <= |incoming| && Consumes(incoming[j..], after, 1)
    ensures Consumes(incoming, after, j + 1)
  {
  }

  lemma AlternatesWith(frames: seq<Frame>, extra: seq<Frame>, id: Text, filter: Filter)
    requires |frames| % 2 == 1 && Alternates(frames, id, filter)
    requires extra == [] || (extra[0].AuthFrame? && (|extra| == 1 || extra == [extra[0], ReqFrame(id, filter)]))
    ensures Alternates(frames + extra, id, filter)
  {
  }

  /** A failing publish has taken at most 64 entries and logged a beginning of EVENT, AUTH, EVENT, AUTH, AUTH, ... */
  lemma PublishFailureLog(s: Session, net: Net, event: Event, after: Net, r: Result<(bool, Text)>)
    requires PublishPost(s, net, event, after, r) && r.Err?
    ensures net.sent < after.sent && PublishTrace(after.sent[|net.sent|..], event)
    ensures Consumes(net.incoming, after.incoming, 64)
  {
    if !s.sendOk(|net.sent|) {
      assert after.sent[|net.sent|..] == [EventFrame(event)];
    } else if j: nat :| PublishEndsWithoutOk(s, net, event, j, after, r.error) {
      PublishEndLog(s, net, event, j, after, r.error);
    } else {
      var open, follow, ends := EventFrame(event), PublishFollowUp(event), PublishEnds(event.id);
      var j: nat :| j < 64 && FailsAt(s, net, open, follow, ends, j, after, r.error);
      PublishBreakLog(s, net, event, j, after, r.error);
    }
  }

  lemma PublishEndLog(s: Session, net: Net, event: Event, j: nat, after: Net, e: Error)
    requires PublishEndsWithoutOk(s, net, event, j, after, e)
    ensures net.sent < after.sent && PublishTrace(after.sent[|net.sent|..], event)
    ensures Consumes(net.incoming, after.incoming, 64)
  {
    var frames := Served(s, PublishFollowUp(event), net.incoming[..j], |net.sent| + 1).value;
    PublishServedTrace(s, event, net.incoming[..j], |net.sent| + 1);
    assert [EventFrame(event)] + frames + [] == [EventFrame(event)] + frames;
    LogTail(net.sent, EventFrame(event), frames, [], after.sent);
  }

  lemma PublishBreakLog(s: Session, net: Net, event: Event, j: nat, after: Net, e: Error)
    requires FailsAt(s, net, EventFrame(event), PublishFollowUp(event), PublishEnds(event.id), j, after, e)
    ensures net.sent < after.sent && PublishTrace(after.sent[|net.sent|..], event)
    ensures Consumes(net.incoming, after.incoming, j + 1)
  {
    var open, follow := EventFrame(event), PublishFollowUp(event);
    var frames := Served(s, follow, net.incoming[..j], |net.sent| + 1).value;
    var more := follow(|Challenges(net.incoming[..j])|);
    var extra := BreakAdds(s, more, net.incoming[j..], SentBefore(s, net, open, follow, j), after, e);
    PublishServedTrace(s, event, net.incoming[..j], |net.sent| + 1);
    PublishTraceWith(frames, extra, more, event);
    LogTail(net.sent, open, frames, extra, after.sent);
    DropsOn(net.incoming, j, after.incoming);
  }

  lemma PublishTraceWith(frames: seq<Frame>, extra: seq<Frame>, more: seq<Frame>, event: Event)
    requires |frames| != 1 && PublishTrace([EventFrame(event)] + frames, event)
    requires more == if frames == [] then [EventFrame(event)] else []
    requires extra == [] || (extra[0].AuthFrame? && (|extra| == 1 || (|more| == 1 && extra == [extra[0]] + more)))
    ensures PublishTrace([EventFrame(event)] + frames + extra, event)
  {
  }
}
