/** The single-relay client of src/client/mod.rs. */
module Relay {
  import opened Basics
  import opened Events
  import opened Dialogue
  import opened Exchanges

  class RelayClient {
    const s: Session
    var incoming: seq<Incoming>
    var sent: seq<Frame>
    var nextSub: u64

    function State(): Net
      reads this
    {
      Net(incoming, sent, nextSub)
    }

    /** A client on a fresh connection that will deliver `incoming`. */
    constructor (p: Primitives, signer: Signer, url: Text, now: nat -> i64, sendOk: nat -> bool,
                 incoming: seq<Incoming>)
      ensures s == Connected(p, signer, url, now, sendOk)
      ensures State() == Net(incoming, [], 0)
    {
      this.s := Connected(p, signer, url, now, sendOk);
      this.incoming, this.sent, this.nextSub := incoming, [], 0;
    }

    method SendFrame(frame: Frame) returns (r: Result<()>)
      modifies this`sent
      ensures sent == old(sent) + [frame]
      ensures r.Ok? <==> s.sendOk(|old(sent)|)
    {
      var at := |sent|;
      sent := sent + [frame];
      return if s.sendOk(at) then Ok(()) else Err(Malformed("send failed"));
    }

    method AnswerAuth(challenge: Text) returns (r: Result<()>)
      modifies this`sent
      ensures var auth := s.answer(challenge, |old(sent)|);
              if auth.Ok? then sent == old(sent) + [AuthFrame(auth.value)] && (r.Ok? <==> s.sendOk(|old(sent)|))
              else sent == old(sent) && r == Err(auth.error)
    {
      var auth := s.answer(challenge, |sent|);
      if auth.Err? {
        return Err(auth.error);
      }
      r := SendFrame(AuthFrame(auth.value));
    }

    /** Receives one message, answering it if it is a challenge. */
    method RecvMsg() returns (r: Result<Option<RelayMessage>>)
      modifies this`incoming, this`sent
      ensures RecvPost(s, old(State()), State(), r)
    {
      if incoming == [] {
        return Err(Malformed("connection closed"));
      }
      var next := incoming[0];
      incoming := incoming[1..];
      match next
      case Broken => return Err(Malformed("connection broken"));
      case Timeout => return Ok(None);
      case Received(msg) =>
        if msg.AuthMsg? {
          var answered := AnswerAuth(msg.challenge);
          if answered.Err? {
            return Err(answered.error);
          }
        }
        return Ok(Some(msg));
    }

    method Publish(event: Event) returns (r: Result<(bool, Text)>)
      modifies this`incoming, this`sent
      ensures PublishPost(s, old(State()), event, State(), r)
    {
      ghost var net := State();
      var first := SendFrame(EventFrame(event));
      if first.Err? {
        PublishUnopened(s, net, event, State(), first.error);
        return Err(first.error);
      }
      WaitOpens(s, net, EventFrame(event), PublishFollowUp(event), PublishEnds(event.id), State());
      var resent := false;
      for j := 0 to 64
        invariant Publishing(s, net, event, j, State())
        invariant resent <==> Challenges(net.incoming[..j]) != []
      {
        ghost var now := State();
        var got := RecvMsg();
        ghost var after := State();
        if got.Err? {
          PublishReceiveFails(s, net, event, j, now, after, got.error);
          return Err(got.error);
        }
        if got.value.None? {
          PublishTimesOut(s, net, event, j, now, after);
          return Err(Malformed("publish: timed out waiting for OK"));
        }
        var msg := got.value.value;
        if msg.OkMsg? && msg.id == event.id {
          PublishAcknowledged(s, net, event, j, now, after, msg);
          return Ok((msg.accepted, msg.message));
        }
        if msg.AuthMsg? && !resent {
          resent := true;
          var again := SendFrame(EventFrame(event));
          if again.Err? {
            PublishResendFails(s, net, event, j, now, after, msg, State(), again.error);
            return Err(again.error);
          }
        }
        PublishContinues(s, net, event, j, now, after, msg, State());
      }
      PublishGivesUp(s, net, event, State());
      return Err(Malformed("publish: no OK received"));
    }

    method Query(filter: Filter) returns (r: Result<seq<Event>>)
      modifies this
      ensures QueryPost(s, old(State()), filter, State(), r)
    {
      ghost var net := State();
      nextSub := Next(nextSub);
      var id := SubId(nextSub);
      var first := SendFrame(ReqFrame(id, filter));
      if first.Err? {
        QueryUnopened(s, net, filter, State(), first.error);
        return Err(first.error);
      }
      WaitOpens(s, net, ReqFrame(id, filter), QueryFollowUp(id, filter), QueryEnds(id), State());
      var events: seq<Event> := [];
      ghost var j := 0;
      while true
        invariant Querying(s, net, filter, j, State(), events)
        decreases |incoming|
      {
        ghost var now, was := State(), events;
        var got := RecvMsg();
        ghost var after := State();
        if got.Err? {
          QueryReceiveFails(s, net, filter, j, now, was, after, got.error);
          return Err(got.error);
        }
        if got.value.None? || got.value.value == EoseMsg(id)
           || (got.value.value.ClosedMsg? && got.value.value.subId == id) {
          var ignored := SendFrame(CloseFrame(id));
          QueryCompletes(s, net, filter, j, now, was, after, got, State());
          return Ok(events);
        }
        var msg := got.value.value;
        if msg.EventMsg? && msg.subId == id {
          if Verify(s.p, msg.event) {
            events := events + [msg.event];
          }
        } else if msg.AuthMsg? {
          var again := SendFrame(ReqFrame(id, filter));
          if again.Err? {
            QueryRearmFails(s, net, filter, j, now, was, after, msg, State(), again.error);
            return Err(again.error);
          }
        }
        QueryContinues(s, net, filter, j, now, was, after, msg, State());
        j := j + 1;
      }
    }
  }
}
