/** Whole runs of a client: any number of publishes and queries, one after the other, on one connection. */
module Runs {
  import opened Basics
  import opened Events
  import opened Dialogue
  import opened Exchanges
  import opened Relay

  datatype Call = Publishes(event: Event) | Queries(filter: Filter)
  datatype Outcome = Published(reply: Result<(bool, Text)>) | Queried(answer: Result<seq<Event>>)

  predicate Succeeded(o: Outcome) {
    match o
    case Published(r) => r.Ok?
    case Queried(r) => r.Ok?
  }

  /** One call, as the contracts of the client's methods describe it. */
  ghost predicate Happens(s: Session, net: Net, call: Call, after: Net, o: Outcome) {
    match call
    case Publishes(event) => o.Published? && PublishPost(s, net, event, after, o.reply)
    case Queries(filter) => o.Queried? && QueryPost(s, net, filter, after, o.answer)
  }

  ghost predicate Run(s: Session, nets: seq<Net>, calls: seq<Call>, outcomes: seq<Outcome>) {
    && |nets| == |calls| + 1 && |outcomes| == |calls|
    && forall i :: 0 <= i < |calls| ==> Happens(s, nets[i], calls[i], nets[i + 1], outcomes[i])
  }

  lemma RunExtends(s: Session, nets: seq<Net>, calls: seq<Call>, outcomes: seq<Outcome>,
                   call: Call, after: Net, o: Outcome)
    requires Run(s, nets, calls, outcomes) && Happens(s, nets[|calls|], call, after, o)
    ensures Run(s, nets + [after], calls + [call], outcomes + [o])
  {
  }

  /** Calls made on a client one after the other are a run, from the state it was in to the one it is left in. */
  method Play(c: RelayClient, calls: seq<Call>) returns (outcomes: seq<Outcome>, ghost nets: seq<Net>)
    modifies c
    ensures Run(c.s, nets, calls, outcomes)
    ensures nets[0] == old(c.State()) && nets[|calls|] == c.State()
  {
    outcomes, nets := [], [c.State()];
    for i := 0 to |calls|
      invariant Run(c.s, nets, calls[..i], outcomes)
      invariant nets[0] == old(c.State()) && nets[i] == c.State()
    {
      var outcome: Outcome;
      match calls[i] {
        case Publishes(event) =>
          var reply := c.Publish(event);
          outcome := Published(reply);
        case Queries(filter) =>
          var answer := c.Query(filter);
          outcome := Queried(answer);
      }
      RunExtends(c.s, nets, calls[..i], outcomes, calls[i], c.State(), outcome);
      assert calls[..i + 1] == calls[..i] + [calls[i]];
      outcomes, nets := outcomes + [outcome], nets + [c.State()];
    }
    assert calls[..|calls|] == calls;
  }

  // ---- Subscription ids ----

  const WRAP := 0x1_0000_0000_0000_0000

  function QueryId(net: Net): Text {
    SubId(Next(net.nextSub))
  }

  function QueryCount(calls: seq<Call>): nat {
    if calls == [] then 0 else QueryCount(calls[..|calls| - 1]) + if calls[|calls| - 1].Queries? then 1 else 0
  }

  /** The counter moves with every query, successful or not, and with nothing else. */
  ghost predicate Counting(nets: seq<Net>, calls: seq<Call>) {
    && |nets| == |calls| + 1
    && forall i :: 0 <= i < |calls| ==>
         nets[i + 1].nextSub == if calls[i].Queries? then Next(nets[i].nextSub) else nets[i].nextSub
  }

  lemma RunCounts(s: Session, nets: seq<Net>, calls: seq<Call>, outcomes: seq<Outcome>)
    requires Run(s, nets, calls, outcomes)
    ensures Counting(nets, calls)
  {
    forall i | 0 <= i < |calls|
      ensures nets[i + 1].nextSub == if calls[i].Queries? then Next(nets[i].nextSub) else nets[i].nextSub
    {
      assert Happens(s, nets[i], calls[i], nets[i + 1], outcomes[i]);
    }
  }

  lemma {:induction false} CounterAdvances(nets: seq<Net>, calls: seq<Call>, i: nat, j: nat)
    requires Counting(nets, calls) && i <= j <= |calls|
    ensures nets[j].nextSub == (nets[i].nextSub + QueryCount(calls[i..j])) % WRAP
    decreases j
  {
    if i < j {
      CounterAdvances(nets, calls, i, j - 1);
      assert calls[i..j][..j - 1 - i] == calls[i..j - 1];
    } else {
      assert calls[i..j] == [];
    }
  }

  lemma NextWraps(a: u64, c: nat)
    ensures Next(a) == Next((a + c) % WRAP) <==> c % WRAP == 0
  {
  }

  /** Two queries of a run share their id exactly when a multiple of 2^64 queries lies between them. */
  lemma IdsCollideExactly(s: Session, nets: seq<Net>, calls: seq<Call>, outcomes: seq<Outcome>, i: nat, j: nat)
    requires Run(s, nets, calls, outcomes) && i <= j < |calls|
    ensures QueryId(nets[i]) == QueryId(nets[j]) <==> QueryCount(calls[i..j]) % WRAP == 0
  {
    RunCounts(s, nets, calls, outcomes);
    CounterAdvances(nets, calls, i, j);
    WrappedIds(nets[i].nextSub, nets[j].nextSub, QueryCount(calls[i..j]));
  }

  lemma WrappedIds(a: u64, b: u64, c: nat)
    requires b == (a + c) % WRAP
    ensures SubId(Next(a)) == SubId(Next(b)) <==> c % WRAP == 0
  {
    NextWraps(a, c);
    SubIdExactly(Next(a), Next(b));
  }

  lemma SubIdExactly(m: u64, n: u64)
    ensures SubId(m) == SubId(n) <==> m == n
  {
    if SubId(m) == SubId(n) {
      SubIdInjective(m, n);
    }
  }

  lemma {:induction false} QueryCountBounded(calls: seq<Call>, i: nat, j: nat)
    requires i < j < |calls| && calls[i].Queries? && calls[j].Queries?
    ensures 1 <= QueryCount(calls[i..j]) < QueryCount(calls)
  {
    QueryCountSplit(calls[..j], i);
    QueryCountSplit(calls[i..j], 1);
    QueryCountSplit(calls, j);
    QueryCountSplit(calls[j..], 1);
    assert calls[..j][i..] == calls[i..j];
    assert calls[i..j][..1] == [calls[i]] && calls[j..][..1] == [calls[j]];
    assert QueryCount([calls[i]]) == 1 && QueryCount([calls[j]]) == 1;
  }

  lemma {:induction false} QueryCountSplit(calls: seq<Call>, i: nat)
    requires i <= |calls|
    ensures QueryCount(calls) == QueryCount(calls[..i]) + QueryCount(calls[i..])
    decreases |calls|
  {
    if i == |calls| {
      assert calls[..i] == calls && calls[i..] == [];
    } else {
      var n := |calls| - 1;
      QueryCountSplit(calls[..n], i);
      assert calls[..n][..i] == calls[..i] && calls[..n][i..] == calls[i..][..n - i];
    }
  }

  lemma SmallRemainder(n: nat)
    requires 1 <= n < WRAP
    ensures n % WRAP != 0
  {
  }

  lemma DistinctIds(s: Session, nets: seq<Net>, calls: seq<Call>, outcomes: seq<Outcome>, i: nat, j: nat)
    requires Run(s, nets, calls, outcomes) && QueryCount(calls) < WRAP
    requires i < |calls| && j < |calls| && i != j && calls[i].Queries? && calls[j].Queries?
    ensures QueryId(nets[i]) != QueryId(nets[j])
  {
    var a, b := if i < j then i else j, if i < j then j else i;
    QueryCountBounded(calls, a, b);
    IdsCollideExactly(s, nets, calls, outcomes, a, b);
    SmallRemainder(QueryCount(calls[a..b]));
  }

  // ---- Frames of other subscriptions ----

  predicate Tagged(m: Incoming, id: Text) {
    m.Received? && (m.msg.EventMsg? || m.msg.EoseMsg? || m.msg.ClosedMsg?) && m.msg.subId == id
  }

  function KeptIf(keep: Incoming -> bool): Incoming -> seq<Incoming> {
    (m: Incoming) => if keep(m) then [m] else []
  }

  function Kept(keep: Incoming -> bool, incoming: seq<Incoming>): seq<Incoming> {
    FlatMap(KeptIf(keep), incoming)
  }

  lemma UntilUnique(start: seq<Incoming>, ends: Incoming -> bool, k: nat)
    requires k <= |start| && (forall i :: 0 <= i < k ==> !ends(start[i])) && (k < |start| ==> ends(start[k]))
    ensures Until(start, ends) == k
  {
  }

  lemma {:induction false} KeptPreserves(keep: Incoming -> bool, ends: Incoming -> bool, window: seq<Incoming>)
    requires forall i :: 0 <= i < |window| ==> !ends(window[i])
    ensures forall i :: 0 <= i < |Kept(keep, window)| ==> !ends(Kept(keep, window)[i])
  {
    if window != [] {
      var n := |window| - 1;
      KeptPreserves(keep, ends, window[..n]);
      var before, last := Kept(keep, window[..n]), KeptIf(keep)(window[n]);
      assert Kept(keep, window) == before + last;
      forall i | 0 <= i < |before + last|
        ensures !ends((before + last)[i])
      {
      }
    }
  }

  /** Dropping entries that do not end the wait leaves it ending at the same entry. */
  lemma KeptUntil(keep: Incoming -> bool, ends: Incoming -> bool, start: seq<Incoming>)
    requires forall m :: ends(m) ==> keep(m)
    ensures var k, l := Until(start, ends), Until(Kept(keep, start), ends);
            && Kept(keep, start)[..l] == Kept(keep, start[..k])
            && (k < |start| <==> l < |Kept(keep, start)|)
            && (k < |start| ==> Kept(keep, start)[l] == start[k])
  {
    var k := Until(start, ends);
    var before := Kept(keep, start[..k]);
    KeptPreserves(keep, ends, start[..k]);
    if k < |start| {
      KeptSplits(keep, start, k);
    } else {
      assert start[..k] == start;
    }
    UntilUnique(Kept(keep, start), ends, |before|);
  }

  lemma KeptSplits(keep: Incoming -> bool, start: seq<Incoming>, k: nat)
    requires k < |start| && keep(start[k])
    ensures Kept(keep, start) == Kept(keep, start[..k]) + [start[k]] + Kept(keep, start[k + 1..])
  {
    FlatMapSnoc(KeptIf(keep), start[..k], start[k]);
    FlatMapAppend(KeptIf(keep), start[..k] + [start[k]], start[k + 1..]);
    assert start == start[..k] + [start[k]] + start[k + 1..];
  }

  lemma {:induction false} KeptServed(s: Session, follow: FollowUp, keep: Incoming -> bool,
                                      window: seq<Incoming>, at: nat)
    requires forall m: Incoming :: IsChallenge(m) ==> keep(m)
    ensures Served(s, follow, Kept(keep, window), at) == Served(s, follow, window, at)
    ensures Challenges(Kept(keep, window)) == Challenges(window)
  {
    if window != [] {
      var n := |window| - 1;
      KeptServed(s, follow, keep, window[..n], at);
      if keep(window[n]) {
        var before := Kept(keep, window[..n]);
        assert Kept(keep, window) == before + [window[n]];
        assert (before + [window[n]])[..|before|] == before;
      } else {
        assert Kept(keep, window) == Kept(keep, window[..n]);
      }
    }
  }

  lemma {:induction false} KeptAnswers(p: Primitives, id: Text, keep: Incoming -> bool, window: seq<Incoming>)
    requires forall m: Incoming :: Answers(p, id, m) ==> keep(m)
    ensures AnswersIn(p, id, Kept(keep, window)) == AnswersIn(p, id, window)
  {
    if window != [] {
      var n := |window| - 1;
      KeptAnswers(p, id, keep, window[..n]);
      if keep(window[n]) {
        var before := Kept(keep, window[..n]);
        assert Kept(keep, window) == before + [window[n]];
        assert (before + [window[n]])[..|before|] == before;
      } else {
        assert Kept(keep, window) == Kept(keep, window[..n]);
        assert AnswersIn(p, id, window) == AnswersIn(p, id, window[..n]);
      }
    }
  }

  /** Every frame that `keep` drops is tagged with an id other than `id`. */
  ghost predicate DropsOthers(keep: Incoming -> bool, id: Text) {
    forall m :: !keep(m) ==> exists other :: other != id && Tagged(m, other)
  }

  /** Removing any frames tagged with other ids changes neither success nor answer of a query. */
  lemma OtherIdsContributeNothing(s: Session, net: Net, filter: Filter, keep: Incoming -> bool)
    requires DropsOthers(keep, QueryId(net))
    ensures QueryAnswer(s, net.(incoming := Kept(keep, net.incoming)), filter) == QueryAnswer(s, net, filter)
  {
    var id := QueryId(net);
    var k := Until(net.incoming, QueryEnds(id));
    KeptUntil(keep, QueryEnds(id), net.incoming);
    KeptServed(s, QueryFollowUp(id, filter), keep, net.incoming[..k], |net.sent| + 1);
    KeptAnswers(s.p, id, keep, net.incoming[..k]);
  }

  /** `m` belongs to some other query of the run than the `i`-th call. */
  ghost predicate OfAnother(nets: seq<Net>, calls: seq<Call>, i: nat, m: Incoming) {
    exists j :: 0 <= j < |calls| && j < |nets| && j != i && calls[j].Queries? && Tagged(m, QueryId(nets[j]))
  }

  lemma AnotherHasOtherId(s: Session, nets: seq<Net>, calls: seq<Call>, outcomes: seq<Outcome>, i: nat)
    requires Run(s, nets, calls, outcomes) && QueryCount(calls) < WRAP && i < |calls| && calls[i].Queries?
    ensures DropsOthers((m: Incoming) => !OfAnother(nets, calls, i, m), QueryId(nets[i]))
  {
    forall m | OfAnother(nets, calls, i, m)
      ensures exists other :: other != QueryId(nets[i]) && Tagged(m, other)
    {
      var j :| 0 <= j < |calls| && j != i && calls[j].Queries? && Tagged(m, QueryId(nets[j]));
      DistinctIds(s, nets, calls, outcomes, i, j);
    }
  }

  /**
   Over any run of fewer than 2^64 queries, the frames of all the other queries, removed together,
   never reach the answer of a query, and cannot end it early.
   */
  lemma QueriesAreIsolated(s: Session, nets: seq<Net>, calls: seq<Call>, outcomes: seq<Outcome>, i: nat)
    requires Run(s, nets, calls, outcomes) && QueryCount(calls) < WRAP && i < |calls| && calls[i].Queries?
    ensures var own := Kept((m: Incoming) => !OfAnother(nets, calls, i, m), nets[i].incoming);
            match outcomes[i]
            case Queried(Ok(events)) => QueryAnswer(s, nets[i].(incoming := own), calls[i].filter) == Some(events)
            case Queried(Err(_)) => QueryAnswer(s, nets[i].(incoming := own), calls[i].filter) == None
            case Published(_) => false
  {
    AnotherHasOtherId(s, nets, calls, outcomes, i);
    OtherIdsContributeNothing(s, nets[i], calls[i].filter, (m: Incoming) => !OfAnother(nets, calls, i, m));
    assert Happens(s, nets[i], calls[i], nets[i + 1], outcomes[i]);
  }

  // ---- The log of a run ----

  /** What a successful publish logs: EVENT, or EVENT AUTH EVENT AUTH*; one AUTH a challenge. */
  lemma PublishLog(s: Session, net: Net, event: Event, after: Net, r: Result<(bool, Text)>)
    requires PublishPost(s, net, event, after, r) && r.Ok?
    ensures net.sent < after.sent && PublishTrace(after.sent[|net.sent|..], event)
    ensures |after.sent| - |net.sent| != 2
    ensures |net.incoming| - |after.incoming| <= 64
  {
    var k := Until(net.incoming, PublishEnds(event.id));
    var frames := Served(s, PublishFollowUp(event), net.incoming[..k], |net.sent| + 1).value;
    PublishServedTrace(s, event, net.incoming[..k], |net.sent| + 1);
    assert after.sent[|net.sent|..] == [EventFrame(event)] + frames;
  }

  /** What a successful query logs: REQ (AUTH REQ)* CLOSE. */
  lemma QueryLog(s: Session, net: Net, filter: Filter, after: Net, r: Result<seq<Event>>)
    requires QueryPost(s, net, filter, after, r) && r.Ok?
    ensures net.sent < after.sent && (|after.sent| - |net.sent|) % 2 == 0
    ensures after.sent[|after.sent| - 1] == CloseFrame(QueryId(net))
    ensures Alternates(after.sent[|net.sent|..|after.sent| - 1], QueryId(net), filter)
  {
    var id := QueryId(net);
    var k := Until(net.incoming, QueryEnds(id));
    var frames := Served(s, QueryFollowUp(id, filter), net.incoming[..k], |net.sent| + 1).value;
    QueryServedAlternates(s, id, filter, net.incoming[..k], |net.sent| + 1);
    assert after.sent[|net.sent|..|after.sent| - 1] == [ReqFrame(id, filter)] + frames;
  }

  /** `after` is `net` after taking entries off the front and answering every challenge in them. */
  ghost predicate Answering(net: Net, after: Net) {
    && |after.incoming| <= |net.incoming|
    && after.incoming == net.incoming[|net.incoming| - |after.incoming|..]
    && net.sent <= after.sent
    && AnsweredChallenges(after.sent[|net.sent|..]) == Challenges(net.incoming[..|net.incoming| - |after.incoming|])
  }

  lemma FramesAnswer(open: Frame, served: seq<Frame>, close: seq<Frame>)
    requires Answered(open) == [] && AnsweredChallenges(close) == []
    ensures AnsweredChallenges([open] + served + close) == AnsweredChallenges(served)
  {
    FlatMapAppend(Answered, [open] + served, close);
    FlatMapAppend(Answered, [open], served);
    FlatMapSnoc(Answered, [], open);
    assert [] + [open] == [open];
  }

  lemma FollowUpsSilent(event: Event, id: Text, filter: Filter)
    ensures SilentFollowUp(PublishFollowUp(event)) && SilentFollowUp(QueryFollowUp(id, filter))
    ensures AnsweredChallenges([CloseFrame(id)]) == []
  {
    assert [] + [EventFrame(event)] == [EventFrame(event)];
    assert [] + [ReqFrame(id, filter)] == [ReqFrame(id, filter)];
    assert [] + [CloseFrame(id)] == [CloseFrame(id)];
    FlatMapSnoc(Answered, [], EventFrame(event));
    FlatMapSnoc(Answered, [], ReqFrame(id, filter));
    FlatMapSnoc(Answered, [], CloseFrame(id));
  }

  lemma WindowChallenges(start: seq<Incoming>, k: nat)
    requires k < |start| && !IsChallenge(start[k])
    ensures Challenges(start[..k + 1]) == Challenges(start[..k])
  {
    assert start[..k + 1][..k] == start[..k];
  }

  lemma LogAnswers(s: Session, net: Net, after: Net, open: Frame, follow: FollowUp, k: nat, close: seq<Frame>)
    requires Faithful(s) && SilentFollowUp(follow) && Answered(open) == [] && AnsweredChallenges(close) == []
    requires k < |net.incoming| && !IsChallenge(net.incoming[k])
    requires Served(s, follow, net.incoming[..k], |net.sent| + 1).Some?
    requires after.incoming == net.incoming[k + 1..]
    requires after.sent == net.sent + [open] + Served(s, follow, net.incoming[..k], |net.sent| + 1).value + close
    ensures Answering(net, after)
  {
    var served := Served(s, follow, net.incoming[..k], |net.sent| + 1).value;
    ServedAnswers(s, follow, net.incoming[..k], |net.sent| + 1);
    FramesAnswer(open, served, close);
    assert after.sent[|net.sent|..] == [open] + served + close;
    WindowChallenges(net.incoming, k);
  }

  lemma PublishAnswers(s: Session, net: Net, event: Event, after: Net, r: Result<(bool, Text)>)
    requires Faithful(s) && PublishPost(s, net, event, after, r) && r.Ok?
    ensures Answering(net, after)
  {
    var k := Until(net.incoming, PublishEnds(event.id));
    FollowUpsSilent(event, [], Filter([]));
    assert after.sent == after.sent + [];
    LogAnswers(s, net, after, EventFrame(event), PublishFollowUp(event), k, []);
  }

  lemma QueryAnswers(s: Session, net: Net, filter: Filter, after: Net, r: Result<seq<Event>>)
    requires Faithful(s) && QueryPost(s, net, filter, after, r) && r.Ok?
    ensures Answering(net, after)
  {
    var id := QueryId(net);
    var k := Until(net.incoming, QueryEnds(id));
    FollowUpsSilent(Event([], [], 0, 0, [], [], []), id, filter);
    LogAnswers(s, net, after, ReqFrame(id, filter), QueryFollowUp(id, filter), k, [CloseFrame(id)]);
  }

  lemma TakeTwice<T>(a: seq<T>, m: nat, n: nat)
    requires m + n <= |a|
    ensures a[..m + n] == a[..m] + a[m..][..n] && a[m..][n..] == a[m + n..]
  {
  }

  lemma TailTwice<T>(a: seq<T>, b: seq<T>, c: seq<T>)
    requires a <= b <= c
    ensures c[|a|..] == b[|a|..] + c[|b|..]
  {
  }

  lemma AnsweringComposes(a: Net, b: Net, c: Net)
    requires Answering(a, b) && Answering(b, c)
    ensures Answering(a, c)
  {
    var m, n := |a.incoming| - |b.incoming|, |b.incoming| - |c.incoming|;
    var x, y := a.incoming[..m], b.incoming[..n];
    var p, q := b.sent[|a.sent|..], c.sent[|b.sent|..];
    assert a.incoming[..m + n] == x + y && c.incoming == a.incoming[m + n..] by {
      TakeTwice(a.incoming, m, n);
    }
    assert c.sent[|a.sent|..] == p + q by {
      TailTwice(a.sent, b.sent, c.sent);
    }
    AnswersAppend(x, y, p, q);
  }

  lemma AnswersAppend(x: seq<Incoming>, y: seq<Incoming>, p: seq<Frame>, q: seq<Frame>)
    requires AnsweredChallenges(p) == Challenges(x) && AnsweredChallenges(q) == Challenges(y)
    ensures AnsweredChallenges(p + q) == Challenges(x + y)
  {
    FlatMapAppend(ChallengeOf, x, y);
    FlatMapAppend(Answered, p, q);
  }

  /**
   Over any run of successful calls the AUTH frames sent answer exactly the challenges received,
   each once and in order.
   */
  lemma {:induction false} RunAnswersEveryChallenge(s: Session, nets: seq<Net>, calls: seq<Call>,
                                                    outcomes: seq<Outcome>)
    requires Faithful(s) && Run(s, nets, calls, outcomes)
    requires forall i :: 0 <= i < |calls| ==> Succeeded(outcomes[i])
    ensures Answering(nets[0], nets[|calls|])
    decreases |calls|
  {
    if calls != [] {
      var n := |calls| - 1;
      RunAnswersEveryChallenge(s, nets[..n + 1], calls[..n], outcomes[..n]);
      assert Happens(s, nets[n], calls[n], nets[n + 1], outcomes[n]) && Succeeded(outcomes[n]);
      match calls[n] {
        case Publishes(event) => PublishAnswers(s, nets[n], event, nets[n + 1], outcomes[n].reply);
        case Queries(filter) => QueryAnswers(s, nets[n], filter, nets[n + 1], outcomes[n].answer);
      }
      AnsweringComposes(nets[0], nets[n], nets[n + 1]);
    }
  }
}
