/**
 The conversation of src/client/mod.rs with an arbitrary relay, as values: what the connection
 delivers, what the client answers while waiting, and how one wait for an answer ends.
 */
module Dialogue {
  import opened Basics
  import opened TextCodecs
  import opened Events

  datatype RelayMessage =
    | EventMsg(subId: Text, event: Event)
    | EoseMsg(subId: Text)
    | OkMsg(id: Text, accepted: bool, message: Text)
    | ClosedMsg(subId: Text, message: Text)
    | NoticeMsg(message: Text)
    | AuthMsg(challenge: Text)
    | OtherMsg(text: Text)

  /** One outcome of receiving: a broken connection, an elapsed timeout, or a parsed frame. */
  datatype Incoming = Broken | Timeout | Received(msg: RelayMessage)

  datatype Filter = Filter(json: Text)

  datatype Frame =
    | EventFrame(event: Event)
    | ReqFrame(subId: Text, filter: Filter)
    | CloseFrame(subId: Text)
    | AuthFrame(auth: Event)

  /**
   What does not change over a connection: the signature check, the signed answer to a challenge
   and the outcome of a send, the latter two when so many sends have been attempted.
   */
  datatype Session = Session(p: Primitives, answer: (Text, nat) -> Result<Event>, sendOk: nat -> bool)

  /** The mutable state: what the relay will still deliver, and the sends attempted so far. */
  datatype Net = Net(incoming: seq<Incoming>, sent: seq<Frame>, nextSub: u64)

  const AUTH_KIND: u32 := 22242

  function AuthTags(url: Text, challenge: Text): seq<Tag> {
    [[Lit("relay"), url], [Lit("challenge"), challenge]]
  }

  /** The session of a client with this signer, relay and clock. */
  function Connected(p: Primitives, signer: Signer, url: Text, now: nat -> i64, sendOk: nat -> bool): Session {
    Session(p,
            (challenge: Text, at: nat) => Create(p, signer, AUTH_KIND, AuthTags(url, challenge), [], now(at)),
            sendOk)
  }

  // ---- Waiting ----

  /** The position of the first entry that ends the wait. */
  function Until(incoming: seq<Incoming>, ends: Incoming -> bool): (k: nat)
    ensures k <= |incoming|
    ensures forall i :: 0 <= i < k ==> !ends(incoming[i])
    ensures k < |incoming| ==> ends(incoming[k])
  {
    if incoming == [] || ends(incoming[0]) then 0 else 1 + Until(incoming[1..], ends)
  }

  function ChallengeOf(m: Incoming): seq<Text> {
    if IsChallenge(m) then [m.msg.challenge] else []
  }

  function Challenges(incoming: seq<Incoming>): seq<Text> {
    FlatMap(ChallengeOf, incoming)
  }

  /** What a caller sends after the `n`-th challenge has been answered. */
  type FollowUp = nat -> seq<Frame>

  predicate IsChallenge(m: Incoming) {
    m.Received? && m.msg.AuthMsg?
  }

  /** The frames sent so far and, if `m` is the `n`-th challenge, the AUTH frame and the follow-up. */
  function Respond(s: Session, follow: FollowUp, frames: seq<Frame>, n: nat, m: Incoming, at: nat)
    : (r: Option<seq<Frame>>)
    ensures r.Some? ==> frames <= r.value
  {
    if IsChallenge(m) then
      match s.answer(m.msg.challenge, at + |frames|)
      case Ok(auth) => Some(frames + [AuthFrame(auth)] + follow(n))
      case Err(_) => None
    else Some(frames)
  }

  /**
   The frames sent while `window` goes by, when `at` sends were attempted before. None if an
   answer could not be signed.
   */
  function Served(s: Session, follow: FollowUp, window: seq<Incoming>, at: nat): Option<seq<Frame>> {
    if window == [] then Some([])
    else
      var n := |window| - 1;
      match Served(s, follow, window[..n], at)
      case None => None
      case Some(frames) => Respond(s, follow, frames, |Challenges(window[..n])|, window[n], at)
  }

  ghost predicate AllSent(s: Session, from: nat, to: nat) {
    forall i :: from <= i < to ==> s.sendOk(i)
  }

  lemma {:induction false} ServedGrows(s: Session, follow: FollowUp, window: seq<Incoming>, at: nat, j: nat)
    requires j <= |window| && Served(s, follow, window, at).Some?
    ensures Served(s, follow, window[..j], at).Some?
    ensures Served(s, follow, window[..j], at).value <= Served(s, follow, window, at).value
    decreases |window|
  {
    if j < |window| {
      var n := |window| - 1;
      assert window[..n][..j] == window[..j];
      ServedGrows(s, follow, window[..n], at, j);
    } else {
      assert window[..j] == window;
    }
  }

  /** One wait succeeds: it ends, everything could be signed, and everything was sent. */
  ghost predicate Smooth(s: Session, follow: FollowUp, ends: Incoming -> bool, incoming: seq<Incoming>, at: nat) {
    var k := Until(incoming, ends);
    && k < |incoming|
    && Served(s, follow, incoming[..k], at + 1).Some?
    && AllSent(s, at, at + 1 + |Served(s, follow, incoming[..k], at + 1).value|)
  }

  // ---- The ways a wait fails ----

  lemma ServedNext(s: Session, follow: FollowUp, start: seq<Incoming>, at: nat, j: nat)
    requires j < |start| && Served(s, follow, start[..j], at).Some?
    ensures Served(s, follow, start[..j + 1], at)
         == Respond(s, follow, Served(s, follow, start[..j], at).value, |Challenges(start[..j])|, start[j], at)
    ensures Challenges(start[..j + 1]) == Challenges(start[..j]) + ChallengeOf(start[j])
  {
    assert start[..j + 1][..j] == start[..j];
  }

  lemma UnsignedFails(s: Session, follow: FollowUp, ends: Incoming -> bool, start: seq<Incoming>, at: nat, j: nat)
    requires j <= Until(start, ends) && Served(s, follow, start[..j], at + 1).None?
    ensures !Smooth(s, follow, ends, start, at)
  {
    var k := Until(start, ends);
    assert start[..k][..j] == start[..j];
    if Served(s, follow, start[..k], at + 1).Some? {
      ServedGrows(s, follow, start[..k], at + 1, j);
    }
  }

  lemma UnsentFails(s: Session, follow: FollowUp, ends: Incoming -> bool, start: seq<Incoming>, at: nat, j: nat, i: nat)
    requires j <= Until(start, ends) && Served(s, follow, start[..j], at + 1).Some?
    requires at <= i < at + 1 + |Served(s, follow, start[..j], at + 1).value| && !s.sendOk(i)
    ensures !Smooth(s, follow, ends, start, at)
  {
    var k := Until(start, ends);
    assert start[..k][..j] == start[..j];
    if Served(s, follow, start[..k], at + 1).Some? {
      ServedGrows(s, follow, start[..k], at + 1, j);
    }
  }

  /** Receiving fails while waiting: the connection is at its end, or a challenge cannot be answered. */
  lemma ReceiveFails(s: Session, follow: FollowUp, ends: Incoming -> bool, start: seq<Incoming>, at: nat, j: nat)
    requires j <= Until(start, ends) && Served(s, follow, start[..j], at + 1).Some?
    requires var n := |Served(s, follow, start[..j], at + 1).value|;
             j < |start| ==>
               || (start[j].Broken? && ends(start[j]))
               || (IsChallenge(start[j]) && !ends(start[j]) &&
                   (s.answer(start[j].msg.challenge, at + 1 + n).Err? || !s.sendOk(at + 1 + n)))
    ensures Smooth(s, follow, ends, start, at) ==> start[Until(start, ends)].Broken?
  {
    var n := |Served(s, follow, start[..j], at + 1).value|;
    if j < |start| && IsChallenge(start[j]) {
      ServedNext(s, follow, start, at + 1, j);
      if s.answer(start[j].msg.challenge, at + 1 + n).Err? {
        UnsignedFails(s, follow, ends, start, at, j + 1);
      } else {
        UnsentFails(s, follow, ends, start, at, j + 1, at + 1 + n);
      }
    }
  }

  // ---- Every challenge is answered, once, in order ----

  /** The challenge a frame answers, if it answers one. */
  function Answered(frame: Frame): seq<Text> {
    if frame.AuthFrame? && TagValue(frame.auth.tags, Lit("challenge")).Some?
    then [TagValue(frame.auth.tags, Lit("challenge")).value]
    else []
  }

  function AnsweredChallenges(frames: seq<Frame>): seq<Text> {
    FlatMap(Answered, frames)
  }

  /** An answer names the challenge it answers. */
  ghost predicate Faithful(s: Session) {
    forall c, at :: s.answer(c, at).Ok? ==> Answered(AuthFrame(s.answer(c, at).value)) == [c]
  }

  lemma AuthTagsCarry(url: Text, challenge: Text)
    ensures TagValue(AuthTags(url, challenge), Lit("relay")) == Some(url)
    ensures TagValue(AuthTags(url, challenge), Lit("challenge")) == Some(challenge)
  {
    var tags := AuthTags(url, challenge);
    assert Lit("relay")[0] != Lit("challenge")[0];
    assert tags[1..] == [[Lit("challenge"), challenge]];
    assert FindTag(tags, Lit("challenge")) == FindTag(tags[1..], Lit("challenge"));
  }

  lemma AnswerCarries(p: Primitives, signer: Signer, url: Text, challenge: Text, createdAt: i64)
    ensures var r := Create(p, signer, AUTH_KIND, AuthTags(url, challenge), [], createdAt);
            r.Ok? ==> Answered(AuthFrame(r.value)) == [challenge]
  {
    AuthTagsCarry(url, challenge);
  }

  /** An answer is a valid AUTH event by the signer, made when sent, for this relay and this challenge. */
  lemma AnswerIsAuth(p: Primitives, signer: Signer, url: Text, now: nat -> i64, sendOk: nat -> bool,
                     challenge: Text, at: nat)
    requires p.Lawful() && Signs(p, signer)
    ensures var r := Connected(p, signer, url, now, sendOk).answer(challenge, at);
            && (r.Ok? ==>
                  && Verify(p, r.value)
                  && FieldsOf(r.value) == SignedFields(
                       HexEncode(signer.publicKey), now(at), 22242,
                       [[Lit("relay"), url], [Lit("challenge"), challenge]], []))
            && (AlwaysSigns(signer) ==> r.Ok?)
  {
    CreatedVerifies(p, signer, AUTH_KIND, AuthTags(url, challenge), [], now(at));
  }

  lemma ConnectedFaithful(p: Primitives, signer: Signer, url: Text, now: nat -> i64, sendOk: nat -> bool)
    ensures Faithful(Connected(p, signer, url, now, sendOk))
  {
    var s := Connected(p, signer, url, now, sendOk);
    forall c, at: nat | s.answer(c, at).Ok?
      ensures Answered(AuthFrame(s.answer(c, at).value)) == [c]
    {
      AnswerCarries(p, signer, url, c, now(at));
    }
  }

  ghost predicate SilentFollowUp(follow: FollowUp) {
    forall n :: AnsweredChallenges(follow(n)) == []
  }

  lemma AnswerRecorded(frames: seq<Frame>, auth: Event, more: seq<Frame>, challenge: Text)
    requires Answered(AuthFrame(auth)) == [challenge] && AnsweredChallenges(more) == []
    ensures AnsweredChallenges(frames + [AuthFrame(auth)] + more) == AnsweredChallenges(frames) + [challenge]
  {
    FlatMapAppend(Answered, frames + [AuthFrame(auth)], more);
    FlatMapSnoc(Answered, frames, AuthFrame(auth));
  }

  lemma RespondAnswers(s: Session, follow: FollowUp, frames: seq<Frame>, n: nat, m: Incoming, at: nat)
    requires Faithful(s) && SilentFollowUp(follow) && Respond(s, follow, frames, n, m, at).Some?
    ensures AnsweredChallenges(Respond(s, follow, frames, n, m, at).value)
         == AnsweredChallenges(frames) + ChallengeOf(m)
  {
    if IsChallenge(m) {
      AnswerRecorded(frames, s.answer(m.msg.challenge, at + |frames|).value, follow(n), m.msg.challenge);
    }
  }

  lemma {:induction false} ServedAnswers(s: Session, follow: FollowUp, window: seq<Incoming>, at: nat)
    requires Faithful(s) && SilentFollowUp(follow) && Served(s, follow, window, at).Some?
    ensures AnsweredChallenges(Served(s, follow, window, at).value) == Challenges(window)
  {
    if window != [] {
      var n := |window| - 1;
      ServedAnswers(s, follow, window[..n], at);
      var frames := Served(s, follow, window[..n], at).value;
      RespondAnswers(s, follow, frames, |Challenges(window[..n])|, window[n], at);
    }
  }

  // ---- One wait, entry by entry ----

  /** At most `limit` entries were taken off the front. */
  ghost predicate Consumes(before: seq<Incoming>, after: seq<Incoming>, limit: nat) {
    |after| <= |before| <= |after| + limit && after == before[|before| - |after|..]
  }

  /** Receiving one entry, and answering it if it is a challenge. */
  ghost predicate RecvPost(s: Session, net: Net, after: Net, r: Result<Option<RelayMessage>>) {
    if net.incoming == [] then r.Err? && after == net
    else
      var taken := net.(incoming := net.incoming[1..]);
      match net.incoming[0]
      case Broken => r.Err? && after == taken
      case Timeout => r == Ok(None) && after == taken
      case Received(m) =>
        if !m.AuthMsg? then r == Ok(Some(m)) && after == taken
        else
          match s.answer(m.challenge, |net.sent|)
          case Err(e) => r == Err(e) && after == taken
          case Ok(auth) =>
            && after == taken.(sent := net.sent + [AuthFrame(auth)])
            && if s.sendOk(|net.sent|) then r == Ok(Some(m)) else r.Err?
  }

  /** `now` is where a wait that started at `net` stands after `j` entries, none of which ended it. */
  ghost predicate Waiting(s: Session, net: Net, opening: Frame, follow: FollowUp, ends: Incoming -> bool, j: nat,
                          now: Net) {
    && j <= Until(net.incoming, ends)
    && now.incoming == net.incoming[j..]
    && Served(s, follow, net.incoming[..j], |net.sent| + 1).Some?
    && now.sent == net.sent + [opening] + Served(s, follow, net.incoming[..j], |net.sent| + 1).value
    && AllSent(s, |net.sent|, |now.sent|)
  }

  /** Everything before entry `j` passed without ending the wait, was answered, and was sent. */
  ghost predicate Reached(s: Session, net: Net, follow: FollowUp, ends: Incoming -> bool, j: nat) {
    && j <= Until(net.incoming, ends)
    && Served(s, follow, net.incoming[..j], |net.sent| + 1).Some?
    && AllSent(s, |net.sent|, |net.sent| + 1 + |Served(s, follow, net.incoming[..j], |net.sent| + 1).value|)
  }

  function SentBefore(s: Session, net: Net, opening: Frame, follow: FollowUp, j: nat): seq<Frame>
    requires j <= |net.incoming| && Served(s, follow, net.incoming[..j], |net.sent| + 1).Some?
  {
    net.sent + [opening] + Served(s, follow, net.incoming[..j], |net.sent| + 1).value
  }

  /**
   What is left of the script and the log when handling the next entry fails, where `more` would
   have followed an answer: the connection ends or breaks, or a challenge cannot be signed, answered
   or followed up. Only an error from signing is passed on as it is; the others are the transport's.
   */
  ghost predicate Breaks(s: Session, more: seq<Frame>, incoming: seq<Incoming>, sent: seq<Frame>,
                         after: Net, e: Error) {
    if incoming == [] then after.incoming == [] && after.sent == sent
    else
      && after.incoming == incoming[1..]
      && match incoming[0]
         case Broken => after.sent == sent
         case Timeout => false
         case Received(m) => m.AuthMsg? && Unanswered(s, more, m.challenge, sent, after.sent, e)
  }

  ghost predicate Unanswered(s: Session, more: seq<Frame>, challenge: Text, sent: seq<Frame>,
                             log: seq<Frame>, e: Error) {
    match s.answer(challenge, |sent|)
    case Err(x) => e == x && log == sent
    case Ok(auth) =>
      if !s.sendOk(|sent|) then log == sent + [AuthFrame(auth)]
      else |more| == 1 && !s.sendOk(|sent| + 1) && log == sent + [AuthFrame(auth)] + more
  }

  /** The wait fails at entry `j`, and this is the state it leaves. */
  ghost predicate FailsAt(s: Session, net: Net, opening: Frame, follow: FollowUp, ends: Incoming -> bool, j: nat,
                          after: Net, e: Error) {
    && Reached(s, net, follow, ends, j)
    && Breaks(s, follow(|Challenges(net.incoming[..j])|), net.incoming[j..],
              SentBefore(s, net, opening, follow, j), after, e)
  }

  lemma ReceivingFails(s: Session, net: Net, opening: Frame, follow: FollowUp, ends: Incoming -> bool, j: nat, now: Net,
                       after: Net, e: Error)
    requires Waiting(s, net, opening, follow, ends, j, now) && RecvPost(s, now, after, Err(e))
    ensures FailsAt(s, net, opening, follow, ends, j, after, e)
  {
  }

  lemma FollowingUpFails(s: Session, net: Net, opening: Frame, follow: FollowUp, ends: Incoming -> bool, j: nat,
                         now: Net, after: Net, m: RelayMessage, later: Net, e: Error)
    requires Waiting(s, net, opening, follow, ends, j, now) && RecvPost(s, now, after, Ok(Some(m)))
    requires now.incoming != [] && now.incoming[0] == Received(m) && m.AuthMsg?
    requires later.incoming == after.incoming
    requires |follow(|Challenges(net.incoming[..j])|)| == 1
    requires later.sent == after.sent + follow(|Challenges(net.incoming[..j])|) && !s.sendOk(|after.sent|)
    ensures FailsAt(s, net, opening, follow, ends, j, later, e)
  {
    assert net.incoming[j..][0] == Received(m);
  }

  lemma BreaksOneWay(s: Session, more: seq<Frame>, incoming: seq<Incoming>, sent: seq<Frame>,
                     after: Net, e: Error, other: Net, x: Error)
    requires Breaks(s, more, incoming, sent, after, e) && Breaks(s, more, incoming, sent, other, x)
    ensures after.incoming == other.incoming && after.sent == other.sent
  {
  }

  /** What a break adds to the log: nothing, an answer, or an answer and its follow-up. */
  lemma BreakAdds(s: Session, more: seq<Frame>, incoming: seq<Incoming>, sent: seq<Frame>, after: Net, e: Error)
    returns (extra: seq<Frame>)
    requires Breaks(s, more, incoming, sent, after, e)
    ensures after.sent == sent + extra
    ensures extra == [] || (extra[0].AuthFrame? && (|extra| == 1 || (|more| == 1 && extra == [extra[0]] + more)))
    ensures Consumes(incoming, after.incoming, 1)
  {
    extra := after.sent[|sent|..];
  }

  lemma ReachedBefore(s: Session, net: Net, follow: FollowUp, ends: Incoming -> bool, k: nat, i: nat)
    requires Reached(s, net, follow, ends, k) && i <= k
    ensures Reached(s, net, follow, ends, i)
  {
    assert net.incoming[..k][..i] == net.incoming[..i];
    ServedGrows(s, follow, net.incoming[..k], |net.sent| + 1, i);
  }

  lemma FailureStops(s: Session, net: Net, opening: Frame, follow: FollowUp, ends: Incoming -> bool, j: nat,
                     after: Net, e: Error)
    requires FailsAt(s, net, opening, follow, ends, j, after, e) && j < Until(net.incoming, ends) && ends(Broken)
    ensures !Reached(s, net, follow, ends, j + 1)
  {
    assert net.incoming[j..][0] == net.incoming[j];
    ServedNext(s, follow, net.incoming, |net.sent| + 1, j);
  }

  /** A wait fails at one entry only: nothing after it was ever reached. */
  lemma FailsOnce(s: Session, net: Net, opening: Frame, follow: FollowUp, ends: Incoming -> bool, j: nat, k: nat,
                  after: Net, e: Error)
    requires FailsAt(s, net, opening, follow, ends, j, after, e) && Reached(s, net, follow, ends, k)
    requires ends(Broken)
    ensures k <= j
  {
    if j < k {
      ReachedBefore(s, net, follow, ends, k, j + 1);
      FailureStops(s, net, opening, follow, ends, j, after, e);
    }
  }

  lemma WaitOpens(s: Session, net: Net, opening: Frame, follow: FollowUp, ends: Incoming -> bool, now: Net)
    requires now.incoming == net.incoming && now.sent == net.sent + [opening] && s.sendOk(|net.sent|)
    ensures Waiting(s, net, opening, follow, ends, 0, now)
  {
  }

  lemma WaitFails(s: Session, net: Net, opening: Frame, follow: FollowUp, ends: Incoming -> bool, j: nat, now: Net,
                  after: Net, r: Result<Option<RelayMessage>>)
    requires Waiting(s, net, opening, follow, ends, j, now) && RecvPost(s, now, after, r) && r.Err?
    requires ends(Broken) && forall m: Incoming :: IsChallenge(m) ==> !ends(m)
    ensures Smooth(s, follow, ends, net.incoming, |net.sent|) ==> net.incoming[Until(net.incoming, ends)].Broken?
  {
    if j < |net.incoming| {
      assert now.incoming[0] == net.incoming[j] && now.incoming[1..] == net.incoming[j + 1..];
    }
    ReceiveFails(s, follow, ends, net.incoming, |net.sent|, j);
  }

  /** An entry that does not end the wait, answered and followed up. */
  lemma WaitGoesOn(s: Session, net: Net, opening: Frame, follow: FollowUp, ends: Incoming -> bool, j: nat, now: Net,
                   after: Net, m: RelayMessage, later: Net)
    requires Waiting(s, net, opening, follow, ends, j, now) && RecvPost(s, now, after, Ok(Some(m)))
    requires now.incoming != [] && now.incoming[0] == Received(m) && !ends(Received(m))
    requires later.incoming == after.incoming
    requires later.sent == after.sent + if m.AuthMsg? then follow(|Challenges(net.incoming[..j])|) else []
    requires AllSent(s, |after.sent|, |later.sent|)
    ensures Waiting(s, net, opening, follow, ends, j + 1, later)
    ensures Challenges(net.incoming[..j + 1]) == Challenges(net.incoming[..j]) + ChallengeOf(Received(m))
  {
    assert net.incoming[j] == Received(m) && now.incoming[1..] == net.incoming[j + 1..];
    ServedNext(s, follow, net.incoming, |net.sent| + 1, j);
    if m.AuthMsg? {
      var frames := Served(s, follow, net.incoming[..j], |net.sent| + 1).value;
      Follows(net.sent + [opening], frames, [AuthFrame(s.answer(m.challenge, |now.sent|).value)],
              follow(|Challenges(net.incoming[..j])|));
    }
  }

  lemma Follows(a: seq<Frame>, b: seq<Frame>, c: seq<Frame>, d: seq<Frame>)
    ensures (a + b) + c + d == a + (b + c + d)
  {
  }

  /** A challenge answered, whose follow-up cannot be sent. */
  lemma UnsentStep(s: Session, follow: FollowUp, ends: Incoming -> bool, start: seq<Incoming>, at: nat, j: nat, i: nat)
    requires j < Until(start, ends) && Served(s, follow, start[..j], at + 1).Some? && IsChallenge(start[j])
    requires i == at + 2 + |Served(s, follow, start[..j], at + 1).value| && !s.sendOk(i)
    requires s.answer(start[j].msg.challenge, i - 1).Ok?
    requires |follow(|Challenges(start[..j])|)| >= 1
    ensures !Smooth(s, follow, ends, start, at)
  {
    ServedNext(s, follow, start, at + 1, j);
    UnsentFails(s, follow, ends, start, at, j + 1, i);
  }

  lemma WaitUnsent(s: Session, net: Net, opening: Frame, follow: FollowUp, ends: Incoming -> bool, j: nat, now: Net,
                   after: Net, m: RelayMessage)
    requires Waiting(s, net, opening, follow, ends, j, now) && RecvPost(s, now, after, Ok(Some(m)))
    requires now.incoming != [] && now.incoming[0] == Received(m) && !ends(Received(m)) && m.AuthMsg?
    requires |follow(|Challenges(net.incoming[..j])|)| >= 1 && !s.sendOk(|after.sent|)
    ensures !Smooth(s, follow, ends, net.incoming, |net.sent|)
  {
    assert net.incoming[j] == Received(m);
    UnsentStep(s, follow, ends, net.incoming, |net.sent|, j, |after.sent|);
  }

  /** An entry that ends the wait. */
  lemma WaitEnds(s: Session, net: Net, opening: Frame, follow: FollowUp, ends: Incoming -> bool, j: nat, now: Net,
                 after: Net, r: Result<Option<RelayMessage>>)
    requires Waiting(s, net, opening, follow, ends, j, now) && RecvPost(s, now, after, r)
    requires now.incoming != [] && ends(now.incoming[0]) && !IsChallenge(now.incoming[0])
    ensures Until(net.incoming, ends) == j < |net.incoming| && net.incoming[j] == now.incoming[0]
    ensures Smooth(s, follow, ends, net.incoming, |net.sent|)
    ensures after.incoming == net.incoming[j + 1..] && after.sent == now.sent
  {
    assert net.incoming[j] == now.incoming[0] && now.incoming[1..] == net.incoming[j + 1..];
  }
}
