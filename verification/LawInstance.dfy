/**
 A small world in which every law assumed of the foreign crates holds: the group of order three,
 and primitives that keep nothing secret. So no theorem about a lawful world is empty.
 */
module LawInstance {
  import opened Basics
  import opened TextCodecs
  import opened Events
  import opened Secp
  import opened Nip17
  import opened Binding
  import opened GiftWrapSizes
  import opened Resolution
  import opened ListingOrder
  import Nip44

  datatype Residue = Zero | One | Two

  function Plus(a: Residue, b: Residue): Residue {
    match (a, b)
    case (Zero, _) => b
    case (_, Zero) => a
    case (One, One) => Two
    case (Two, Two) => One
    case _ => Zero
  }

  function Minus(a: Residue): Residue {
    match a
    case Zero => Zero
    case One => Two
    case Two => One
  }

  /** One x coordinate for the two opposite points, another for zero. */
  function XOf(a: Residue): (x: Bytes)
    ensures |x| == 32
  {
    Repeat(0, 31) + [if a == Zero then 0 else 1]
  }

  function TinyCurve(): Curve<Residue> {
    Curve(Plus, Minus, Zero, One, 3, XOf, x => if x == XOf(One) then Some(One) else None)
  }

  lemma PlusIsGroup(a: Residue, b: Residue, c: Residue)
    ensures Plus(Plus(a, b), c) == Plus(a, Plus(b, c)) && Plus(a, b) == Plus(b, a)
    ensures Plus(a, Zero) == a && Plus(a, Minus(a)) == Zero
  {
  }

  lemma TinyGroup()
    ensures TinyCurve().IsGroup()
  {
    forall a, b, c
      ensures Plus(Plus(a, b), c) == Plus(a, Plus(b, c))
    {
      PlusIsGroup(a, b, c);
    }
    forall a, b
      ensures Plus(a, b) == Plus(b, a)
    {
      PlusIsGroup(a, b, Zero);
    }
    forall a
      ensures Plus(a, Zero) == a
      ensures Plus(a, Minus(a)) == Zero
    {
      PlusIsGroup(a, Zero, Zero);
    }
  }

  lemma TinyLift()
    ensures TinyCurve().Lifts()
  {
  }

  lemma TinyOrder(k: nat)
    requires k < 3
    ensures TinyCurve().Mul(k, One) == if k == 0 then Zero else if k == 1 then One else Two
  {
  }

  lemma TinyCurveLawful()
    ensures TinyCurve().Lawful()
  {
    TinyGroup();
    TinyLift();
    forall k: nat | 0 < k < 3
      ensures TinyCurve().Mul(k, One) != Zero
    {
      TinyOrder(k);
    }
  }

  /** The expansion is all zeros, and the tag is sixteen zeros behind the plain text. */
  function TinySuite(): Nip44.Suite {
    Nip44.Suite(
      (salt, ikm, info, n) => Some(Repeat(0, n)),
      (k, n, m) => Some(m + Repeat(0, Nip44.MAC_SIZE)),
      (k, n, c) => if |c| >= Nip44.MAC_SIZE then Some(c[..|c| - Nip44.MAC_SIZE]) else None)
  }

  lemma TinySuiteLawful()
    ensures TinySuite().Lawful()
  {
  }

  ghost function ParsedEvent(t: Bytes): Option<Event> {
    if e :| EventJson(e) == t then Some(e) else None
  }

  ghost function ParsedRumor(t: Bytes): Option<Rumor> {
    if r :| RumorJson(r) == t then Some(r) else None
  }

  lemma ParsedEventReads(e: Event)
    ensures ParsedEvent(EventJson(e)) == Some(e)
  {
    var r := ParsedEvent(EventJson(e));
    assert r.Some? && EventJson(r.value) == EventJson(e);
    EventJsonInjective(r.value, e);
  }

  lemma ParsedRumorReads(rumor: Rumor)
    ensures ParsedRumor(RumorJson(rumor)) == Some(rumor)
  {
    var r := ParsedRumor(RumorJson(rumor));
    assert r.Some? && RumorJson(r.value) == RumorJson(rumor);
    RumorJsonInjective(r.value, rumor);
  }

  function TinyPrimitives(): Primitives {
    Primitives(b => Repeat(0, 32), (sig, message, key) => true)
  }

  ghost function TinyWorld(): World<Residue> {
    World(TinyPrimitives(), TinySuite(), TinyCurve(),
          (message, secret) => Ok(Repeat(0, 64)), t => ParsedEvent(t), t => ParsedRumor(t))
  }

  function Zeros(n: nat): (z: Bytes)
    ensures |z| == n
  {
    Repeat(0, n)
  }

  lemma {:induction false} BigEndianZeros(n: nat)
    ensures BigEndian(Zeros(n)) == 0
  {
    if n > 0 {
      BigEndianZeros(n - 1);
      assert Zeros(n)[..n - 1] == Zeros(n - 1);
    }
  }

  /** The laws can all hold at once, with keys to use. */
  lemma LawsHoldTogether()
    ensures TinyWorld().Lawful()
    ensures TinyWorld().LocalSigner(TinySecret()).Ok?
  {
    TinyCurveLawful();
    TinySuiteLawful();
    forall e
      ensures ParsedEvent(EventJson(e)) == Some(e)
    {
      ParsedEventReads(e);
    }
    forall r
      ensures ParsedRumor(RumorJson(r)) == Some(r)
    {
      ParsedRumorReads(r);
    }
    BigEndianZeros(31);
    assert TinySecret()[..31] == Zeros(31);
    assert BigEndian(TinySecret()) == 1;
  }

  function TinySecret(): Bytes {
    Zeros(31) + [1]
  }

  /** A message to oneself, so that the theorems about gift wraps that can be made are about something. */
  lemma GiftWrapsExist(params: GiftWrapParams)
    requires params.content == [104, 105] && params.replyTo == None && params.ephemeralSecret == TinySecret()
    requires params.sealNonce == params.wrapNonce == Zeros(24)
    ensures var w, me := TinyWorld(), TinyWorld().LocalSigner(TinySecret());
            me.Ok? && w.GiftWrap(me.value, me.value.publicKey, params).Ok?
    ensures params.InUtf8()
  {
    LawsHoldTogether();
    ShortChatIsUtf8(params);
    ShortChat(params);
    SelfWrapFits(TinyWorld(), TinySecret(), params);
  }

  lemma ShortChatIsUtf8(params: GiftWrapParams)
    requires params.content == [104, 105] && params.replyTo == None
    ensures params.InUtf8()
  {
    AsciiIsUtf8(params.content);
  }

  lemma ShortChat(params: GiftWrapParams)
    requires params.content == [104, 105] && params.replyTo == None
    ensures ChatLength(params) <= MAX_RUMOR_JSON
  {
    TimestampWidth(params.rumorCreatedAt);
    PlainQuoteLength(params.content);
  }

  // ---- A registry of bindings ----

  function TinyContent(c: BindingContent): Text {
    Quote(c.nametagHash) + Quote(c.address)
  }

  ghost function TinyField(content: Text, key: Text): Option<Text> {
    if c :| TinyContent(c) == content then
      if key == Lit("nametag_hash") then Some(c.nametagHash)
      else if key == Lit("address") then Some(c.address)
      else None
    else None
  }

  lemma TinyContentReads(c: BindingContent, d: BindingContent)
    requires TinyContent(c) == TinyContent(d)
    ensures c.nametagHash == d.nametagHash && c.address == d.address
  {
    QuotePeels(c.nametagHash, Quote(c.address), d.nametagHash, Quote(d.address));
    assert Quote(c.address) + [] == Quote(d.address) + [];
    QuotePeels(c.address, [], d.address, []);
  }

  ghost function TinyRegistry(): Registry {
    Registry(TinyPrimitives(), t => true, t => Repeat(48, 64), t => Repeat(48, 64),
             TinyContent, (content, key) => TinyField(content, key))
  }

  lemma RegistryLawsHoldTogether()
    ensures TinyRegistry().Lawful()
  {
    assert Lit("nametag_hash")[0] != Lit("address")[0];
    forall c
      ensures TinyField(TinyContent(c), Lit("nametag_hash")) == Some(c.nametagHash)
      ensures TinyField(TinyContent(c), Lit("address")) == Some(c.address)
    {
      forall d | TinyContent(d) == TinyContent(c)
        ensures d.nametagHash == c.nametagHash && d.address == c.address
      {
        TinyContentReads(c, d);
      }
    }
  }

  // ---- Events that verify in the tiny world ----

  function TinyEvent(pubkey: Text, tags: seq<Tag>): Event {
    var f := SignedFields(pubkey, 0, 1, tags, []);
    Event(CalculateId(TinyPrimitives(), f), pubkey, 0, 1, tags, [], HexEncode(Zeros(64)))
  }

  lemma TinyEventVerifies(pubkey: Text, tags: seq<Tag>, author: Bytes)
    requires HexDecode(pubkey) == Some(author) && |author| == 32
    ensures Verify(TinyPrimitives(), TinyEvent(pubkey, tags))
  {
    HexRoundTrip(Zeros(32));
    HexRoundTrip(Zeros(64));
    VerifiesExactly(TinyPrimitives(), TinyEvent(pubkey, tags));
  }

  lemma MarkedByTag(e: Event, f: Event)
    requires e.tags == [[Lit("L"), MarkerLabel()]] && f.tags == []
    ensures Marked(e) && !Marked(f)
  {
    assert e.tags[0][0] == Lit("L") && e.tags[0][1] == MarkerLabel();
  }

  lemma TinyTie(m: Event, u: Event, o: Event)
    requires m == TinyEvent(HexEncode(Zeros(32)), [[Lit("L"), MarkerLabel()]])
    requires u == TinyEvent(HexEncode(Zeros(32)), []) && o == TinyEvent(HexEncode(TinySecret()), [])
    ensures TiedBeside(m, u, o, (e: Event) => Verify(TinyPrimitives(), e))
  {
    HexRoundTrip(Zeros(32));
    HexRoundTrip(TinySecret());
    assert Zeros(32)[31] != TinySecret()[31];
    TinyEventVerifies(m.pubkey, m.tags, Zeros(32));
    TinyEventVerifies(u.pubkey, u.tags, Zeros(32));
    TinyEventVerifies(o.pubkey, o.tags, TinySecret());
    MarkedByTag(m, u);
    MarkedByTag(m, o);
  }

  /** The order of listing does decide who is resolved, between events that all verify. */
  lemma OrderMattersHere(m: Event, u: Event, o: Event)
    requires m == TinyEvent(HexEncode(Zeros(32)), [[Lit("L"), MarkerLabel()]])
    requires u == TinyEvent(HexEncode(Zeros(32)), []) && o == TinyEvent(HexEncode(TinySecret()), [])
    ensures var counts := (e: Event) => Verify(TinyPrimitives(), e);
            && OwnerPubkey([m, u, o], counts) == Some(m.pubkey)
            && OwnerPubkey([u, m, o], counts) == None
            && !Settled([m, u, o], counts)
  {
    TinyTie(m, u, o);
    OrderMatters(m, u, o, (e: Event) => Verify(TinyPrimitives(), e));
  }

  // ---- One key, two spellings ----

  /** `n` bytes 0xaa, spelled with the given digit. */
  function Spelling(digit: u8, n: nat): Text {
    if n == 0 then [] else [digit, digit] + Spelling(digit, n - 1)
  }

  function Alternating(n: nat): (b: Bytes)
    ensures |b| == n
  {
    if n == 0 then [] else [0xaa] + Alternating(n - 1)
  }

  lemma {:induction false} SpellingDecodes(digit: u8, n: nat)
    requires digit == 65 || digit == 97
    ensures HexDecode(Spelling(digit, n)) == Some(Alternating(n))
  {
    if n > 0 {
      SpellingDecodes(digit, n - 1);
      assert Spelling(digit, n)[2..] == Spelling(digit, n - 1);
      assert HexValue(digit) == Some(10);
    }
  }

  lemma SpelledApart()
    ensures HexDecode(Spelling(97, 32)) == HexDecode(Spelling(65, 32)) == Some(Alternating(32))
    ensures Spelling(97, 32) != Spelling(65, 32)
  {
    SpellingDecodes(97, 32);
    SpellingDecodes(65, 32);
    assert Spelling(97, 32)[0] == 97 && Spelling(65, 32)[0] == 65;
  }

  lemma SpelledTwice(e: Event, f: Event)
    requires e == TinyEvent(Spelling(97, 32), []) && f == TinyEvent(Spelling(65, 32), [])
    ensures Verify(TinyPrimitives(), e) && Verify(TinyPrimitives(), f)
    ensures HexDecode(e.pubkey) == HexDecode(f.pubkey) && e.pubkey != f.pubkey
    ensures !Marked(e) && !Marked(f)
  {
    SpelledApart();
    TinyEventVerifies(e.pubkey, [], Alternating(32));
    TinyEventVerifies(f.pubkey, [], Alternating(32));
  }

  /** Two events of one key that both verify, either of which is resolved alone, and neither together. */
  lemma TwoSpellingsNoOwner(e: Event, f: Event)
    requires e == TinyEvent(Spelling(97, 32), []) && f == TinyEvent(Spelling(65, 32), [])
    ensures HexDecode(e.pubkey) == HexDecode(f.pubkey)
    ensures var counts := (x: Event) => Verify(TinyPrimitives(), x);
            && Owner([e, f], counts) == None
            && Owner([e], counts) == Owner([f], counts) == Some(0)
  {
    SpelledTwice(e, f);
    ApartAndTogether(e, f, (x: Event) => Verify(TinyPrimitives(), x));
  }

  lemma ApartAndTogether(e: Event, f: Event, counts: Inclusion)
    requires counts(e) && counts(f) && e.pubkey != f.pubkey && !Marked(e) && !Marked(f)
    ensures Owner([e, f], counts) == None && Owner([e], counts) == Owner([f], counts) == Some(0)
  {
    TwoAuthorsNoOwner(e, f, counts);
    LoneOwner(e, counts);
    LoneOwner(f, counts);
  }
}
