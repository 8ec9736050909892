/**
 Gift-wrapped private messages (src/nip17.rs): a rumor inside a seal inside a gift wrap. The
 primitives, the curve, the AEAD suite and the JSON parsers are parameters.
 */
module Nip17 {
  import opened Basics
  import opened TextCodecs
  import opened Events
  import opened Secp
  import Nip44
  import Padding

  const CHAT_MESSAGE: u32 := 14
  const SEAL: u32 := 13
  const GIFT_WRAP: u32 := 1059

  datatype Rumor = Rumor(id: Text, fields: SignedFields)

  datatype PrivateMessage = PrivateMessage(
    eventId: Text, senderPubkey: Text, recipientPubkey: Text,
    content: Text, timestamp: i64, kind: u32, replyTo: Option<Text>)

  datatype GiftWrapParams = GiftWrapParams(
    content: Text, replyTo: Option<Text>,
    rumorCreatedAt: i64, sealCreatedAt: i64, wrapCreatedAt: i64,
    ephemeralSecret: Bytes, sealNonce: Bytes, wrapNonce: Bytes)
  {
    predicate InUtf8() {
      Utf8(content) && OptUtf8(replyTo)
    }
  }

  predicate Utf8Rumor(r: Rumor) {
    Utf8(r.id) && Utf8Fields(r.fields)
  }

  /** `serde_json::to_string` of a rumor. */
  function RumorJson(r: Rumor): Text {
    Lit("{\"id\":") + (Quote(r.id) + Row(ObjectLayout(), r.fields, Lit("}")))
  }

  /** The JSON of a rumor, member by member. */
  lemma RumorJsonIs(r: Rumor)
    ensures RumorJson(r) == Lit("{\"id\":") + Quote(r.id) + Lit(",\"pubkey\":") + Quote(r.fields.pubkey)
                            + Lit(",\"created_at\":") + Decimal(r.fields.createdAt)
                            + Lit(",\"kind\":") + Decimal(r.fields.kind) + Lit(",\"tags\":") + TagsJson(r.fields.tags)
                            + Lit(",\"content\":") + Quote(r.fields.content) + Lit("}")
  {
    RowIs(ObjectLayout(), r.fields, Lit("}"));
    assert [] + Lit("}") == Lit("}");
    ObjectInARow(Lit("{\"id\":"), Quote(r.id), Lit(",\"pubkey\":"), Quote(r.fields.pubkey), Lit(",\"created_at\":"),
                 Decimal(r.fields.createdAt), Lit(",\"kind\":"), Decimal(r.fields.kind), Lit(",\"tags\":"),
                 TagsJson(r.fields.tags), Lit(",\"content\":"), Quote(r.fields.content), Lit("}"));
  }

  lemma RumorJsonInjective(r: Rumor, q: Rumor)
    requires RumorJson(r) == RumorJson(q)
    ensures r == q
  {
    var s, t := Row(ObjectLayout(), r.fields, Lit("}")), Row(ObjectLayout(), q.fields, Lit("}"));
    SplitAt(Lit("{\"id\":"), Quote(r.id) + s, Lit("{\"id\":"), Quote(q.id) + t);
    QuotePeels(r.id, s, q.id, t);
    RowDelimits(ObjectLayout(), r.fields, Lit("}"), q.fields, Lit("}"));
  }

  /** Everything the crate takes from other crates. `schnorrSign` takes a message and a secret. */
  datatype World<!P(!new)> = World(
    primitives: Primitives, suite: Nip44.Suite, curve: Curve<P>,
    schnorrSign: (Bytes, Bytes) -> Result<Bytes>,
    parseEvent: Bytes -> Option<Event>, parseRumor: Bytes -> Option<Rumor>)
  {
    ghost predicate Lawful() {
      && primitives.Lawful()
      && suite.Lawful()
      && curve.Lawful()
      && (forall e :: Utf8Event(e) ==> parseEvent(EventJson(e)) == Some(e))
      && (forall r :: Utf8Rumor(r) ==> parseRumor(RumorJson(r)) == Some(r))
      && (forall secret, h {:trigger SignsFaithfully(secret, h)} | curve.XonlyPublicKey(secret).Ok? && |h| == 32 ::
            SignsFaithfully(secret, h))
    }

    /** BIP-340 signing: a valid key signs, in 64 bytes that verify under its x-only key. */
    ghost predicate SignsFaithfully(secret: Bytes, h: Bytes)
      requires curve.XonlyPublicKey(secret).Ok?
    {
      && schnorrSign(h, secret).Ok?
      && |schnorrSign(h, secret).value| == 64
      && primitives.schnorrVerify(schnorrSign(h, secret).value, h, curve.XonlyPublicKey(secret).value)
    }

    /** `LocalSigner::from_secret` */
    function LocalSigner(secret: Bytes): Result<Signer> {
      var xonly :- curve.XonlyPublicKey(secret);
      Ok(Signer(xonly, h => schnorrSign(h, secret), peer => Nip44.ConversationKey(suite, curve, secret, peer)))
    }

    /** A signer that answers as the holder of `secret` would, wherever the secret is kept. */
    ghost predicate Holds(s: Signer, secret: Bytes) {
      && curve.XonlyPublicKey(secret) == Ok(s.publicKey)
      && Signs(primitives, s)
      && forall peer :: s.conversationKey(peer) == Nip44.ConversationKey(suite, curve, secret, peer)
    }

    lemma LocalSignerHolds(secret: Bytes)
      requires Lawful() && LocalSigner(secret).Ok?
      ensures Holds(LocalSigner(secret).value, secret)
      ensures forall h :: LocalSigner(secret).value.sign(h) == schnorrSign(h, secret)
      ensures AlwaysSigns(LocalSigner(secret).value)
    {
      var s := LocalSigner(secret).value;
      forall h | |h| == 32
        ensures s.sign(h).Ok? && |s.sign(h).value| == 64 && primitives.schnorrVerify(s.sign(h).value, h, s.publicKey)
      {
        assert SignsFaithfully(secret, h);
      }
    }

    // ---- One layer: encrypt, then sign ----

    /** An event by `s` whose content is `inner`, encrypted to `peer`. */
    function Envelope(s: Signer, peer: Bytes, nonce: Bytes, inner: Text, kind: u32, tags: seq<Tag>, createdAt: i64)
      : Result<Event>
    {
      var key :- s.conversationKey(peer);
      var content :- Nip44.Encrypted(suite, key, nonce, inner);
      Create(primitives, s, kind, tags, content, createdAt)
    }

    /** `r` reads `inner` in the content of an envelope by `s`, whose nonce shows. */
    ghost predicate Opens(r: Signer, s: Signer, nonce: Bytes, content: Text, inner: Text) {
      && r.conversationKey(s.publicKey).Ok?
      && Nip44.DecryptWithKey(suite, r.conversationKey(s.publicKey).value, content) == Ok(inner)
      && Nip44.Shows(content, nonce)
    }

    lemma EnvelopeOpens(s: Signer, a: Bytes, r: Signer, b: Bytes,
                        nonce: Bytes, inner: Text, kind: u32, tags: seq<Tag>, createdAt: i64)
      requires Lawful() && Holds(s, a) && Holds(r, b) && |nonce| == Nip44.NONCE_SIZE
      ensures var e := Envelope(s, r.publicKey, nonce, inner, kind, tags, createdAt);
              e.Ok? ==>
                && Verify(primitives, e.value)
                && FieldsOf(e.value) == SignedFields(HexEncode(s.publicKey), createdAt, kind, tags, e.value.content)
                && Opens(r, s, nonce, e.value.content, inner)
                && Measures(e.value.content, inner)
    {
      Nip44.ConversationKeySymmetric(suite, curve, a, b);
      var key := s.conversationKey(r.publicKey).value;
      Nip44.DecryptInvertsEncrypt(suite, key, nonce, inner);
      if Envelope(s, r.publicKey, nonce, inner, kind, tags, createdAt).Ok? {
        CreatedVerifies(primitives, s, kind, tags, Nip44.Encrypted(suite, key, nonce, inner).value, createdAt);
      }
    }

    /** Only the length of what is inside decides whether a layer can be made. */
    lemma EnvelopeExactly(s: Signer, a: Bytes, r: Signer, b: Bytes,
                          nonce: Bytes, inner: Text, kind: u32, tags: seq<Tag>, createdAt: i64)
      requires Lawful() && Holds(s, a) && Holds(r, b) && |nonce| == Nip44.NONCE_SIZE
      requires AlwaysSigns(s) && |inner| >= 1
      ensures var e := Envelope(s, r.publicKey, nonce, inner, kind, tags, createdAt);
              && (e.Ok? <==> |inner| <= Padding.MAX_MESSAGE_LEN)
              && (e.Err? ==> e.error == Error.Padding("message too long"))
    {
      Nip44.ConversationKeySymmetric(suite, curve, a, b);
      var key := s.conversationKey(r.publicKey).value;
      Nip44.DecryptInvertsEncrypt(suite, key, nonce, inner);
      if |inner| <= Padding.MAX_MESSAGE_LEN {
        CreatedVerifies(primitives, s, kind, tags, Nip44.Encrypted(suite, key, nonce, inner).value, createdAt);
      }
    }

    // ---- Wrapping ----

    /** The chat rumor (kind 14). */
    function RumorOf(senderPub: Bytes, recipient: Bytes, params: GiftWrapParams): Rumor {
      var fields := SignedFields(HexEncode(senderPub), params.rumorCreatedAt, CHAT_MESSAGE,
                                 RumorTags(HexEncode(recipient), params.replyTo), params.content);
      Rumor(CalculateId(primitives, fields), fields)
    }

    function SealOf(sender: Signer, recipient: Bytes, params: GiftWrapParams): Result<Event> {
      Envelope(sender, recipient, params.sealNonce, RumorJson(RumorOf(sender.publicKey, recipient, params)),
               SEAL, [], params.sealCreatedAt)
    }

    /** What `create_gift_wrap` computes. */
    function GiftWrap(sender: Signer, recipient: Bytes, params: GiftWrapParams): Result<Event> {
      var seal :- SealOf(sender, recipient, params);
      var ephemeral :- LocalSigner(params.ephemeralSecret);
      Envelope(ephemeral, recipient, params.wrapNonce, EventJson(seal), GIFT_WRAP,
               WrapTags(recipient), params.wrapCreatedAt)
    }

    method CreateGiftWrap(sender: Signer, recipientXonly: Bytes, params: GiftWrapParams) returns (r: Result<Event>)
      ensures r == GiftWrap(sender, recipientXonly, params)
    {
      var senderPub := HexEncode(sender.publicKey);
      var recipientHex := HexEncode(recipientXonly);

      // 1. Rumor
      var tags := BuildTags(recipientHex, params.replyTo);
      var fields := SignedFields(senderPub, params.rumorCreatedAt, CHAT_MESSAGE, tags, params.content);
      var rumor := Rumor(CalculateId(primitives, fields), fields);

      // 2. Seal
      var sealing := Wrapped(sender, recipientXonly, params.sealNonce, RumorJson(rumor), SEAL, [],
                             params.sealCreatedAt);
      var seal :- sealing;

      // 3. Gift wrap
      var ephemeral :- LocalSigner(params.ephemeralSecret);
      r := Wrapped(ephemeral, recipientXonly, params.wrapNonce, EventJson(seal), GIFT_WRAP,
                   [[Lit("p"), recipientHex]], params.wrapCreatedAt);
    }

    method Wrapped(s: Signer, peer: Bytes, nonce: Bytes, inner: Text, kind: u32, tags: seq<Tag>, createdAt: i64)
      returns (r: Result<Event>)
      ensures r == Envelope(s, peer, nonce, inner, kind, tags, createdAt)
    {
      var key :- s.conversationKey(peer);
      var encryption := Nip44.EncryptWithKeyNonce(suite, key, nonce, inner);
      var content :- encryption;
      return Create(primitives, s, kind, tags, content, createdAt);
    }

    // ---- Unwrapping ----

    function HexKey(k: Text): Result<Bytes> {
      HexBytes(k, 32, "hex key", "pubkey != 32")
    }

    /** `unwrap` */
    function Unwrap(recipient: Signer, giftWrap: Event): Result<PrivateMessage> {
      if giftWrap.kind != GIFT_WRAP then Err(Malformed("event is not a gift wrap"))
      else
        var ephemeralPub :- HexKey(giftWrap.pubkey);
        var wrapKey :- recipient.conversationKey(ephemeralPub);
        var sealBytes :- Nip44.DecryptWithKey(suite, wrapKey, giftWrap.content);
        match parseEvent(sealBytes)
        case None => Err(Error.Decode("seal json"))
        case Some(seal) =>
          var rumor :- Unseal(recipient, seal);
          Ok(Delivered(recipient, giftWrap, seal, rumor))
    }

    /** The seal's kind and its signature over its stated id, then what it carries. */
    function Unseal(recipient: Signer, seal: Event): Result<Rumor> {
      if seal.kind != SEAL then Err(Malformed("inner event is not a seal"))
      else
        var sealId :- HexBytes(seal.id, 32, "hex id", "id != 32");
        var sealSig :- HexBytes(seal.sig, 64, "seal sig", "seal sig != 64");
        var sealPub :- HexKey(seal.pubkey);
        if !primitives.schnorrVerify(sealSig, sealId, sealPub) then
          Err(Error.Decrypt("seal signature verification failed"))
        else
          var sealKey :- recipient.conversationKey(sealPub);
          var rumorBytes :- Nip44.DecryptWithKey(suite, sealKey, seal.content);
          match parseRumor(rumorBytes)
          case None => Err(Error.Decode("rumor json"))
          case Some(rumor) => Ok(rumor)
    }

    /** `keyHex` names a peer from whom the recipient decrypts `content` to `inner`. */
    ghost predicate Reads(recipient: Signer, keyHex: Text, content: Text, inner: Bytes) {
      exists peer, key |
        HexDecode(keyHex) == Some(peer) && |peer| == 32 && recipient.conversationKey(peer) == Ok(key) ::
        Nip44.DecryptWithKey(suite, key, content) == Ok(inner)
    }

    /** The signature of a seal holds for its stated id and its stated author. */
    ghost predicate Attested(seal: Event) {
      exists id, sig, author ::
        && HexDecode(seal.id) == Some(id) && HexDecode(seal.sig) == Some(sig) && HexDecode(seal.pubkey) == Some(author)
        && |id| == 32 && |sig| == 64 && |author| == 32 && primitives.schnorrVerify(sig, id, author)
    }

    ghost predicate Contains(recipient: Signer, seal: Event, rumor: Rumor) {
      exists rumorText ::
        Reads(recipient, seal.pubkey, seal.content, rumorText) && parseRumor(rumorText) == Some(rumor)
    }

    /** What must be inside a gift wrap for it to be unwrapped. */
    ghost predicate Delivers(recipient: Signer, wrap: Event, seal: Event, rumor: Rumor) {
      && wrap.kind == GIFT_WRAP
      && (exists sealText ::
            Reads(recipient, wrap.pubkey, wrap.content, sealText) && parseEvent(sealText) == Some(seal))
      && seal.kind == SEAL
      && Attested(seal)
      && Contains(recipient, seal, rumor)
    }

    /** The sender is the author of the seal; the rest is what the rumor says. */
    function Delivered(recipient: Signer, wrap: Event, seal: Event, rumor: Rumor): PrivateMessage {
      PrivateMessage(wrap.id, seal.pubkey, HexEncode(recipient.publicKey), rumor.fields.content,
                     rumor.fields.createdAt, rumor.fields.kind, TagValue(rumor.fields.tags, Lit("e")))
    }

    lemma UnsealsExactly(recipient: Signer, seal: Event, rumor: Rumor)
      ensures Unseal(recipient, seal) == Ok(rumor) <==>
              && seal.kind == SEAL && Attested(seal)
              && Contains(recipient, seal, rumor)
    {
    }

    /** A gift wrap is accepted exactly when both layers are there, and the seal is signed by its author. */
    lemma UnwrapsExactly(recipient: Signer, wrap: Event, m: PrivateMessage)
      ensures Unwrap(recipient, wrap) == Ok(m) <==>
              exists seal, rumor ::
                && Delivers(recipient, wrap, seal, rumor)
                && m == PrivateMessage(
                     eventId := wrap.id, senderPubkey := seal.pubkey, recipientPubkey := HexEncode(recipient.publicKey),
                     content := rumor.fields.content, timestamp := rumor.fields.createdAt, kind := rumor.fields.kind,
                     replyTo := TagValue(rumor.fields.tags, Lit("e")))
    {
      forall seal, rumor
        ensures Unseal(recipient, seal) == Ok(rumor) <==>
                && seal.kind == SEAL && Attested(seal)
                && Contains(recipient, seal, rumor)
      {
        UnsealsExactly(recipient, seal, rumor);
      }
      if Unwrap(recipient, wrap) == Ok(m) {
        UnwrappedDelivers(recipient, wrap, m);
      }
    }

    lemma UnwrappedDelivers(recipient: Signer, wrap: Event, m: PrivateMessage)
      requires Unwrap(recipient, wrap) == Ok(m)
      ensures exists seal, rumor ::
                Delivers(recipient, wrap, seal, rumor) && m == Delivered(recipient, wrap, seal, rumor)
    {
      var peer := HexDecode(wrap.pubkey).value;
      var key := recipient.conversationKey(peer).value;
      var sealText := Nip44.DecryptWithKey(suite, key, wrap.content).value;
      assert Reads(recipient, wrap.pubkey, wrap.content, sealText);
      var seal := parseEvent(sealText).value;
      var rumor := Unseal(recipient, seal).value;
      UnsealsExactly(recipient, seal, rumor);
      assert Delivers(recipient, wrap, seal, rumor);
    }

    /** Why a gift wrap or a seal is refused, as far as their kinds and the seal's signature go. */
    lemma UnwrapErrors(recipient: Signer, wrap: Event, seal: Event, id: Bytes, sig: Bytes, author: Bytes)
      ensures wrap.kind != 1059 ==> Unwrap(recipient, wrap) == Err(Malformed("event is not a gift wrap"))
      ensures seal.kind != 13 ==> Unseal(recipient, seal) == Err(Malformed("inner event is not a seal"))
      ensures && seal.kind == 13 && |id| == 32 && |sig| == 64 && |author| == 32
              && HexDecode(seal.id) == Some(id) && HexDecode(seal.sig) == Some(sig)
              && HexDecode(seal.pubkey) == Some(author)
              && !primitives.schnorrVerify(sig, id, author)
              ==> Unseal(recipient, seal) == Err(Error.Decrypt("seal signature verification failed"))
    {
    }

    // ---- What the checked signature covers ----

    /** An accepted seal is a valid event exactly when its stated id is that of its own fields, which is not checked. */
    lemma SealCommitsExactly(recipient: Signer, seal: Event)
      requires Unseal(recipient, seal).Ok?
      ensures Verify(primitives, seal) <==> seal.id == CalculateId(primitives, FieldsOf(seal))
    {
      UnsealsExactly(recipient, seal, Unseal(recipient, seal).value);
    }

    /** The same for whatever is unwrapped: there is a seal behind it, which commits under this condition only. */
    lemma UnwrappedCommitsExactly(recipient: Signer, wrap: Event, m: PrivateMessage)
      requires Unwrap(recipient, wrap) == Ok(m)
      ensures exists seal, rumor ::
                && Delivers(recipient, wrap, seal, rumor)
                && m == Delivered(recipient, wrap, seal, rumor)
                && (Verify(primitives, seal) <==> seal.id == CalculateId(primitives, FieldsOf(seal)))
    {
      UnwrapsExactly(recipient, wrap, m);
      var seal, rumor :| Delivers(recipient, wrap, seal, rumor) && m == Delivered(recipient, wrap, seal, rumor);
      UnsealsExactly(recipient, seal, rumor);
      SealCommitsExactly(recipient, seal);
    }

    /** A seal with the id and signature of `e`, around `content`. */
    function Restated(e: Event, createdAt: i64, content: Text): Event {
      Event(e.id, e.pubkey, createdAt, SEAL, [], content, e.sig)
    }

    /**
     The condition can fail: the stated id may be that of any other event of the author. Such a seal
     is accepted with whatever rumor the conversation key encrypts, and is itself no valid event
     short of a collision.
     */
    lemma StatedIdSuffices(recipient: Signer, b: Bytes, author: Bytes, a: Bytes, e: Event,
                           createdAt: i64, nonce: Bytes, rumor: Rumor)
      requires Lawful() && Holds(recipient, b) && curve.XonlyPublicKey(a) == Ok(author)
      requires Verify(primitives, e) && e.pubkey == HexEncode(author)
      requires |nonce| == Nip44.NONCE_SIZE && Utf8Rumor(rumor) && |RumorJson(rumor)| <= Padding.MAX_MESSAGE_LEN
      ensures var key := recipient.conversationKey(author);
              && key.Ok?
              && var content := Nip44.Encrypted(suite, key.value, nonce, RumorJson(rumor));
                && content.Ok?
                && var seal := Restated(e, createdAt, content.value);
                  && Unseal(recipient, seal) == Ok(rumor)
                  && (Verify(primitives, seal) ==>
                        primitives.sha256(Canonical(FieldsOf(e))) == primitives.sha256(Canonical(FieldsOf(seal))))
    {
      Nip44.ConversationKeySymmetric(suite, curve, a, b);
      var key := recipient.conversationKey(author).value;
      RumorJsonNonempty(rumor);
      Nip44.DecryptInvertsEncrypt(suite, key, nonce, RumorJson(rumor));
      var content := Nip44.Encrypted(suite, key, nonce, RumorJson(rumor)).value;
      var seal := Restated(e, createdAt, content);
      RestatedUnseals(recipient, author, e, seal, rumor);
      if Verify(primitives, seal) {
        SameIdSameHash(e, seal);
      }
    }

    lemma RestatedUnseals(recipient: Signer, author: Bytes, e: Event, seal: Event, rumor: Rumor)
      requires Lawful() && |author| == 32 && Utf8Rumor(rumor)
      requires Verify(primitives, e) && e.pubkey == HexEncode(author)
      requires seal.kind == SEAL && seal.id == e.id && seal.sig == e.sig && seal.pubkey == e.pubkey
      requires recipient.conversationKey(author).Ok?
      requires Nip44.DecryptWithKey(suite, recipient.conversationKey(author).value, seal.content)
            == Ok(RumorJson(rumor))
      ensures Unseal(recipient, seal) == Ok(rumor)
    {
      HexRoundTrip(author);
    }

    lemma SameIdSameHash(e: Event, seal: Event)
      requires Lawful() && Verify(primitives, e) && Verify(primitives, seal) && e.id == seal.id
      ensures primitives.sha256(Canonical(FieldsOf(e))) == primitives.sha256(Canonical(FieldsOf(seal)))
    {
      HexRoundTrip(primitives.sha256(Canonical(FieldsOf(e))));
      HexRoundTrip(primitives.sha256(Canonical(FieldsOf(seal))));
    }

    /**
     What is unwrapped is read from kind, author and content of the wrap alone, and the event id it
     reports is the one stated.
     */
    lemma UnwrapReads(recipient: Signer, wrap: Event, other: Event)
      requires other.kind == wrap.kind && other.pubkey == wrap.pubkey && other.content == wrap.content
      ensures Unwrap(recipient, wrap).Err? ==> Unwrap(recipient, other) == Unwrap(recipient, wrap)
      ensures Unwrap(recipient, wrap).Ok? ==>
                Unwrap(recipient, other) == Ok(Unwrap(recipient, wrap).value.(eventId := other.id))
    {
    }

    /**
     So two copies of a valid wrap can deliver one message under two ids; they report the same id
     exactly when the other copy, too, states the id of its own fields.
     */
    lemma CopiesReportOneIdExactly(recipient: Signer, wrap: Event, other: Event)
      requires Unwrap(recipient, wrap).Ok? && Verify(primitives, wrap) && FieldsOf(other) == FieldsOf(wrap)
      ensures Unwrap(recipient, other).Ok?
      ensures Unwrap(recipient, other) == Unwrap(recipient, wrap) <==>
              other.id == CalculateId(primitives, FieldsOf(other))
    {
      UnwrapReads(recipient, wrap, other);
      StatedIdReported(recipient, wrap);
    }

    lemma StatedIdReported(recipient: Signer, wrap: Event)
      ensures Unwrap(recipient, wrap).Ok? ==> Unwrap(recipient, wrap).value.eventId == wrap.id
    {
    }

    lemma SealOpens(sender: Signer, recipient: Signer, nonce: Bytes, seal: Event, rumor: Rumor)
      requires Lawful() && |sender.publicKey| == 32 && Utf8Rumor(rumor)
      requires seal.kind == SEAL && seal.pubkey == HexEncode(sender.publicKey) && Verify(primitives, seal)
      requires Opens(recipient, sender, nonce, seal.content, RumorJson(rumor))
      ensures Unseal(recipient, seal) == Ok(rumor)
    {
      HexRoundTrip(sender.publicKey);
    }

    lemma WrapOpens(ephemeral: Signer, recipient: Signer, nonce: Bytes, wrap: Event, seal: Event, rumor: Rumor)
      requires Lawful() && |ephemeral.publicKey| == 32 && Utf8Event(seal)
      requires wrap.kind == GIFT_WRAP && wrap.pubkey == HexEncode(ephemeral.publicKey)
      requires Opens(recipient, ephemeral, nonce, wrap.content, EventJson(seal))
      requires Unseal(recipient, seal) == Ok(rumor)
      ensures Unwrap(recipient, wrap) == Ok(Delivered(recipient, wrap, seal, rumor))
    {
      HexRoundTrip(ephemeral.publicKey);
    }

    lemma RumorIsUtf8(senderPub: Bytes, recipient: Bytes, params: GiftWrapParams)
      requires params.InUtf8()
      ensures Utf8Rumor(RumorOf(senderPub, recipient, params))
    {
      var rumor := RumorOf(senderPub, recipient, params);
      AsciiIsUtf8(rumor.id);
      AsciiIsUtf8(rumor.fields.pubkey);
      RumorTagsAreUtf8(HexEncode(recipient), params.replyTo);
    }

    lemma SealIsUtf8(seal: Event)
      requires Verify(primitives, seal) && seal.tags == [] && Plain(seal.content)
      ensures Utf8Event(seal)
    {
      HexIsPlain(seal.id);
      HexIsPlain(seal.pubkey);
      HexIsPlain(seal.sig);
      AsciiIsUtf8(seal.id);
      AsciiIsUtf8(seal.pubkey);
      AsciiIsUtf8(seal.sig);
      AsciiIsUtf8(seal.content);
    }

    /** The rumor, field by field; its id is that of its own fields. */
    lemma RumorWritten(senderPub: Bytes, recipient: Bytes, params: GiftWrapParams)
      ensures var rumor := RumorOf(senderPub, recipient, params);
              && rumor.fields.pubkey == HexEncode(senderPub) && rumor.fields.kind == 14
              && rumor.fields.createdAt == params.rumorCreatedAt && rumor.fields.content == params.content
              && rumor.fields.tags == [[Lit("p"), HexEncode(recipient)]]
                                      + (match params.replyTo
                                         case None => []
                                         case Some(reply) => [[Lit("e"), reply, [], Lit("reply")]])
              && rumor.id == HexEncode(primitives.sha256(Canonical(rumor.fields)))
    {
    }

    /** The three layers of a gift wrap, each as the parameters ask and readable by the recipient. */
    ghost predicate Layered(sender: Signer, recipient: Signer, params: GiftWrapParams, seal: Event, wrap: Event) {
      && LocalSigner(params.ephemeralSecret).Ok?
      && var ephemeral := LocalSigner(params.ephemeralSecret).value;
        && Verify(primitives, wrap)
        && FieldsOf(wrap) == SignedFields(HexEncode(ephemeral.publicKey), params.wrapCreatedAt, 1059,
                                          [[Lit("p"), HexEncode(recipient.publicKey)]], wrap.content)
        && Opens(recipient, ephemeral, params.wrapNonce, wrap.content, EventJson(seal))
        && Verify(primitives, seal)
        && FieldsOf(seal) == SignedFields(HexEncode(sender.publicKey), params.sealCreatedAt, 13, [], seal.content)
        && Opens(recipient, sender, params.sealNonce, seal.content,
                 RumorJson(RumorOf(sender.publicKey, recipient.publicKey, params)))
    }

    lemma GiftWrapLayers(sender: Signer, a: Bytes, recipient: Signer, b: Bytes, params: GiftWrapParams)
      requires Lawful() && Holds(sender, a) && Holds(recipient, b)
      requires |params.sealNonce| == |params.wrapNonce| == Nip44.NONCE_SIZE
      ensures var seal := SealOf(sender, recipient.publicKey, params);
              var wrap := GiftWrap(sender, recipient.publicKey, params);
              wrap.Ok? ==>
                && seal.Ok?
                && Layered(sender, recipient, params, seal.value, wrap.value)
                && Measures(seal.value.content, RumorJson(RumorOf(sender.publicKey, recipient.publicKey, params)))
                && Measures(wrap.value.content, EventJson(seal.value))
    {
      if GiftWrap(sender, recipient.publicKey, params).Ok? {
        var rumor := RumorOf(sender.publicKey, recipient.publicKey, params);
        var seal := SealOf(sender, recipient.publicKey, params).value;
        var ephemeral := LocalSigner(params.ephemeralSecret).value;
        LocalSignerHolds(params.ephemeralSecret);
        EnvelopeOpens(sender, a, recipient, b, params.sealNonce, RumorJson(rumor), SEAL, [], params.sealCreatedAt);
        EnvelopeOpens(ephemeral, params.ephemeralSecret, recipient, b, params.wrapNonce, EventJson(seal), GIFT_WRAP,
                      WrapTags(recipient.publicKey), params.wrapCreatedAt);
      }
    }

    /** Whatever can be wrapped is unwrapped by its recipient, in every field; and the wrap itself is a valid event. */
    lemma GiftWrapRoundTrip(sender: Signer, a: Bytes, recipient: Signer, b: Bytes, params: GiftWrapParams)
      requires Lawful() && Holds(sender, a) && Holds(recipient, b)
      requires |params.sealNonce| == |params.wrapNonce| == Nip44.NONCE_SIZE && params.InUtf8()
      ensures var wrap := GiftWrap(sender, recipient.publicKey, params);
              wrap.Ok? ==>
                && Verify(primitives, wrap.value)
                && Unwrap(recipient, wrap.value) == Ok(PrivateMessage(
                     wrap.value.id, HexEncode(sender.publicKey), HexEncode(recipient.publicKey),
                     params.content, params.rumorCreatedAt, CHAT_MESSAGE, params.replyTo))
    {
      var wrap := GiftWrap(sender, recipient.publicKey, params);
      GiftWrapLayers(sender, a, recipient, b, params);
      if wrap.Ok? {
        LayersUnwrap(sender, recipient, params, SealOf(sender, recipient.publicKey, params).value, wrap.value);
      }
    }

    lemma LayersUnwrap(sender: Signer, recipient: Signer, params: GiftWrapParams, seal: Event, wrap: Event)
      requires Lawful() && |sender.publicKey| == 32 && params.InUtf8()
      requires Layered(sender, recipient, params, seal, wrap) && Plain(seal.content)
      ensures Unwrap(recipient, wrap) == Ok(PrivateMessage(
                wrap.id, HexEncode(sender.publicKey), HexEncode(recipient.publicKey),
                params.content, params.rumorCreatedAt, CHAT_MESSAGE, params.replyTo))
    {
      var rumor := RumorOf(sender.publicKey, recipient.publicKey, params);
      var ephemeral := LocalSigner(params.ephemeralSecret).value;
      RumorIsUtf8(sender.publicKey, recipient.publicKey, params);
      SealOpens(sender, recipient, params.sealNonce, seal, rumor);
      SealIsUtf8(seal);
      WrapOpens(ephemeral, recipient, params.wrapNonce, wrap, seal, rumor);
      ReplyFound(HexEncode(recipient.publicKey), params.replyTo);
    }
  }

  lemma RumorJsonNonempty(rumor: Rumor)
    ensures |RumorJson(rumor)| >= 1
  {
  }

  /** All that an envelope's content shows of what is inside is the padding bucket of its length. */
  ghost predicate Measures(content: Text, inner: Text) {
    && Plain(content)
    && 1 <= |inner|
    && |content| == Nip44.EncryptedLength(|inner|)
  }

  function RumorTags(recipientHex: Text, replyTo: Option<Text>): seq<Tag> {
    match replyTo
    case None => [[Lit("p"), recipientHex]]
    case Some(reply) => [[Lit("p"), recipientHex], [Lit("e"), reply, [], Lit("reply")]]
  }

  lemma RumorTagsAreUtf8(recipientHex: Text, replyTo: Option<Text>)
    requires Plain(recipientHex) && OptUtf8(replyTo)
    ensures forall t, s :: t in RumorTags(recipientHex, replyTo) && s in t ==> Utf8(s)
  {
    AsciiIsUtf8(recipientHex);
    AsciiIsUtf8(Lit("p"));
    AsciiIsUtf8(Lit("e"));
    AsciiIsUtf8(Lit("reply"));
  }

  method BuildTags(recipientHex: Text, replyTo: Option<Text>) returns (tags: seq<Tag>)
    ensures tags == RumorTags(recipientHex, replyTo)
  {
    tags := [[Lit("p"), recipientHex]];
    if replyTo.Some? {
      tags := tags + [[Lit("e"), replyTo.value, [], Lit("reply")]];
    }
  }

  function WrapTags(recipient: Bytes): seq<Tag> {
    [[Lit("p"), HexEncode(recipient)]]
  }

  lemma ReplyFound(recipientHex: Text, replyTo: Option<Text>)
    ensures TagValue(RumorTags(recipientHex, replyTo), Lit("e")) == replyTo
  {
    var tags := RumorTags(recipientHex, replyTo);
    assert Lit("p")[0] != Lit("e")[0];
    assert FindTag(tags, Lit("e")) == FindTag(tags[1..], Lit("e"));
    if replyTo.Some? {
      assert tags[1..][0][0] == Lit("e");
    } else {
      assert tags[1..] == [];
    }
  }
}
