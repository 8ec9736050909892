/**
 How long a chat message may be. Padding, base64 and the seal's JSON compound over the two layers
 of a gift wrap, and the limit of the outer layer falls between two padding buckets of the inner.
 */
module GiftWrapSizes {
  import opened Basics
  import opened TextCodecs
  import opened Events
  import opened Nip17
  import Nip44
  import Padding

  /** The longest rumor JSON a gift wrap can carry. */
  const MAX_RUMOR_JSON := 40960

  // ---- JSON lengths ----

  lemma FromKindLength(l: Layout, f: SignedFields, rest: Text)
    ensures |RowFromKind(l, f, rest)| ==
            |l.beforeKind| + |Decimal(f.kind)| + |l.beforeTags| + |TagsJson(f.tags)|
            + |l.beforeContent| + |Quote(f.content)| + |l.close| + |rest|
  {
  }

  lemma RowLength(l: Layout, f: SignedFields, rest: Text)
    ensures |Row(l, f, rest)| ==
            |l.open| + |Quote(f.pubkey)| + |l.beforeTime| + |Decimal(f.createdAt)| + |RowFromKind(l, f, rest)|
  {
  }

  lemma ObjectWidths()
    ensures var l := ObjectLayout();
            |l.open| == 10 && |l.beforeTime| == 14 && |l.beforeKind| == 8 && |l.beforeTags| == 8
            && |l.beforeContent| == 11 && |l.close| == 0
  {
  }

  /** An object row with a 64-digit author and a two-digit kind. */
  lemma ObjectRowLength(f: SignedFields, rest: Text)
    requires Plain(f.pubkey) && |f.pubkey| == 64 && 10 <= f.kind < 100
    ensures |Row(ObjectLayout(), f, rest)| ==
            119 + |Decimal(f.createdAt)| + |TagsJson(f.tags)| + |Quote(f.content)| + |rest|
  {
    ObjectWidths();
    RowLength(ObjectLayout(), f, rest);
    FromKindLength(ObjectLayout(), f, rest);
    PlainQuoteLength(f.pubkey);
    assert |Digits(f.kind)| == 2;
  }

  lemma SealJsonLength(seal: Event)
    requires Plain(seal.id) && |seal.id| == 64 && Plain(seal.pubkey) && |seal.pubkey| == 64
    requires Plain(seal.sig) && |seal.sig| == 128 && Plain(seal.content)
    requires seal.kind == SEAL && seal.tags == []
    ensures |EventJson(seal)| == 333 + |Decimal(seal.createdAt)| + |seal.content|
  {
    PlainQuoteLength(seal.id);
    PlainQuoteLength(seal.sig);
    PlainQuoteLength(seal.content);
    ObjectRowLength(FieldsOf(seal), Lit(",\"sig\":") + (Quote(seal.sig) + Lit("}")));
    assert |TagsJson([])| == 2;
  }

  // ---- Two layers ----

  /** The content of the outer layer, for rumor JSON of `n` bytes and a seal timestamp of `d` characters. */
  function WrapLength(n: nat, d: nat): nat
    requires n >= 1
  {
    Nip44.EncryptedLength(333 + d + Nip44.EncryptedLength(n))
  }

  /** A seal that verifies has its hex fields of the right lengths. */
  lemma VerifiedSealLength(p: Primitives, seal: Event)
    requires Verify(p, seal) && seal.kind == SEAL && seal.tags == [] && Plain(seal.content)
    ensures |EventJson(seal)| == 333 + |Decimal(seal.createdAt)| + |seal.content|
  {
    HexIsPlain(seal.id);
    HexIsPlain(seal.pubkey);
    HexIsPlain(seal.sig);
    SealJsonLength(seal);
  }

  /** The threshold in numbers: one bucket more inside overruns the limit outside. */
  lemma SealFits(n: nat, d: nat)
    requires n >= 1 && 1 <= d <= 20
    ensures 333 + d + Nip44.EncryptedLength(n) <= Padding.MAX_MESSAGE_LEN <==> n <= MAX_RUMOR_JSON
  {
    Padding.BucketStep(n);
  }

  lemma LayersLength(p: Primitives, seal: Event, inner: Text, content: Text)
    requires Verify(p, seal) && seal.kind == SEAL && seal.tags == []
    requires Measures(seal.content, inner) && Measures(content, EventJson(seal))
    ensures |content| == WrapLength(|inner|, |Decimal(seal.createdAt)|)
  {
    VerifiedSealLength(p, seal);
  }

  /** The two lengths the threshold lies between, in base64. */
  lemma ThresholdLengths(n: nat)
    requires n >= 1
    ensures n == MAX_RUMOR_JSON ==> Nip44.EncryptedLength(n) == 54672
    ensures n == MAX_RUMOR_JSON + 1 ==> Nip44.EncryptedLength(n) == 65596
    ensures n > MAX_RUMOR_JSON ==> Nip44.EncryptedLength(n) > Padding.MAX_MESSAGE_LEN
  {
    Padding.BucketsAround40960();
    Padding.BucketStep(n);
  }

  /** The length of a gift wrap depends on the bucket of its rumor only, short of the seal's timestamp. */
  lemma GiftWrapLength<P(!new)>(w: World<P>, sender: Signer, a: Bytes, recipient: Signer, b: Bytes,
                                params: GiftWrapParams)
    requires w.Lawful() && w.Holds(sender, a) && w.Holds(recipient, b)
    requires |params.sealNonce| == |params.wrapNonce| == Nip44.NONCE_SIZE
    ensures var n := |RumorJson(w.RumorOf(sender.publicKey, recipient.publicKey, params))|;
            var wrap := w.GiftWrap(sender, recipient.publicKey, params);
            && n >= 1
            && (wrap.Ok? ==> |wrap.value.content| == WrapLength(n, |Decimal(params.sealCreatedAt)|))
  {
    var inner := RumorJson(w.RumorOf(sender.publicKey, recipient.publicKey, params));
    RumorJsonNonempty(w.RumorOf(sender.publicKey, recipient.publicKey, params));
    var wrap := w.GiftWrap(sender, recipient.publicKey, params);
    w.GiftWrapLayers(sender, a, recipient, b, params);
    if wrap.Ok? {
      LayersLength(w.primitives, w.SealOf(sender, recipient.publicKey, params).value, inner, wrap.value.content);
    }
  }

  /** With valid keys, a gift wrap can be made exactly when its rumor JSON is at most 40960 bytes long. */
  lemma GiftWrapExactly<P(!new)>(w: World<P>, sender: Signer, a: Bytes, recipient: Signer, b: Bytes,
                                 params: GiftWrapParams)
    requires w.Lawful() && w.Holds(sender, a) && w.Holds(recipient, b) && AlwaysSigns(sender)
    requires w.LocalSigner(params.ephemeralSecret).Ok?
    requires |params.sealNonce| == |params.wrapNonce| == Nip44.NONCE_SIZE
    ensures var rumor := w.RumorOf(sender.publicKey, recipient.publicKey, params);
            var wrap := w.GiftWrap(sender, recipient.publicKey, params);
            && (wrap.Ok? <==> |RumorJson(rumor)| <= MAX_RUMOR_JSON)
            && (wrap.Err? ==> wrap.error == Error.Padding("message too long"))
  {
    var inner := RumorJson(w.RumorOf(sender.publicKey, recipient.publicKey, params));
    RumorJsonNonempty(w.RumorOf(sender.publicKey, recipient.publicKey, params));
    w.EnvelopeExactly(sender, a, recipient, b, params.sealNonce, inner, SEAL, [], params.sealCreatedAt);
    if w.SealOf(sender, recipient.publicKey, params).Ok? {
      SecondLayer(w, sender, a, recipient, b, params);
    }
  }

  lemma SecondLayer<P(!new)>(w: World<P>, sender: Signer, a: Bytes, recipient: Signer, b: Bytes, params: GiftWrapParams)
    requires w.Lawful() && w.Holds(sender, a) && w.Holds(recipient, b)
    requires w.LocalSigner(params.ephemeralSecret).Ok?
    requires |params.sealNonce| == |params.wrapNonce| == Nip44.NONCE_SIZE
    requires w.SealOf(sender, recipient.publicKey, params).Ok?
    ensures var rumor := w.RumorOf(sender.publicKey, recipient.publicKey, params);
            var wrap := w.GiftWrap(sender, recipient.publicKey, params);
            && (wrap.Ok? <==> |RumorJson(rumor)| <= MAX_RUMOR_JSON)
            && (wrap.Err? ==> wrap.error == Error.Padding("message too long"))
  {
    var inner := RumorJson(w.RumorOf(sender.publicKey, recipient.publicKey, params));
    var seal := w.SealOf(sender, recipient.publicKey, params).value;
    var ephemeral := w.LocalSigner(params.ephemeralSecret).value;
    w.EnvelopeOpens(sender, a, recipient, b, params.sealNonce, inner, SEAL, [], params.sealCreatedAt);
    VerifiedSealLength(w.primitives, seal);
    TimestampWidth(params.sealCreatedAt);
    SealFits(|inner|, |Decimal(params.sealCreatedAt)|);
    w.LocalSignerHolds(params.ephemeralSecret);
    w.EnvelopeExactly(ephemeral, params.ephemeralSecret, recipient, b, params.wrapNonce, EventJson(seal), GIFT_WRAP,
                      WrapTags(recipient.publicKey), params.wrapCreatedAt);
  }

  // ---- The threshold in terms of the message ----

  /** What a text takes up between JSON quotes. */
  function EscapedLength(t: Text): nat {
    |Quote(t)| - 2
  }

  /** The rumor JSON, for a chat message from and to 32-byte keys. */
  function ChatLength(params: GiftWrapParams): nat {
    268 + |Decimal(params.rumorCreatedAt)| + EscapedLength(params.content)
    + match params.replyTo
      case None => 0
      case Some(reply) => 20 + EscapedLength(reply)
  }

  lemma ArrayTailLength<T>(enc: T -> Text, x: T, rest: seq<T>)
    ensures |ArrayTail(enc, [x] + rest)| == 1 + |enc(x)| + |ArrayTail(enc, rest)|
  {
  }

  lemma ArrayLength<T>(enc: T -> Text, x: T, rest: seq<T>)
    ensures |Array(enc, [x] + rest)| == 1 + |enc(x)| + |ArrayTail(enc, rest)|
  {
    assert ([x] + rest)[1..] == rest;
  }

  lemma RecipientTagLength(recipientHex: Text)
    requires Plain(recipientHex) && |recipientHex| == 64
    ensures |TagJson([Lit("p"), recipientHex])| == 72
  {
    PlainQuoteLength(recipientHex);
    PlainQuoteLength(Lit("p"));
    ArrayLength(Quote, Lit("p"), [recipientHex]);
    ArrayTailLength(Quote, recipientHex, []);
    assert [Lit("p")] + [recipientHex] == [Lit("p"), recipientHex] && [recipientHex] + [] == [recipientHex];
  }

  function ReplyTag(reply: Text): Tag {
    [Lit("e"), reply, [], Lit("reply")]
  }

  lemma FourEntriesLength(a: Text, b: Text, c: Text, d: Text)
    ensures |TagJson([a, b, c, d])| == 5 + |Quote(a)| + |Quote(b)| + |Quote(c)| + |Quote(d)|
  {
    ArrayLength(Quote, a, [b, c, d]);
    ArrayTailLength(Quote, b, [c, d]);
    ArrayTailLength(Quote, c, [d]);
    ArrayTailLength(Quote, d, []);
    assert [a] + [b, c, d] == [a, b, c, d];
    assert [b] + [c, d] == [b, c, d];
    assert [c] + [d] == [c, d];
    assert [d] + [] == [d];
  }

  lemma ReplyTagLength(reply: Text)
    ensures |TagJson(ReplyTag(reply))| == 19 + EscapedLength(reply)
  {
    PlainQuoteLength(Lit("e"));
    PlainQuoteLength([]);
    PlainQuoteLength(Lit("reply"));
    FourEntriesLength(Lit("e"), reply, [], Lit("reply"));
  }

  lemma RumorTagsLength(recipientHex: Text, replyTo: Option<Text>)
    requires Plain(recipientHex) && |recipientHex| == 64
    ensures |TagsJson(RumorTags(recipientHex, replyTo))| ==
            74 + match replyTo case None => 0 case Some(reply) => 20 + EscapedLength(reply)
  {
    var p := [Lit("p"), recipientHex];
    RecipientTagLength(recipientHex);
    if replyTo.Some? {
      var e := ReplyTag(replyTo.value);
      ReplyTagLength(replyTo.value);
      ArrayLength(TagJson, p, [e]);
      ArrayTailLength(TagJson, e, []);
      assert [p] + [e] == [p, e] && [e] + [] == [e];
    } else {
      ArrayLength(TagJson, p, []);
      assert [p] + [] == [p];
    }
  }

  lemma ChatRumorLength<P(!new)>(w: World<P>, senderPub: Bytes, recipient: Bytes, params: GiftWrapParams)
    requires w.Lawful() && |senderPub| == 32 && |recipient| == 32
    ensures |RumorJson(w.RumorOf(senderPub, recipient, params))| == ChatLength(params)
  {
    var rumor := w.RumorOf(senderPub, recipient, params);
    PlainQuoteLength(rumor.id);
    ObjectRowLength(rumor.fields, Lit("}"));
    RumorTagsLength(HexEncode(recipient), params.replyTo);
  }

  /** A message to oneself. */
  lemma SelfWrapFits<P(!new)>(w: World<P>, secret: Bytes, params: GiftWrapParams)
    requires w.Lawful() && w.LocalSigner(secret).Ok? && w.LocalSigner(params.ephemeralSecret).Ok?
    requires |params.sealNonce| == |params.wrapNonce| == Nip44.NONCE_SIZE
    requires ChatLength(params) <= MAX_RUMOR_JSON
    ensures var me := w.LocalSigner(secret).value; w.GiftWrap(me, me.publicKey, params).Ok?
  {
    var me := w.LocalSigner(secret).value;
    w.LocalSignerHolds(secret);
    ChatFits(w, me, secret, me, secret, params);
  }

  /** What a caller can check before wrapping: the length of the escaped message, reply and timestamp. */
  lemma ChatFits<P(!new)>(w: World<P>, sender: Signer, a: Bytes, recipient: Signer, b: Bytes, params: GiftWrapParams)
    requires w.Lawful() && w.Holds(sender, a) && w.Holds(recipient, b) && AlwaysSigns(sender)
    requires w.LocalSigner(params.ephemeralSecret).Ok?
    requires |params.sealNonce| == |params.wrapNonce| == Nip44.NONCE_SIZE
    ensures w.GiftWrap(sender, recipient.publicKey, params).Ok? <==> ChatLength(params) <= MAX_RUMOR_JSON
  {
    GiftWrapExactly(w, sender, a, recipient, b, params);
    ChatRumorLength(w, sender.publicKey, recipient.publicKey, params);
  }
}
