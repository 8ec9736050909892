/**
 Nostr events (src/event.rs): the canonical id, signing and verifying, and the JSON texts that
 the crate hashes and encrypts. SHA-256 and BIP-340 are parameters.
 */
module Events {
  import opened Basics
  import opened TextCodecs

  type Tag = seq<Text>

  datatype Event = Event(id: Text, pubkey: Text, createdAt: i64, kind: u32, tags: seq<Tag>, content: Text, sig: Text)

  /** The fields an id is computed from. */
  datatype SignedFields = SignedFields(pubkey: Text, createdAt: i64, kind: u32, tags: seq<Tag>, content: Text)

  /** SHA-256 and BIP-340 verification `(signature, message, x-only key)`. */
  datatype Primitives = Primitives(sha256: Bytes -> Bytes, schnorrVerify: (Bytes, Bytes, Bytes) -> bool) {
    ghost predicate Lawful() {
      forall b :: |sha256(b)| == 32
    }
  }

  /** The custody seam of src/signer.rs. */
  datatype Signer = Signer(publicKey: Bytes, sign: Bytes -> Result<Bytes>, conversationKey: Bytes -> Result<Bytes>)

  /** A signer whose signatures are 64 bytes long and verify under its own key. */
  ghost predicate Signs(p: Primitives, s: Signer) {
    && |s.publicKey| == 32
    && forall h {:trigger s.sign(h)} :: |h| == 32 && s.sign(h).Ok? ==>
         |s.sign(h).value| == 64 && p.schnorrVerify(s.sign(h).value, h, s.publicKey)
  }

  /** A signer that signs every 32-byte hash. */
  ghost predicate AlwaysSigns(s: Signer) {
    forall h {:trigger s.sign(h)} :: |h| == 32 ==> s.sign(h).Ok?
  }

  function FieldsOf(e: Event): SignedFields {
    SignedFields(e.pubkey, e.createdAt, e.kind, e.tags, e.content)
  }

  /** All texts are what Rust strings can be. */
  predicate Utf8Fields(f: SignedFields) {
    && Utf8(f.pubkey)
    && Utf8(f.content)
    && forall t, s :: t in f.tags && s in t ==> Utf8(s)
  }

  predicate Utf8Event(e: Event) {
    Utf8(e.id) && Utf8(e.sig) && Utf8Fields(FieldsOf(e))
  }

  // ---- JSON ----

  function TagJson(t: Tag): (q: Text)
    ensures |q| >= 1 && q[0] == 91
  {
    Array(Quote, t)
  }

  function TagsJson(tags: seq<Tag>): Text {
    Array(TagJson, tags)
  }

  /** The punctuation around the signed fields. */
  datatype Layout = Layout(
    open: Text, beforeTime: Text, beforeKind: Text, beforeTags: Text, beforeContent: Text, close: Text)

  /** `[0,pubkey,created_at,kind,tags,content]` */
  function CanonicalLayout(): Layout {
    Layout(Lit("[0,"), Lit(","), Lit(","), Lit(","), Lit(","), Lit("]"))
  }

  function ObjectLayout(): Layout {
    Layout(Lit(",\"pubkey\":"), Lit(",\"created_at\":"), Lit(",\"kind\":"), Lit(",\"tags\":"), Lit(",\"content\":"), [])
  }

  function Row(l: Layout, f: SignedFields, rest: Text): Text {
    l.open + (Quote(f.pubkey) + (l.beforeTime + (Decimal(f.createdAt) + RowFromKind(l, f, rest))))
  }

  function RowFromKind(l: Layout, f: SignedFields, rest: Text): Text {
    l.beforeKind + (Decimal(f.kind) + RowFromTags(l, f, rest))
  }

  function RowFromTags(l: Layout, f: SignedFields, rest: Text): Text {
    l.beforeTags + (TagsJson(f.tags) + RowFromContent(l, f, rest))
  }

  function RowFromContent(l: Layout, f: SignedFields, rest: Text): Text {
    l.beforeContent + (Quote(f.content) + (l.close + rest))
  }

  predicate Separates(l: Layout) {
    && l.beforeKind != [] && !(48 <= l.beforeKind[0] <= 57)
    && l.beforeTags != [] && !(48 <= l.beforeTags[0] <= 57)
  }

  function Canonical(f: SignedFields): Text {
    Row(CanonicalLayout(), f, [])
  }

  /** `serde_json::to_string` of an event. */
  function EventJson(e: Event): Text {
    Lit("{\"id\":") + (Quote(e.id) + Row(ObjectLayout(), FieldsOf(e), Lit(",\"sig\":") + (Quote(e.sig) + Lit("}"))))
  }

  /** The text an id is hashed from, part by part (NIP-01). */
  lemma CanonicalIs(f: SignedFields)
    ensures Canonical(f) == Lit("[0,") + Quote(f.pubkey) + Lit(",") + Decimal(f.createdAt) + Lit(",")
                            + Decimal(f.kind) + Lit(",") + TagsJson(f.tags) + Lit(",") + Quote(f.content) + Lit("]")
  {
    RowIs(CanonicalLayout(), f, []);
    assert Lit("]") + [] == Lit("]");
  }

  lemma RowIs(l: Layout, f: SignedFields, rest: Text)
    ensures Row(l, f, rest) == l.open + Quote(f.pubkey) + l.beforeTime + Decimal(f.createdAt) + l.beforeKind
                               + Decimal(f.kind) + l.beforeTags + TagsJson(f.tags) + l.beforeContent
                               + Quote(f.content) + (l.close + rest)
  {
    FiveInARow(l.open, Quote(f.pubkey), l.beforeTime, Decimal(f.createdAt), RowFromKind(l, f, rest));
    FiveInARow(l.beforeKind, Decimal(f.kind), l.beforeTags, TagsJson(f.tags), RowFromContent(l, f, rest));
    FourInARow(l.open + Quote(f.pubkey) + l.beforeTime + Decimal(f.createdAt),
               l.beforeKind, Decimal(f.kind), l.beforeTags, TagsJson(f.tags), RowFromContent(l, f, rest));
    ConcatAssociates(l.beforeContent, Quote(f.content), l.close + rest);
    ConcatAssociates(l.open + Quote(f.pubkey) + l.beforeTime + Decimal(f.createdAt) + l.beforeKind
                     + Decimal(f.kind) + l.beforeTags + TagsJson(f.tags), l.beforeContent, Quote(f.content));
    ConcatAssociates(l.open + Quote(f.pubkey) + l.beforeTime + Decimal(f.createdAt) + l.beforeKind
                     + Decimal(f.kind) + l.beforeTags + TagsJson(f.tags), l.beforeContent + Quote(f.content),
                     l.close + rest);
  }

  lemma FiveInARow(a: Text, b: Text, c: Text, d: Text, e: Text)
    ensures a + (b + (c + (d + e))) == a + b + c + d + e
  {
  }

  lemma FourInARow(front: Text, a: Text, b: Text, c: Text, d: Text, e: Text)
    ensures front + (a + b + c + d + e) == front + a + b + c + d + e
  {
  }

  /** The JSON of an event, member by member. */
  lemma EventJsonIs(e: Event)
    ensures EventJson(e) == Lit("{\"id\":") + Quote(e.id) + Lit(",\"pubkey\":") + Quote(e.pubkey)
                            + Lit(",\"created_at\":") + Decimal(e.createdAt) + Lit(",\"kind\":") + Decimal(e.kind)
                            + Lit(",\"tags\":") + TagsJson(e.tags) + Lit(",\"content\":") + Quote(e.content)
                            + Lit(",\"sig\":") + Quote(e.sig) + Lit("}")
  {
    var rest := Lit(",\"sig\":") + (Quote(e.sig) + Lit("}"));
    RowIs(ObjectLayout(), FieldsOf(e), rest);
    assert [] + rest == rest;
    ObjectInARow(Lit("{\"id\":"), Quote(e.id), Lit(",\"pubkey\":"), Quote(e.pubkey), Lit(",\"created_at\":"),
                 Decimal(e.createdAt), Lit(",\"kind\":"), Decimal(e.kind), Lit(",\"tags\":"), TagsJson(e.tags),
                 Lit(",\"content\":"), Quote(e.content), rest);
    AtTheEnd(Lit("{\"id\":") + Quote(e.id) + Lit(",\"pubkey\":") + Quote(e.pubkey)
             + Lit(",\"created_at\":") + Decimal(e.createdAt) + Lit(",\"kind\":") + Decimal(e.kind)
             + Lit(",\"tags\":") + TagsJson(e.tags) + Lit(",\"content\":") + Quote(e.content),
             Lit(",\"sig\":"), Quote(e.sig), Lit("}"));
  }

  lemma AtTheEnd(front: Text, a: Text, b: Text, c: Text)
    ensures front + (a + (b + c)) == front + a + b + c
  {
  }

  lemma ObjectInARow(a: Text, b: Text, c: Text, d: Text, e: Text, f: Text, g: Text, h: Text, i: Text, j: Text,
                     k: Text, l: Text, rest: Text)
    ensures a + (b + (c + d + e + f + g + h + i + j + k + l + rest))
         == a + b + c + d + e + f + g + h + i + j + k + l + rest
  {
  }

  /** Tags are an array of arrays of strings. */
  lemma TagsAre(t: Tag, tags: seq<Tag>, a: Text, more: seq<Text>)
    ensures TagsJson([]) == Lit("[]") && TagsJson([t]) == Lit("[") + TagJson(t) + Lit("]")
    ensures tags != [] ==> TagsJson([t] + tags) == Lit("[") + TagJson(t) + Lit(",") + TagsJson(tags)[1..]
    ensures TagJson([]) == Lit("[]") && TagJson([a]) == Lit("[") + Quote(a) + Lit("]")
    ensures more != [] ==> TagJson([a] + more) == Lit("[") + Quote(a) + Lit(",") + TagJson(more)[1..]
  {
    ArrayIs(TagJson, t, tags);
    ArrayIs(Quote, a, more);
  }

  lemma TagPeels(a: Tag, x: Text, b: Tag, y: Text)
    requires TagJson(a) + x == TagJson(b) + y
    ensures a == b && x == y
  {
    QuoteDelimits();
    ArrayDelimits(Quote, a, x, b, y);
  }

  lemma TagsPeel(a: seq<Tag>, x: Text, b: seq<Tag>, y: Text)
    requires TagsJson(a) + x == TagsJson(b) + y
    ensures a == b && x == y
  {
    forall s, u, t, v | TagJson(s) + u == TagJson(t) + v
      ensures s == t && u == v
    {
      TagPeels(s, u, t, v);
    }
    ArrayDelimits(TagJson, a, x, b, y);
  }

  lemma ContentPeels(l: Layout, f: SignedFields, x: Text, g: SignedFields, y: Text)
    requires RowFromContent(l, f, x) == RowFromContent(l, g, y)
    ensures f.content == g.content && x == y
  {
    SplitAt(l.beforeContent, Quote(f.content) + (l.close + x), l.beforeContent, Quote(g.content) + (l.close + y));
    QuotePeels(f.content, l.close + x, g.content, l.close + y);
    SplitAt(l.close, x, l.close, y);
  }

  lemma RowFromTagsPeels(l: Layout, f: SignedFields, x: Text, g: SignedFields, y: Text)
    requires RowFromTags(l, f, x) == RowFromTags(l, g, y)
    ensures f.tags == g.tags && f.content == g.content && x == y
  {
    var u, v := RowFromContent(l, f, x), RowFromContent(l, g, y);
    SplitAt(l.beforeTags, TagsJson(f.tags) + u, l.beforeTags, TagsJson(g.tags) + v);
    TagsPeel(f.tags, u, g.tags, v);
    ContentPeels(l, f, x, g, y);
  }

  lemma RowFromKindPeels(l: Layout, f: SignedFields, x: Text, g: SignedFields, y: Text)
    requires Separates(l) && RowFromKind(l, f, x) == RowFromKind(l, g, y)
    ensures f.kind == g.kind && f.tags == g.tags && f.content == g.content && x == y
  {
    var u, v := RowFromTags(l, f, x), RowFromTags(l, g, y);
    SplitAt(l.beforeKind, Decimal(f.kind) + u, l.beforeKind, Decimal(g.kind) + v);
    assert u[0] == l.beforeTags[0] && v[0] == l.beforeTags[0];
    DecimalDelimits(f.kind, u, g.kind, v);
    RowFromTagsPeels(l, f, x, g, y);
  }

  /** One layout never spells two different rows, whatever follows them. */
  lemma RowDelimits(l: Layout, f: SignedFields, x: Text, g: SignedFields, y: Text)
    requires Separates(l) && Row(l, f, x) == Row(l, g, y)
    ensures f == g && x == y
  {
    var u, v := RowFromKind(l, f, x), RowFromKind(l, g, y);
    var s, t := l.beforeTime + (Decimal(f.createdAt) + u), l.beforeTime + (Decimal(g.createdAt) + v);
    SplitAt(l.open, Quote(f.pubkey) + s, l.open, Quote(g.pubkey) + t);
    QuotePeels(f.pubkey, s, g.pubkey, t);
    SplitAt(l.beforeTime, Decimal(f.createdAt) + u, l.beforeTime, Decimal(g.createdAt) + v);
    assert u[0] == l.beforeKind[0] && v[0] == l.beforeKind[0];
    DecimalDelimits(f.createdAt, u, g.createdAt, v);
    RowFromKindPeels(l, f, x, g, y);
  }

  /** The text an id is hashed from determines every signed field. */
  lemma CanonicalInjective(f: SignedFields, g: SignedFields)
    requires Canonical(f) == Canonical(g)
    ensures f == g
  {
    RowDelimits(CanonicalLayout(), f, [], g, []);
  }

  lemma EventJsonInjective(e: Event, h: Event)
    requires EventJson(e) == EventJson(h)
    ensures e == h
  {
    var x, y := Quote(e.sig) + Lit("}"), Quote(h.sig) + Lit("}");
    var s := Row(ObjectLayout(), FieldsOf(e), Lit(",\"sig\":") + x);
    var t := Row(ObjectLayout(), FieldsOf(h), Lit(",\"sig\":") + y);
    SplitAt(Lit("{\"id\":"), Quote(e.id) + s, Lit("{\"id\":"), Quote(h.id) + t);
    QuotePeels(e.id, s, h.id, t);
    RowDelimits(ObjectLayout(), FieldsOf(e), Lit(",\"sig\":") + x, FieldsOf(h), Lit(",\"sig\":") + y);
    SplitAt(Lit(",\"sig\":"), x, Lit(",\"sig\":"), y);
    QuotePeels(e.sig, Lit("}"), h.sig, Lit("}"));
  }

  // ---- Ids and signatures ----

  function CalculateId(p: Primitives, f: SignedFields): Text {
    HexEncode(p.sha256(Canonical(f)))
  }

  /** `hex_id` and its siblings: hex text of exactly `n` bytes. */
  function HexBytes(t: Text, n: nat, undecodable: string, wrongLength: string): (r: Result<Bytes>)
    ensures r.Ok? ==> |r.value| == n && HexDecode(t) == Some(r.value)
  {
    match HexDecode(t)
    case None => Err(Decode(undecodable))
    case Some(b) => if |b| == n then Ok(b) else Err(InvalidLength(wrongLength))
  }

  /** `Event::create` */
  function Create(p: Primitives, s: Signer, kind: u32, tags: seq<Tag>, content: Text, createdAt: i64): Result<Event> {
    var pubkey := HexEncode(s.publicKey);
    var id := CalculateId(p, SignedFields(pubkey, createdAt, kind, tags, content));
    var idBytes :- HexBytes(id, 32, "hex id", "id != 32");
    var sig :- s.sign(idBytes);
    Ok(Event(id, pubkey, createdAt, kind, tags, content, HexEncode(sig)))
  }

  /** `Event::verify` */
  predicate Verify(p: Primitives, e: Event) {
    && CalculateId(p, FieldsOf(e)) == e.id
    && match (HexDecode(e.id), HexDecode(e.sig), HexDecode(e.pubkey))
       case (Some(id), Some(sig), Some(pubkey)) =>
         |id| == 32 && |sig| == 64 && |pubkey| == 32 && p.schnorrVerify(sig, id, pubkey)
       case _ => false
  }

  /** Whatever a signer creates, verifies; and creating fails only if signing does. */
  lemma CreatedVerifies(p: Primitives, s: Signer, kind: u32, tags: seq<Tag>, content: Text, createdAt: i64)
    requires p.Lawful() && Signs(p, s)
    ensures var h := p.sha256(Canonical(SignedFields(HexEncode(s.publicKey), createdAt, kind, tags, content)));
            Create(p, s, kind, tags, content, createdAt).Ok? <==> s.sign(h).Ok?
    ensures var r := Create(p, s, kind, tags, content, createdAt);
            r.Ok? ==>
              && Verify(p, r.value)
              && FieldsOf(r.value) == SignedFields(HexEncode(s.publicKey), createdAt, kind, tags, content)
    ensures var h := p.sha256(Canonical(SignedFields(HexEncode(s.publicKey), createdAt, kind, tags, content)));
            var r := Create(p, s, kind, tags, content, createdAt);
            && (r.Ok? ==> r.value.id == HexEncode(h) && r.value.sig == HexEncode(s.sign(h).value))
            && (r.Err? ==> s.sign(h) == Err(r.error))
  {
    var h := p.sha256(Canonical(SignedFields(HexEncode(s.publicKey), createdAt, kind, tags, content)));
    HexRoundTrip(h);
    HexRoundTrip(s.publicKey);
    if s.sign(h).Ok? {
      HexRoundTrip(s.sign(h).value);
    }
  }

  /** What verifies has the id of its own fields, and a signature over that hash under its author's key. */
  lemma VerifiesExactly(p: Primitives, e: Event)
    requires p.Lawful()
    ensures Verify(p, e) <==>
            && e.id == HexEncode(p.sha256(Canonical(FieldsOf(e))))
            && exists sig, author ::
                 && HexDecode(e.sig) == Some(sig) && HexDecode(e.pubkey) == Some(author)
                 && |sig| == 64 && |author| == 32
                 && p.schnorrVerify(sig, p.sha256(Canonical(FieldsOf(e))), author)
  {
    HexRoundTrip(p.sha256(Canonical(FieldsOf(e))));
  }

  /** Short of a SHA-256 collision, an id commits to every signed field. */
  lemma IdCommits(p: Primitives, e: Event, h: Event)
    requires Verify(p, e) && Verify(p, h) && e.id == h.id
    requires p.sha256(Canonical(FieldsOf(e))) == p.sha256(Canonical(FieldsOf(h)))
         ==> Canonical(FieldsOf(e)) == Canonical(FieldsOf(h))
    ensures FieldsOf(e) == FieldsOf(h)
  {
    HexRoundTrip(p.sha256(Canonical(FieldsOf(e))));
    HexRoundTrip(p.sha256(Canonical(FieldsOf(h))));
    CanonicalInjective(FieldsOf(e), FieldsOf(h));
  }

  // ---- Tags ----

  predicate Named(t: Tag, name: Text) {
    t != [] && t[0] == name
  }

  function FindTag(tags: seq<Tag>, name: Text): Option<Tag> {
    if tags == [] then None
    else if Named(tags[0], name) then Some(tags[0])
    else FindTag(tags[1..], name)
  }

  /** The first tag of that name, when there is one. */
  lemma {:induction false} FindsFirst(tags: seq<Tag>, name: Text, i: nat)
    requires i <= |tags| && forall j :: 0 <= j < i ==> !([name] <= tags[j])
    requires i < |tags| ==> [name] <= tags[i]
    ensures FindTag(tags, name) == if i < |tags| then Some(tags[i]) else None
    ensures TagValue(tags, name) == if i < |tags| && |tags[i]| >= 2 then Some(tags[i][1]) else None
  {
    if i > 0 {
      assert !([name] <= tags[0]);
      FindsFirst(tags[1..], name, i - 1);
    }
  }

  /** The second entry of the first tag named `name`. */
  function TagValue(tags: seq<Tag>, name: Text): Option<Text> {
    match FindTag(tags, name)
    case Some(t) => if |t| >= 2 then Some(t[1]) else None
    case None => None
  }
}
