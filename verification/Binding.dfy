/**
 UNIP-01 owner resolution (src/binding.rs). A resolution names an event by its index in the
 list. `Owns` is the rule; `ResolveFiltered` is the loop over the per-author map.
 */
module Binding {
  import opened Basics
  import opened Events
  import opened TextCodecs

  function MarkerLabel(): Text {
    Lit("unicity:nametag")
  }

  /** `has_ownership_marker` */
  predicate Marked(e: Event) {
    exists i :: 0 <= i < |e.tags| && |e.tags[i]| >= 2 && e.tags[i][0] == Lit("L") && e.tags[i][1] == MarkerLabel()
  }

  lemma MarkedExactly(e: Event)
    ensures Marked(e) <==> exists i :: 0 <= i < |e.tags| && [Lit("L"), Lit("unicity:nametag")] <= e.tags[i]
  {
    forall i | 0 <= i < |e.tags|
      ensures [Lit("L"), Lit("unicity:nametag")] <= e.tags[i] <==>
              |e.tags[i]| >= 2 && e.tags[i][0] == Lit("L") && e.tags[i][1] == MarkerLabel()
    {
    }
  }

  type Inclusion = Event -> bool

  /** `i` is its author's current binding: the latest included one, the first listed among equals. */
  ghost predicate Current(events: seq<Event>, counts: Inclusion, i: nat) {
    && i < |events|
    && counts(events[i])
    && (forall j :: 0 <= j < |events| && counts(events[j]) && events[j].pubkey == events[i].pubkey ==>
          events[j].createdAt < events[i].createdAt || (events[j].createdAt == events[i].createdAt && i <= j))
  }

  /** The rule: the only marked current binding, or the only current binding at all. */
  ghost predicate Owns(events: seq<Event>, counts: Inclusion, i: nat) {
    && Current(events, counts, i)
    && if Marked(events[i])
       then forall j: nat :: Current(events, counts, j) && Marked(events[j]) ==> j == i
       else forall j: nat :: Current(events, counts, j) ==> j == i
  }

  ghost function Owner(events: seq<Event>, counts: Inclusion): (r: Option<nat>)
    ensures r.Some? ==> Owns(events, counts, r.value)
    ensures r.None? ==> forall i :: !Owns(events, counts, i)
  {
    if i: nat :| Owns(events, counts, i) then Some(i) else None
  }

  lemma OwnerUnique(events: seq<Event>, counts: Inclusion, i: nat)
    requires Owns(events, counts, i)
    ensures Owner(events, counts) == Some(i)
  {
  }

  // ---- The loop ----

  ghost predicate Latest(latest: map<Text, nat>, events: seq<Event>, counts: Inclusion) {
    && (forall a :: a in latest ==> Current(events, counts, latest[a]) && events[latest[a]].pubkey == a)
    && (forall j :: 0 <= j < |events| && counts(events[j]) ==> events[j].pubkey in latest)
  }

  method ResolveFiltered(events: seq<Event>, counts: Inclusion) returns (r: Option<nat>)
    ensures r == Owner(events, counts)
  {
    var latest := CollectLatest(events, counts);
    var owners := CurrentBindings(events, counts, latest, true);
    if owners == [] {
      owners := CurrentBindings(events, counts, latest, false);
    }
    if |owners| == 1 {
      LoneCandidate(events, counts, owners);
      return Some(owners[0]);
    }
    ManyCandidates(events, counts, owners);
    return None;
  }

  /** What is left after marker preference: the marked current bindings, or all of them if none is marked. */
  ghost predicate Candidates(events: seq<Event>, counts: Inclusion, owners: seq<nat>) {
    && (forall i, j :: 0 <= i < j < |owners| ==> owners[i] != owners[j])
    && ((owners != [] && forall i: nat :: i in owners <==> Current(events, counts, i) && Marked(events[i]))
        || ((forall i: nat :: i in owners <==> Current(events, counts, i))
            && forall i: nat :: Current(events, counts, i) ==> !Marked(events[i])))
  }

  lemma LoneCandidate(events: seq<Event>, counts: Inclusion, owners: seq<nat>)
    requires Candidates(events, counts, owners) && |owners| == 1
    ensures Owner(events, counts) == Some(owners[0])
  {
    assert owners[0] in owners && Current(events, counts, owners[0]);
    OwnerUnique(events, counts, owners[0]);
  }

  lemma OwnerIsLoneCandidate(events: seq<Event>, counts: Inclusion, owners: seq<nat>, i: nat)
    requires Candidates(events, counts, owners) && Owns(events, counts, i)
    ensures i in owners && forall k :: k in owners ==> k == i
  {
    assert Current(events, counts, i);
    if owners != [] {
      assert owners[0] in owners && Current(events, counts, owners[0]);
    }
  }

  lemma ManyCandidates(events: seq<Event>, counts: Inclusion, owners: seq<nat>)
    requires Candidates(events, counts, owners) && |owners| != 1
    ensures Owner(events, counts) == None
  {
    if i: nat :| Owns(events, counts, i) {
      OwnerIsLoneCandidate(events, counts, owners, i);
      AnotherEntry(owners, i);
    }
  }

  /** The first loop of `resolve_filtered`. */
  method CollectLatest(events: seq<Event>, counts: Inclusion) returns (latest: map<Text, nat>)
    ensures Latest(latest, events, counts)
  {
    latest := map[];
    for i := 0 to |events|
      invariant Latest(latest, events[..i], counts)
    {
      var ev := events[i];
      assert events[..i + 1] == events[..i] + [ev];
      if counts(ev) {
        if ev.pubkey in latest {
          if ev.createdAt > events[latest[ev.pubkey]].createdAt {
            latest := latest[ev.pubkey := i];
          }
        } else {
          latest := latest[ev.pubkey := i];
        }
      }
    }
    assert events[..|events|] == events;
  }

  lemma AnotherEntry(s: seq<nat>, x: nat)
    requires x in s && |s| != 1 && forall i, j :: 0 <= i < j < |s| ==> s[i] != s[j]
    ensures exists y :: y in s && y != x
  {
    assert s[0] in s && s[1] in s && s[0] != s[1];
  }

  /** `owners` are the current bindings of all authors but those in `todo`. */
  ghost predicate Taken(events: seq<Event>, counts: Inclusion, latest: map<Text, nat>, onlyMarked: bool,
                        todo: set<Text>, owners: seq<nat>) {
    && (forall i, j :: 0 <= i < j < |owners| ==> owners[i] != owners[j])
    && (forall i: nat :: i in owners <==>
          && Current(events, counts, i) && events[i].pubkey in latest && events[i].pubkey !in todo
          && (onlyMarked ==> Marked(events[i])))
  }

  lemma CurrentIsLatest(events: seq<Event>, counts: Inclusion, latest: map<Text, nat>, i: nat)
    requires Latest(latest, events, counts) && Current(events, counts, i)
    ensures events[i].pubkey in latest && latest[events[i].pubkey] == i
  {
    assert Current(events, counts, latest[events[i].pubkey]);
  }

  lemma TakesOne(events: seq<Event>, counts: Inclusion, latest: map<Text, nat>, onlyMarked: bool,
                 todo: set<Text>, owners: seq<nat>, a: Text)
    requires Latest(latest, events, counts) && a in todo && a in latest
    requires Taken(events, counts, latest, onlyMarked, todo, owners)
    ensures Taken(events, counts, latest, onlyMarked, todo - {a},
                  owners + if !onlyMarked || Marked(events[latest[a]]) then [latest[a]] else [])
  {
    assert Current(events, counts, latest[a]) && events[latest[a]].pubkey == a;
    forall i: nat | Current(events, counts, i) && events[i].pubkey == a
      ensures i == latest[a]
    {
      CurrentIsLatest(events, counts, latest, i);
    }
  }

  /** `latest.values()`, in some order, all of them or only the marked ones. */
  method CurrentBindings(events: seq<Event>, ghost counts: Inclusion, latest: map<Text, nat>, onlyMarked: bool)
    returns (owners: seq<nat>)
    requires Latest(latest, events, counts)
    ensures forall i, j :: 0 <= i < j < |owners| ==> owners[i] != owners[j]
    ensures forall i: nat :: i in owners <==> Current(events, counts, i) && (onlyMarked ==> Marked(events[i]))
  {
    owners := [];
    var todo := latest.Keys;
    while todo != {}
      invariant todo <= latest.Keys
      invariant Taken(events, counts, latest, onlyMarked, todo, owners)
      decreases |todo|
    {
      var a :| a in todo;
      var idx := latest[a];
      TakesOne(events, counts, latest, onlyMarked, todo, owners, a);
      todo := todo - {a};
      if !onlyMarked || Marked(events[idx]) {
        owners := owners + [idx];
      } else {
        assert owners + [] == owners;
      }
    }
    AllTaken(events, counts, latest, onlyMarked, owners);
  }

  lemma AllTaken(events: seq<Event>, counts: Inclusion, latest: map<Text, nat>, onlyMarked: bool, owners: seq<nat>)
    requires Latest(latest, events, counts) && Taken(events, counts, latest, onlyMarked, {}, owners)
    ensures forall i: nat :: i in owners <==> Current(events, counts, i) && (onlyMarked ==> Marked(events[i]))
  {
    forall i: nat | Current(events, counts, i)
      ensures events[i].pubkey in latest
    {
      CurrentIsLatest(events, counts, latest, i);
    }
  }

  // ---- Bindings for a nametag ----

  const APP_DATA: u32 := 30078

  datatype BindingContent = BindingContent(
    nametagHash: Text, address: Text, verified: i64,
    encryptedNametag: Option<Text>, nametag: Option<Text>, publicKey: Option<Text>,
    l1Address: Option<Text>, directAddress: Option<Text>, proxyAddress: Option<Text>)

  predicate Utf8Content(c: BindingContent) {
    && Utf8(c.nametagHash) && Utf8(c.address)
    && OptUtf8(c.encryptedNametag) && OptUtf8(c.nametag) && OptUtf8(c.publicKey)
    && OptUtf8(c.l1Address) && OptUtf8(c.directAddress) && OptUtf8(c.proxyAddress)
  }

  datatype IdentityParams = IdentityParams(
    publicKey: Option<Text>, l1Address: Option<Text>, directAddress: Option<Text>, proxyAddress: Option<Text>)

  /**
   What resolution needs from elsewhere: the salted hashes of src/nametag.rs, and the JSON of a
   binding's content, written by `contentJson` and read field by field by `contentString`
   (None for a field that is missing or not a string, and for content that is no JSON object).
   */
  datatype Registry = Registry(
    p: Primitives,
    isValidNametag: Text -> bool,
    hashNametag: Text -> Text,
    hashAddress: Text -> Text,
    contentJson: BindingContent -> Text,
    contentString: (Text, Text) -> Option<Text>)
  {
    ghost predicate Lawful() {
      && p.Lawful()
      && (forall t :: |hashNametag(t)| == 64)
      && (forall c :: Utf8Content(c) ==>
            && contentString(contentJson(c), Lit("nametag_hash")) == Some(c.nametagHash)
            && contentString(contentJson(c), Lit("address")) == Some(c.address))
    }

    predicate NonEmptyString(content: Text, key: Text) {
      contentString(content, key).Some? && contentString(content, key).value != []
    }

    /** `is_valid_binding_event` */
    predicate IsValidBinding(e: Event) {
      && e.kind == APP_DATA
      && TagValue(e.tags, Lit("d")).Some?
      && NonEmptyString(e.content, Lit("nametag_hash"))
      && NonEmptyString(e.content, Lit("address"))
      && Verify(p, e)
    }

    /** What `resolve_nametag_owner` counts. */
    predicate BindsNametag(nametag: Text, e: Event) {
      IsValidBinding(e) && TagValue(e.tags, Lit("d")) == Some(hashNametag(nametag))
    }

    function ForNametag(nametag: Text): Inclusion {
      e => BindsNametag(nametag, e)
    }
  }

  /** What counts for a nametag, clause by clause. */
  lemma BindsExactly(reg: Registry, nametag: Text, e: Event)
    ensures reg.ForNametag(nametag)(e) <==>
            && e.kind == 30078
            && TagValue(e.tags, Lit("d")) == Some(reg.hashNametag(nametag))
            && (exists h :: reg.contentString(e.content, Lit("nametag_hash")) == Some(h) && h != [])
            && (exists a :: reg.contentString(e.content, Lit("address")) == Some(a) && a != [])
            && Verify(reg.p, e)
  {
  }

  method ResolveOwner(p: Primitives, events: seq<Event>) returns (r: Option<nat>)
    ensures r == Owner(events, e => Verify(p, e))
  {
    r := ResolveFiltered(events, e => Verify(p, e));
  }

  method ResolveNametagOwner(reg: Registry, events: seq<Event>, nametag: Text) returns (r: Option<nat>)
    ensures r == Owner(events, reg.ForNametag(nametag))
  {
    r := ResolveFiltered(events, reg.ForNametag(nametag));
  }

  method ResolveNametagPubkey(reg: Registry, events: seq<Event>, nametag: Text) returns (r: Option<Text>)
    ensures r.Some? <==> Owner(events, reg.ForNametag(nametag)).Some?
    ensures r.Some? ==> r.value == events[Owner(events, reg.ForNametag(nametag)).value].pubkey
  {
    var owner := ResolveNametagOwner(reg, events, nametag);
    return if owner.Some? then Some(events[owner.value].pubkey) else None;
  }

  function Addresses(identity: Option<IdentityParams>): set<Text> {
    match identity
    case None => {}
    case Some(id) =>
      set o | o in {id.publicKey, id.l1Address, id.directAddress, id.proxyAddress} && o.Some? :: o.value
  }

  function AddressTag(reg: Registry, address: Text): Tag {
    [Lit("t"), reg.hashAddress(address)]
  }

  function BaseTags(reg: Registry, hashed: Text, address: Text): seq<Tag> {
    [
      [Lit("d"), hashed],
      [Lit("L"), MarkerLabel()],
      [Lit("nametag"), hashed],
      [Lit("t"), hashed],
      [Lit("address"), address],
      AddressTag(reg, address)
    ]
  }

  /** One address of an identity: found under its hash, and listed in plain if there is a tag name for that. */
  function IdentityTags(reg: Registry, plain: Option<Text>, address: Option<Text>): seq<Tag> {
    match (address, plain)
    case (None, _) => []
    case (Some(a), None) => [AddressTag(reg, a)]
    case (Some(a), Some(name)) => [AddressTag(reg, a), [name, a]]
  }

  function BindingTagsOf(reg: Registry, hashed: Text, address: Text, identity: Option<IdentityParams>): seq<Tag> {
    BaseTags(reg, hashed, address) +
    match identity
    case None => []
    case Some(id) => IdentityTags(reg, Some(Lit("pubkey")), id.publicKey)
                     + IdentityTags(reg, Some(Lit("l1")), id.l1Address)
                     + IdentityTags(reg, None, id.directAddress) + IdentityTags(reg, None, id.proxyAddress)
  }

  /** A binding is found under the nametag, and under every address it names. */
  lemma FoundUnder(reg: Registry, hashed: Text, address: Text, identity: Option<IdentityParams>)
    ensures var tags := BindingTagsOf(reg, hashed, address, identity);
            && |tags| >= 2 && tags[0] == [Lit("d"), hashed] && tags[1] == [Lit("L"), MarkerLabel()]
            && [Lit("t"), hashed] in tags
            && forall a :: a == address || a in Addresses(identity) ==> AddressTag(reg, a) in tags
  {
  }

  method BindingTags(reg: Registry, hashed: Text, address: Text, identity: Option<IdentityParams>)
    returns (tags: seq<Tag>)
    ensures tags == BindingTagsOf(reg, hashed, address, identity)
  {
    tags := BaseTags(reg, hashed, address);
    if identity.Some? {
      var id := identity.value;
      ghost var base := tags;
      tags := PushIdentity(reg, tags, Some(Lit("pubkey")), id.publicKey);
      tags := PushIdentity(reg, tags, Some(Lit("l1")), id.l1Address);
      tags := PushIdentity(reg, tags, None, id.directAddress);
      tags := PushIdentity(reg, tags, None, id.proxyAddress);
      FourPushes(base, IdentityTags(reg, Some(Lit("pubkey")), id.publicKey),
                 IdentityTags(reg, Some(Lit("l1")), id.l1Address),
                 IdentityTags(reg, None, id.directAddress), IdentityTags(reg, None, id.proxyAddress));
    }
  }

  lemma FourPushes<T>(base: seq<T>, a: seq<T>, b: seq<T>, c: seq<T>, d: seq<T>)
    ensures base + a + b + c + d == base + (a + b + c + d)
  {
  }

  method PushIdentity(reg: Registry, before: seq<Tag>, plain: Option<Text>, address: Option<Text>)
    returns (tags: seq<Tag>)
    ensures tags == before + IdentityTags(reg, plain, address)
  {
    tags := before;
    if address.Some? {
      tags := tags + [AddressTag(reg, address.value)];
      if plain.Some? {
        tags := tags + [[plain.value, address.value]];
      }
    }
  }

  /** The content of a binding; an identity adds its addresses, the plain nametag and the encrypted one. */
  function ContentOf(hashed: Text, address: Text, verified: i64, nametag: Text,
                     identity: Option<IdentityParams>, encryptedNametag: Option<Text>): BindingContent {
    match identity
    case None => BindingContent(hashed, address, verified, None, None, None, None, None, None)
    case Some(id) => BindingContent(hashed, address, verified, encryptedNametag, Some(nametag),
                                    id.publicKey, id.l1Address, id.directAddress, id.proxyAddress)
  }

  /** The fields that a new binding is signed with. */
  function BindingFields(reg: Registry, s: Signer, nametag: Text, address: Text, verified: i64, createdAt: i64,
                         identity: Option<IdentityParams>, encryptedNametag: Option<Text>): SignedFields {
    var hashed := reg.hashNametag(nametag);
    SignedFields(HexEncode(s.publicKey), createdAt, APP_DATA, BindingTagsOf(reg, hashed, address, identity),
                 reg.contentJson(ContentOf(hashed, address, verified, nametag, identity, encryptedNametag)))
  }

  /** What `create_binding_event` computes: nothing but the nametag is checked. */
  function BindingEventOf(reg: Registry, s: Signer, nametag: Text, address: Text, verified: i64, createdAt: i64,
                          identity: Option<IdentityParams>, encryptedNametag: Option<Text>): Result<Event> {
    if !reg.isValidNametag(nametag) then Err(Malformed("invalid nametag"))
    else
      var f := BindingFields(reg, s, nametag, address, verified, createdAt, identity, encryptedNametag);
      Create(reg.p, s, APP_DATA, f.tags, f.content, createdAt)
  }

  method CreateBindingEvent(reg: Registry, s: Signer, nametag: Text, address: Text, verified: i64, createdAt: i64,
                            identity: Option<IdentityParams>, encryptedNametag: Option<Text>)
    returns (r: Result<Event>)
    ensures r == BindingEventOf(reg, s, nametag, address, verified, createdAt, identity, encryptedNametag)
  {
    if !reg.isValidNametag(nametag) {
      return Err(Malformed("invalid nametag"));
    }
    var hashed := reg.hashNametag(nametag);
    var tags := BindingTags(reg, hashed, address, identity);
    var content := BindingContent(hashed, address, verified, None, None, None, None, None, None);
    if identity.Some? {
      var id := identity.value;
      content := content.(encryptedNametag := encryptedNametag, nametag := Some(nametag), publicKey := id.publicKey,
                          l1Address := id.l1Address, directAddress := id.directAddress,
                          proxyAddress := id.proxyAddress);
    }
    r := Create(reg.p, s, APP_DATA, tags, reg.contentJson(content), createdAt);
  }

  /**
   A binding can be made exactly for a valid nametag whose event the signer signs, with any address.
   What is signed verifies, carries the fields above, is marked and indexed; it is a valid binding,
   and on its own resolves to its author, exactly when the address is not empty.
   */
  lemma BindingMeans(reg: Registry, s: Signer, nametag: Text, address: Text, verified: i64, createdAt: i64,
                     identity: Option<IdentityParams>, encryptedNametag: Option<Text>)
    requires reg.Lawful() && Signs(reg.p, s)
    requires Utf8Content(ContentOf(reg.hashNametag(nametag), address, verified, nametag, identity, encryptedNametag))
    ensures var r := BindingEventOf(reg, s, nametag, address, verified, createdAt, identity, encryptedNametag);
            var f := BindingFields(reg, s, nametag, address, verified, createdAt, identity, encryptedNametag);
            && (r.Ok? <==> reg.isValidNametag(nametag) && s.sign(reg.p.sha256(Canonical(f))).Ok?)
            && (r.Ok? ==> FieldsOf(r.value) == f && MeansBinding(reg, r.value, nametag, address, identity))
  {
    var f := BindingFields(reg, s, nametag, address, verified, createdAt, identity, encryptedNametag);
    var r := BindingEventOf(reg, s, nametag, address, verified, createdAt, identity, encryptedNametag);
    CreatedVerifies(reg.p, s, APP_DATA, f.tags, f.content, createdAt);
    if r.Ok? {
      SignedBinding(reg, r.value, f, nametag, address, identity,
                    ContentOf(reg.hashNametag(nametag), address, verified, nametag, identity, encryptedNametag));
    }
  }

  /** A binding, tag by tag and field by field. */
  lemma BindingWritten(reg: Registry, s: Signer, nametag: Text, address: Text, verified: i64, createdAt: i64,
                       identity: Option<IdentityParams>, encryptedNametag: Option<Text>)
    requires reg.Lawful() && Signs(reg.p, s)
    ensures var r := BindingEventOf(reg, s, nametag, address, verified, createdAt, identity, encryptedNametag);
            var h := reg.hashNametag(nametag);
            var base := [[Lit("d"), h], [Lit("L"), Lit("unicity:nametag")], [Lit("nametag"), h], [Lit("t"), h],
                         [Lit("address"), address], [Lit("t"), reg.hashAddress(address)]];
            r.Ok? ==>
              && r.value.kind == 30078 && r.value.createdAt == createdAt
              && r.value.pubkey == HexEncode(s.publicKey)
              && match identity
                 case None =>
                   && r.value.tags == base
                   && r.value.content == reg.contentJson(BindingContent(
                        nametagHash := h, address := address, verified := verified, encryptedNametag := None,
                        nametag := None, publicKey := None, l1Address := None, directAddress := None,
                        proxyAddress := None))
                 case Some(id) =>
                   && r.value.tags == base
                      + (match id.publicKey
                         case None => []
                         case Some(a) => [[Lit("t"), reg.hashAddress(a)], [Lit("pubkey"), a]])
                      + (match id.l1Address
                         case None => []
                         case Some(a) => [[Lit("t"), reg.hashAddress(a)], [Lit("l1"), a]])
                      + (match id.directAddress case None => [] case Some(a) => [[Lit("t"), reg.hashAddress(a)]])
                      + (match id.proxyAddress case None => [] case Some(a) => [[Lit("t"), reg.hashAddress(a)]])
                   && r.value.content == reg.contentJson(BindingContent(
                        nametagHash := h, address := address, verified := verified,
                        encryptedNametag := encryptedNametag, nametag := Some(nametag), publicKey := id.publicKey,
                        l1Address := id.l1Address, directAddress := id.directAddress,
                        proxyAddress := id.proxyAddress))
  {
    var f := BindingFields(reg, s, nametag, address, verified, createdAt, identity, encryptedNametag);
    CreatedVerifies(reg.p, s, APP_DATA, f.tags, f.content, createdAt);
    if identity.Some? {
      var id := identity.value;
      FourPushes(BaseTags(reg, reg.hashNametag(nametag), address), IdentityTags(reg, Some(Lit("pubkey")), id.publicKey),
                 IdentityTags(reg, Some(Lit("l1")), id.l1Address),
                 IdentityTags(reg, None, id.directAddress), IdentityTags(reg, None, id.proxyAddress));
    }
  }

  /** What a binding is good for. */
  ghost predicate MeansBinding(reg: Registry, e: Event, nametag: Text, address: Text,
                               identity: Option<IdentityParams>) {
    && Verify(reg.p, e)
    && Marked(e)
    && TagValue(e.tags, Lit("d")) == Some(reg.hashNametag(nametag))
    && [Lit("t"), reg.hashNametag(nametag)] in e.tags
    && (forall a :: a == address || a in Addresses(identity) ==> AddressTag(reg, a) in e.tags)
    && (reg.IsValidBinding(e) <==> address != [])
    && (Owner([e], reg.ForNametag(nametag)) == Some(0) <==> address != [])
  }

  lemma SignedBinding(reg: Registry, e: Event, f: SignedFields, nametag: Text, address: Text,
                      identity: Option<IdentityParams>, content: BindingContent)
    requires reg.Lawful() && Verify(reg.p, e) && FieldsOf(e) == f && f.kind == APP_DATA
    requires f.content == reg.contentJson(content) && Utf8Content(content)
    requires content.nametagHash == reg.hashNametag(nametag) && content.address == address
    requires f.tags == BindingTagsOf(reg, reg.hashNametag(nametag), address, identity)
    ensures MeansBinding(reg, e, nametag, address, identity)
  {
    assert e.kind == f.kind && e.tags == f.tags && e.content == f.content;
    FoundUnder(reg, reg.hashNametag(nametag), address, identity);
    NewBindingCounts(reg, e, nametag, content);
  }

  /** So an empty address is accepted: with a signer that signs every hash, any valid nametag gets a binding. */
  lemma AnyAddressAccepted(reg: Registry, s: Signer, nametag: Text, address: Text, verified: i64, createdAt: i64,
                           identity: Option<IdentityParams>, encryptedNametag: Option<Text>)
    requires reg.Lawful() && Signs(reg.p, s) && AlwaysSigns(s) && reg.isValidNametag(nametag)
    ensures BindingEventOf(reg, s, nametag, address, verified, createdAt, identity, encryptedNametag).Ok?
  {
    var f := BindingFields(reg, s, nametag, address, verified, createdAt, identity, encryptedNametag);
    CreatedVerifies(reg.p, s, APP_DATA, f.tags, f.content, createdAt);
  }

  lemma NewBindingCounts(reg: Registry, e: Event, nametag: Text, content: BindingContent)
    requires reg.Lawful() && Verify(reg.p, e)
    requires e.kind == APP_DATA && e.content == reg.contentJson(content)
    requires content.nametagHash == reg.hashNametag(nametag) && Utf8Content(content)
    requires |e.tags| >= 2
    requires e.tags[0] == [Lit("d"), reg.hashNametag(nametag)] && e.tags[1] == [Lit("L"), MarkerLabel()]
    ensures Marked(e) && TagValue(e.tags, Lit("d")) == Some(reg.hashNametag(nametag))
    ensures reg.IsValidBinding(e) <==> content.address != []
    ensures Owner([e], reg.ForNametag(nametag)) == Some(0) <==> content.address != []
  {
    LeadingTags(e, reg.hashNametag(nametag));
    ContentReads(reg, e, content);
    LoneOwner(e, reg.ForNametag(nametag));
  }

  lemma LeadingTags(e: Event, hashed: Text)
    requires |e.tags| >= 2 && e.tags[0] == [Lit("d"), hashed] && e.tags[1] == [Lit("L"), MarkerLabel()]
    ensures Marked(e) && TagValue(e.tags, Lit("d")) == Some(hashed)
  {
    assert e.tags[1][0] == Lit("L") && e.tags[1][1] == MarkerLabel();
    assert FindTag(e.tags, Lit("d")) == Some(e.tags[0]);
  }

  lemma ContentReads(reg: Registry, e: Event, content: BindingContent)
    requires reg.Lawful() && Verify(reg.p, e) && e.kind == APP_DATA && TagValue(e.tags, Lit("d")).Some?
    requires e.content == reg.contentJson(content) && |content.nametagHash| == 64 && Utf8Content(content)
    ensures reg.IsValidBinding(e) <==> content.address != []
  {
  }

  /** A list of one resolves to it if it counts, whatever else is true of it. */
  lemma LoneOwner(e: Event, counts: Inclusion)
    ensures Owner([e], counts) == if counts(e) then Some(0) else None
  {
    if counts(e) {
      assert Owns([e], counts, 0);
    }
  }
}
