# A verified model of the Nostr SDK's hard core

A Dafny model of the parts of this SDK whose correctness is not visible from any single function:
the bech32 codec and its checksum, the choice of a nametag's owner, the padded and sealed payloads
with their key agreement, gift-wrapped messages, and the client's conversation with a relay.
`dafny verify dfyconfig.toml` checks all of it.

## How it is organised

- `Basics`: machine integers, byte strings, results and the crate's errors. A string is its UTF-8
  bytes, because every length the code looks at is a length in bytes.
- `BitStreams`, `BitRegrouping`: `convert_bits` as a stream of bits. The loop with its truncating
  32-bit accumulator is proved to compute `Regrouped`, the same bits cut into other groups.
- `Words`: the machine words behind that accumulator; shifting and ORing is the arithmetic used.
- `ShiftRegister`, `Bech32Checksum`, `Bech32`, `ErrorPatterns`, `CheckPolynomial`: the checksum as a
  30-bit register over `bv32`. What error detection needs of the generator is one fact,
  `Invertible`; the burst theorems are proved for every such register and data of any length, then
  `encode` and `decode` are characterised, and the errors that go unnoticed. The generator words
  are derived from the polynomial of BIP-173.
- `KnownAnswers`: a published test vector and the alphabet of bech32.
- `TextCodecs`, `Events`: valid UTF-8, hex, decimal and the exact JSON the crate writes, spelled out
  and proved to be readable back in one way; event ids, signing and verifying.
- `Binding`, `Resolution`, `ListingOrder`: the resolver's loop, and what it depends on: never on
  timestamps across authors, never on events that do not count, and on the order of listing only
  in the cases `Settled` rules out.
- `Dialogue`, `Exchanges`, `Relay`, `Transcripts`, `Runs`, `MultiRelay`: the relay client as a class
  over a connection that plays an arbitrary finite script and then breaks; the contracts of
  `publish` and `query` for every script, and what they come to entry by entry; whole runs of
  calls; and the merged query of several relays.
- `Padding`, `Base64`, `Secp`, `Nip44`: bucketed padding, strict base64, ECDH over an abstract
  commutative group, conversation keys, and payloads.
- `Nip17`, `GiftWrapSizes`: the three layers of a gift wrap, and the sharp limit on their size.
- `LawInstance`: a small world and a registry in which every law below holds, a gift wrap that can
  be made in it, and events that verify in it and show what can go wrong with resolution; so no
  theorem with such a law as its hypothesis is empty.

## What is assumed, and of what

Code from other crates is a parameter, and its laws are hypotheses collected in predicates named
`Lawful`: SHA-256 gives 32 bytes; HKDF fills the buffer asked for (RFC 5869); the AEAD seals to 16
bytes more and opens what it sealed (section 2.8 of RFC 8439); curve points form a commutative
group, opposite points share an x coordinate, and lifting an x coordinate gives one of the two;
BIP-340 signing with a valid key succeeds and verifies; JSON parsing inverts the JSON written
here, for events, rumors and binding contents whose texts are valid UTF-8 (section 4 of RFC 3629),
as those of Rust strings are. The Schnorr and the ECDH view of an x-only key are one function.
Collision-freedom of SHA-256 is assumed only for the events at hand, where it is needed. The clock
and the outcome of a send are arbitrary functions of how many sends have been attempted.

Signers are a record of functions, as the signer trait has it; `Holds` says that one answers as the
holder of a secret would, so the gift-wrap theorems cover remote signers as well as local ones.

## Findings

- `decode` lowercases first, so mixed-case strings decode (`MixedCaseDecodes`), unlike in BIP-173; `encode` does not
  enforce the limit of 90 characters. `DecodesExactly` and `DecodeInvertsEncode` say precisely
  what remains: the round trip holds if and only if the prefix is non-empty and without capitals
  and the length, known beforehand, is at most 90.
- Six consecutive wrong symbols are always detected, at any length. Seven go unnoticed exactly for
  31 patterns of differences (`SevenHideExactly`), and there are strings that show it
  (`SevenWrongCharacters`).
- The resolver breaks ties between equal timestamps of one author by order of listing.
  `OrderIrrelevantExactly` gives the exact condition under which the order cannot matter to who
  is resolved; its failure is always a tie between a marked and an unmarked event. `OrderMatters`
  has three events at which it does matter, and `OrderMattersHere` three that verify.
- An author is a text, and verification decodes capitals too. So one key can speak as two authors,
  who then stand in each other's way (`TwoSpellingsNoOwner`). It cannot happen when the counted
  events spell their keys without capitals (`AuthorsAreKeys`).
- `create_binding_event` accepts an empty address (`AnyAddressAccepted`), and what it then signs is
  no valid binding and never resolves (`BindingMeans`, `InvalidNeverOwns`).
- `unwrap` verifies a seal's signature over the id the seal states and does not recompute that id,
  as the source says of its reference implementation. The signature commits to what the seal
  contains if and only if `Event::verify` holds of the seal (`SealCommitsExactly`); it can fail
  (`StatedIdSuffices`), and never does for seals made here (`GiftWrapLayers`). The caller of `unwrap`
  is not given the seal: to check it, a recipient has to decrypt the wrap's content once more.
- The event id that `unwrap` reports, meant for recognising repeated deliveries, is the one the wrap
  states. Copies of a valid wrap report one id exactly when each states the id of its own fields,
  which verifying the wrap beforehand ensures (`CopiesReportOneIdExactly`).
- A gift wrap can be made exactly when its rumor JSON is at most 40960 bytes, although a single
  layer takes 65535: the next padding bucket grows to 65596 characters in base64.
- Subscription ids repeat exactly after 2^64 queries (the counter is modelled as wrapping, which
  is what release builds do).

## Model

| member | source | states |
|---|---|---|
| Words.OrIsPush | src/crypto/bech32.rs:66-69 | At each of the eight widths, for a value that passes the width check, the shifted and ORed 32-bit word stands for the pushed number, high bits dropped; ConvertBits then works on these numbers |
| BitRegrouping.ConvertBits | src/crypto/bech32.rs:59-84 | For all widths from 1 to 8, the result is the input's bit string cut into groups of the other width; None exactly on an oversized group, or without padding on a long or nonzero leftover |
| BitRegrouping.Drain | src/crypto/bech32.rs:71-74 | Emitting groups keeps everything consumed equal to everything emitted plus the pending bits, and leaves less than one group pending |
| BitRegrouping.Finish | src/crypto/bech32.rs:76-83 | From what is pending, the padded last group or the rejection comes out as the bit string demands |
| BitRegrouping.NarrowThenWiden | src/crypto/bech32.rs:59-84 | Bytes regrouped with padding into groups of any width come back unchanged without padding |
| BitRegrouping.WidenThenNarrow | src/crypto/bech32.rs:59-84 | Whatever the unpadded direction accepts is what the padded direction writes for its result |
| ShiftRegister.StepInjective | src/crypto/bech32.rs:16-22 | For any invertible feedback, one step keeps different registers different |
| ShiftRegister.FoldWindow | src/crypto/bech32.rs:13-25 | Up to six symbols enter the register linearly: they appear XORed over what zeros would leave |
| ShiftRegister.WindowDetected | src/crypto/bech32.rs:13-25 | Two different windows of at most six symbols never lead to one register, however long what follows |
| Bech32Checksum.Polymod | src/crypto/bech32.rs:13-25 | The nested loops compute the fold of the register step over all values |
| Bech32Checksum.ApplyFeedback | src/crypto/bech32.rs:18-22 | The five conditional XORs add up to the feedback of the five bits shifted out |
| Bech32Checksum.FeedbackInvertible | src/crypto/bech32.rs:11-22 | The generator's feedback stays in 30 bits, and its low five bits determine what was shifted out |
| CheckPolynomial.FeedbackIsMultiple | src/crypto/bech32.rs:11-22 | The feedback of a symbol is that symbol, in the field of 32 elements, times the coefficients 29, 22, 20, 21, 29, 18 of the polynomial by which BIP-173 defines the checksum: all five generator words follow from it |
| Bech32Checksum.HrpExpand | src/crypto/bech32.rs:27-38 | The loops give the expansion that ExpansionExactly describes |
| Bech32Checksum.ExpansionExactly | src/crypto/bech32.rs:27-38 | Entry i and entry n + 1 + i of the expansion of n letters are the high and the low five bits of letter i, and entry n is zero |
| Bech32Checksum.VerifyChecksum | src/crypto/bech32.rs:40-44 | Accepts exactly when prefix and data leave the register at 1 |
| Bech32Checksum.CreateChecksum | src/crypto/bech32.rs:46-56 | The six symbols are the checksum that ChecksumExistsUniquely is about |
| Bech32Checksum.ChecksumExistsUniquely | src/crypto/bech32.rs:40-56 | For every prefix and data, six symbols verify when appended if and only if they are the created checksum |
| Bech32Checksum.BurstDetected | src/crypto/bech32.rs:13-44 | Under one prefix, two verifying sequences of any length that differ only within six consecutive symbols are equal |
| Bech32Checksum.PrefixesApart | src/crypto/bech32.rs:27-44 | The checksum covers the prefix: no data verifies under two prefixes that differ only in the low bits of at most six consecutive letters |
| ErrorPatterns.UndetectedExactly | src/crypto/bech32.rs:13-44 | For any prefix, surroundings and length: when one of two sequences verifies, the other does if and only if their differences alone leave a zero register at zero |
| ErrorPatterns.SevenHideExactly | src/crypto/bech32.rs:13-44 | An error within seven consecutive symbols goes unnoticed if and only if its differences are a leading symbol followed by that symbol's feedback: 31 patterns, whatever the data |
| ErrorPatterns.SevenCanHide | src/crypto/bech32.rs:13-44 | Six is sharp: each of these patterns is nonzero and verifies, in any surroundings, exactly when seven zeros do |
| ErrorPatterns.SevenWrongCharacters | src/crypto/bech32.rs:100-125 | For every lowercase prefix of up to 75 bytes and every pattern: two strings that both decode, to different bytes, and agree outside seven consecutive characters |
| Bech32.Encode | src/crypto/bech32.rs:87-97 | The built string is prefix, separator, and the characters of regrouped data and checksum |
| Bech32.Decode | src/crypto/bech32.rs:100-125 | The loops decide as Decoded does, error by error; DecodesExactly says what that means |
| Bech32.PartsExactly | src/crypto/bech32.rs:118-124 | A sequence of symbols is accepted for given bytes if and only if it is what encoding them writes |
| Bech32.DecodesExactly | src/crypto/bech32.rs:87-125 | A string decodes to (prefix, bytes) if and only if lowercased it is their encoding, the prefix is non-empty and without capitals, and the length is at most 90 |
| Bech32.DecodeErrors | src/crypto/bech32.rs:100-125 | Which error a string with a separator gets: length before alphabet before checksum, each exactly in its case |
| Bech32.NoSeparator | src/crypto/bech32.rs:101-104 | That error exactly for strings without a separator |
| Bech32.EncodingHasLength | src/crypto/bech32.rs:87-97 | Encoding never fails, and its length is known from the lengths of prefix and data |
| Bech32.DecodeInvertsEncode | src/crypto/bech32.rs:87-125 | Decoding undoes encoding if and only if the prefix is non-empty and without capitals (it may contain the separator) and the encoded length is at most 90 |
| Bech32.DecodeInjectiveUpToCase | src/crypto/bech32.rs:100-125 | Two strings with one decoding differ only in letter case |
| Bech32.MixedCaseDecodes | src/crypto/bech32.rs:100-101 | A string with both a capital and a small letter decodes |
| Bech32.DecodingDetectsBurst | src/crypto/bech32.rs:100-125 | Two strings that decode under one prefix and agree, up to case, outside six consecutive characters are equal up to case |
| Bech32.PrefixesDecodeApart | src/crypto/bech32.rs:100-125 | Whatever stands behind the separator decodes under one of two such prefixes only |
| KnownAnswers.ShortestString | src/crypto/bech32.rs:87-125 | BIP-173's string A12UEL5L decodes to the prefix a and no bytes |
| KnownAnswers.Alphabet | src/crypto/bech32.rs:10-10 | The 32 characters, in the order of BIP-173 |
| Bech32.NpubExactly | src/crypto/bech32.rs:128-145 | A string is the npub of a key if and only if lowercased it is that key's encoding, and it is then never an nsec |
| Bech32.NsecExactly | src/crypto/bech32.rs:133-155 | The same for nsec |
| Bech32.RelabelledFails | src/crypto/bech32.rs:138-155 | An npub relabelled as nsec, or the other way round, does not decode |
| Bech32.KeyErrors | src/crypto/bech32.rs:138-155 | Another prefix and another length are refused, in this order and with their errors |
| TextCodecs.HexRoundTrip | src/event.rs:62-66 | Hex decoding undoes hex encoding |
| TextCodecs.HexDigits | src/event.rs:51-51 | Hex is two small digits a byte, the high one first |
| TextCodecs.HexDecodesExactly | src/event.rs:91-101 | A text decodes to bytes if and only if in small letters it is their encoding |
| TextCodecs.HexSpelledOnce | src/event.rs:91-101 | Among the texts without capitals, only the encoding decodes to given bytes |
| TextCodecs.DecimalIs | src/event.rs:46-51 | Numbers are written without leading zeros, with a minus sign if negative, and read back to their value |
| TextCodecs.EscapedIs | src/event.rs:46-51 | What each byte of a JSON string is written as: the short escapes, \\u00 and two hex digits, or the byte itself |
| TextCodecs.QuoteIs | src/event.rs:46-51 | A JSON string is these, one after the other, between quotes |
| Events.TagsAre | src/event.rs:46-51 | Tags are written as an array of arrays of strings, with commas between |
| Events.CanonicalIs | src/event.rs:46-51 | The text an id is hashed from is [0, author, timestamp, kind, tags, content], spelled out |
| Events.EventJsonIs | src/event.rs:18-35 | The JSON of an event, member by member |
| Events.CanonicalInjective | src/event.rs:39-51 | The text an id is hashed from determines every signed field |
| Events.EventJsonInjective | src/event.rs:18-35 | The JSON of an event determines the event |
| Events.CreatedVerifies | src/event.rs:54-112 | Creating succeeds exactly when signing does; what is created verifies, carries the given fields, and has the hash of their text as id and the signature of that hash as sig |
| Events.IdCommits | src/event.rs:80-90 | Two verified events with one id have the same signed fields, unless their texts collide under SHA-256 |
| Events.VerifiesExactly | src/event.rs:79-112 | An event verifies if and only if its id is recomputed from its fields and some 64-byte signature it carries holds for that hash under its 32-byte author key |
| Events.FindsFirst | src/event.rs:114-121 | What is found is the first tag of that name, and nothing exactly when no tag has it |
| Binding.ResolveFiltered | src/binding.rs:262-293 | The loop over the per-author map returns the event that the declarative rule names, and None when it names none: the only marked current binding, or, where none is marked, the only current binding |
| Binding.CollectLatest | src/binding.rs:264-277 | The map holds, for every author with a counted event, the earliest listed of the latest ones |
| Binding.CurrentBindings | src/binding.rs:280-287 | The collected indices are all the current bindings, or all the marked ones, each once |
| Binding.MarkedExactly | src/nametag.rs:76-82 | An event is marked if and only if some tag begins with L and unicity:nametag |
| Binding.ResolveOwner | src/binding.rs:299-301 | The owner among events whose signature verifies |
| Binding.ResolveNametagOwner | src/binding.rs:314-319 | The owner among valid bindings whose d tag is the nametag's hash |
| Binding.BindsExactly | src/binding.rs:236-251 | What counts for a nametag, clause by clause: kind 30078, d tag, two non-empty fields of the content, and a verified signature |
| Resolution.NametagCounts | src/binding.rs:308-319 | The events that can decide about a nametag are exactly the listed ones for which all of this holds, and the resolved event is one of them |
| Binding.ResolveNametagPubkey | src/binding.rs:322-324 | The author of that event, present exactly when there is an owner |
| Binding.BindingTags | src/binding.rs:92-137 | The pushed tags are the base tags and, for each address of the identity, its hash and, where the code lists it, its plain form |
| Binding.FoundUnder | src/binding.rs:92-137 | These tags begin with the nametag's hash and the marker, and index the binding under the nametag and every address it names |
| Binding.CreateBindingEvent | src/binding.rs:78-141 | For every signer and input, the steps give the event that BindingMeans is about: an invalid nametag is refused, the rest goes into tags, content and signature unchecked |
| Binding.BindingWritten | src/binding.rs:78-141 | Every tag and every field of the content that is signed, for any combination of the optional addresses |
| Binding.BindingMeans | src/binding.rs:78-141 | A binding can be made if and only if the nametag is valid and the signer signs its hash; it verifies, has exactly the given fields, tags and content, is marked and indexed, and is a valid binding, and on its own resolves to its author, if and only if the address is not empty |
| Binding.AnyAddressAccepted | src/binding.rs:78-141 | With a signer that signs every hash, every valid nametag gets a binding for any address, the empty one included |
| Binding.LoneOwner | src/binding.rs:262-293 | A list of one event resolves to it exactly when it counts |
| Resolution.TimestampsNeverChoose | src/binding.rs:256-293 | Two lists alike in authors, markers and inclusion, whose timestamps are ordered alike within each author, resolve to the same index |
| Resolution.SameCurrentsSameOwner | src/binding.rs:262-293 | Resolution depends on a list only through each author's current binding |
| Resolution.TwoEvents | src/binding.rs:262-293 | Two counted events, case by case: the later of one author, the first if they tie; the only marked one of two authors; otherwise nobody |
| Resolution.ResolvesCounted | src/binding.rs:262-277 | Resolving a list is resolving the sublist of counted events |
| Resolution.CountedDecide | src/binding.rs:262-277 | For any rule of inclusion, two lists with the same counted events resolve to the same event |
| Resolution.InjectionIsIgnored | src/binding.rs:308-319 | Lists with the same valid bindings for a nametag resolve to the same event, whatever else is mixed in |
| Resolution.InsertedIsIgnored | src/binding.rs:308-319 | One more event that is no valid binding or has another d tag changes nothing, at any position |
| Resolution.InvalidNeverOwns | src/binding.rs:236-251 | An event that is no valid binding, such as one with an empty address, is never resolved, whatever it is listed with |
| Resolution.AuthorsAreKeys | src/binding.rs:262-277 | Among counted events that spell their keys without capitals, the same author is the same key |
| Resolution.TwoAuthorsNoOwner | src/binding.rs:280-293 | Two counted events of two authors, both marked or both not, resolve to nobody |
| LawInstance.TwoSpellingsNoOwner | src/event.rs:91-111 | Two events of one key, spelled in small and in capital letters, that both verify: each is resolved alone, and neither when both are listed |
| Resolution.ResolvesDeduplicated | src/client/multi.rs:78-91 | Keeping the first of each id does not change the resolved event, when equal ids mean equal signed fields |
| Resolution.DeduplicatedExactly | src/client/multi.rs:78-91 | What is kept are, in order, exactly the positions whose id does not occur before |
| ListingOrder.OwnerExactly | src/binding.rs:253-293 | The resolved key is the author that wins by a rule over authors alone, and nobody if none does |
| ListingOrder.SettledAnyOrder | src/binding.rs:262-293 | A settled list resolves to the same key as any list of the same events |
| ListingOrder.OrderIrrelevantExactly | src/binding.rs:262-293 | Every permutation resolves to the same key if and only if no author is torn between marked and unmarked at its latest timestamp, or there is one author, or two are firmly marked |
| ListingOrder.Disagreeing | src/binding.rs:271-274 | A list that is not settled has two permutations that resolve differently |
| ListingOrder.OrderMatters | src/binding.rs:271-293 | It happens: with a marked and an unmarked event of one author at one time and an unmarked event of another author, the marked one listed first resolves to its author, listed second to nobody |
| LawInstance.OrderMattersHere | src/binding.rs:271-301 | Three concrete events that all verify and resolve so |
| Dialogue.ConnectedFaithful | src/client/mod.rs:172-186 | The AUTH event sent for a challenge names that challenge |
| Dialogue.AnswerIsAuth | src/client/mod.rs:172-186 | The answer of a connected client to a challenge is a valid event of kind 22242 by its signer, made at that time, tagged with this relay and this challenge and nothing else, and without content |
| Dialogue.ServedAnswers | src/client/mod.rs:188-201 | While waiting, the AUTH frames sent answer the challenges received, each once and in order |
| Exchanges.SubIdInjective | src/client/mod.rs:240-241 | Different counters give different subscription ids |
| Exchanges.QueryServedAlternates | src/client/mod.rs:244-260 | While a query waits it sends one AUTH and one REQ for every challenge, alternating |
| Exchanges.PublishServedTrace | src/client/mod.rs:211-229 | While a publish waits it sends one AUTH for every challenge and repeats the event after the first only |
| Dialogue.FailsOnce | src/client/mod.rs:188-201 | A wait fails at one entry only: what lies behind it was never reached |
| Exchanges.QueryDetermined | src/client/mod.rs:236-263 | The contract of a query allows one answer and one state, also when the query fails |
| Exchanges.PublishDetermined | src/client/mod.rs:205-231 | The contract of a publish allows one report and one state, also when the publish fails |
| Exchanges.QueryFailureLog | src/client/mod.rs:236-263 | A failing query has logged a beginning of REQ AUTH REQ AUTH and left a rest of the script |
| Exchanges.PublishFailureLog | src/client/mod.rs:205-231 | A failing publish has logged a beginning of EVENT AUTH EVENT AUTH* and taken at most 64 entries |
| Relay.RelayClient.SendFrame | src/client/mod.rs:151-153 | Logs the attempted frame; succeeds exactly when the connection lets this send through |
| Relay.RelayClient.AnswerAuth | src/client/mod.rs:172-186 | Sends the signed answer, or fails without sending if signing fails |
| Relay.RelayClient.RecvMsg | src/client/mod.rs:190-201 | Takes exactly one entry off the script; a challenge is answered before it is returned |
| Relay.RelayClient.Publish | src/client/mod.rs:205-231 | For any script: succeeds exactly when the first OK for the event, timeout or break within 64 entries is an OK and everything before it could be answered and sent, and then reports that OK; the log and what is left of the script are stated to the entry, also on failure, and a timeout is told apart from 64 entries without an OK |
| Relay.RelayClient.Query | src/client/mod.rs:236-263 | For any script it ends; succeeds exactly when its first EOSE, CLOSED, timeout or break is not a break and everything before it could be answered and sent, and then returns the verified events under its own id before that entry, in order and with repetitions; the log and what is left of the script are stated to the entry, also on failure |
| Transcripts.QueryMeans | src/client/mod.rs:236-263 | A successful query, entry by entry: its id is q and the counter; it stops at the first timeout, EOSE or CLOSED for that id, before any break; it returns exactly the verified events under that id before that entry, in order; REQ comes first and CLOSE last, and everything but CLOSE got through |
| Transcripts.QuerySucceeds | src/client/mod.rs:236-263 | If sending and signing work, a query succeeds if and only if there is such an entry |
| Transcripts.PublishMeans | src/client/mod.rs:205-231 | A successful publish, entry by entry: it reports the first OK for its event, among the first 64 entries and before any timeout or break, and everything it sent got through |
| Transcripts.PublishSucceeds | src/client/mod.rs:205-231 | If sending and signing work, a publish succeeds with exactly such an OK |
| Transcripts.PublishGivesUp | src/client/mod.rs:211-231 | Otherwise it ends with the timeout error at the first timeout, or with the other error after 64 entries, leaving the rest |
| Runs.Play | src/client/mod.rs:205-263 | Any calls made on a client one after the other are a run, from the state it was in to the state it is left in, so the run theorems are about the client |
| Runs.IdsCollideExactly | src/client/mod.rs:240-241 | In any run, two queries share an id exactly when the number of queries between them is a multiple of 2^64 |
| Runs.DistinctIds | src/client/mod.rs:237-241 | In a run of fewer than 2^64 queries all ids differ |
| Runs.OtherIdsContributeNothing | src/client/mod.rs:244-260 | Removing any frames of other ids from the script changes neither success nor answer of a query |
| Runs.QueriesAreIsolated | src/client/mod.rs:236-263 | In a run of fewer than 2^64 queries, each query's outcome is what it would be with the frames of all the other queries removed together |
| Runs.PublishLog | src/client/mod.rs:205-231 | A successful publish logs EVENT, or EVENT AUTH EVENT AUTH*, and takes at most 64 entries |
| Runs.QueryLog | src/client/mod.rs:236-263 | A successful query logs REQ (AUTH REQ)* CLOSE |
| Runs.RunAnswersEveryChallenge | src/client/mod.rs:172-263 | Over any run of successful calls, the AUTH frames logged answer exactly the challenges taken off the script, in order |
| MultiRelay.MultiRelayClient.Query | src/client/multi.rs:78-91 | Returns the first occurrence of each id among all answers of all relays, in order; a failing relay contributes nothing |
| MultiRelay.MultiRelayClient.Merge | src/client/multi.rs:83-87 | The seen set and the output stay the ids and the first occurrences of everything merged so far |
| MultiRelay.AllAnswersSplit | src/client/multi.rs:78-91 | All answers are the answers of the relays one after the other: none left out, none twice |
| MultiRelay.AllAnswersVerified | src/client/mod.rs:246-249 | Every answer of every relay verifies |
| MultiRelay.VerifiedIdsCommit | src/event.rs:80-90 | Among verified events without collisions, equal ids mean equal signed fields |
| MultiRelay.MergingKeepsOwner | src/client/multi.rs:76-91 | Resolving a nametag over the merged query gives the same event as over all verified answers, for any scripts of any relays |
| Secp.Curve.MulNeg | src/crypto/secp.rs:30-35 | A multiple of the opposite point is the opposite of the multiple, so its x coordinate is the same |
| Secp.Curve.EcdhSymmetric | src/crypto/secp.rs:30-43 | Both parties compute the same shared x coordinate, whatever the parities of their public points |
| Secp.Curve.SharedXIs | src/crypto/secp.rs:36-45 | What is shared is the x coordinate of one secret times the other times the base point |
| Secp.Curve.KeysExactly | src/crypto/secp.rs:12-43 | A secret is valid if and only if it is 32 bytes and between zero and the order; public keys and both errors follow |
| Padding.NextPow2Unique | src/crypto/nip44.rs:43-43 | The only power of two between n and 2n is the next power of two |
| Padding.BucketBounds | src/crypto/nip44.rs:32-46 | A message fits its bucket, the waste is less than max(32, n/4), and the bucket does not pass the next power of two |
| Padding.BucketMonotone | src/crypto/nip44.rs:32-46 | Longer messages never have smaller buckets |
| Padding.BucketExactly | src/crypto/nip44.rs:32-46 | The bucket of n bytes: 32 up to 32; then the next multiple of 32, or of an eighth of the next power of two once that is more |
| Padding.BucketIdempotent | src/crypto/nip44.rs:32-46 | A bucket is its own bucket |
| Padding.BucketStep | src/crypto/nip44.rs:32-46 | Lengths up to 40960 stay within 40960; all longer ones take at least 49152 |
| Padding.Pad | src/crypto/nip44.rs:49-63 | The filled buffer is header, message and zeros; both errors as stated by the padded form |
| Padding.PaddedExactly | src/crypto/nip44.rs:48-63 | Every byte of a padded message: two of length, the message, zeros up to the bucket; and both errors |
| Padding.UnpadExactly | src/crypto/nip44.rs:66-79 | Unpadding yields m if and only if m has 1 to 65535 bytes and the input has the right length, the big-endian header, and m after it; the tail is not inspected |
| Padding.UnpadErrors | src/crypto/nip44.rs:66-79 | Each of the three errors exactly in its case |
| Padding.UnpadInvertsPad | src/crypto/nip44.rs:48-79 | Padding succeeds exactly for 1 to 65535 bytes, gives 2 + bucket bytes, and unpadding undoes it |
| Base64.EncodedLength | src/crypto/nip44.rs:139-139 | Every three bytes begun take four characters, none of which JSON escapes |
| Base64.EncodeTriple | src/crypto/nip44.rs:139-139 | Three bytes in front are written as four digits of six bits, whatever follows |
| Base64.EncodeTail | src/crypto/nip44.rs:139-139 | One or two bytes at the end are filled up with zero bits and equals signs |
| Base64.Alphabet | src/crypto/nip44.rs:139-139 | The 64 digits |
| Base64.DecodesExactly | src/crypto/nip44.rs:144-146 | A text decodes to bytes if and only if it is their encoding |
| Nip44.NotAfterTotal | src/crypto/nip44.rs:88-88 | The order of byte slices is total and antisymmetric |
| Nip44.NotAfterExactly | src/crypto/nip44.rs:88-88 | The order is that of a dictionary: a beginning comes first, otherwise the first difference decides |
| Nip44.SaltInOrder | src/crypto/nip44.rs:86-94 | The salt is the two public keys, the smaller first |
| Nip44.DeriveConversationKey | src/crypto/nip44.rs:82-101 | The filled salt buffer gives the key that ConversationKeyExactly describes |
| Nip44.ConversationKeyExactly | src/crypto/nip44.rs:82-101 | For any two secrets the key is HKDF with the info nip44-v2 of the x coordinate that both secrets give together, salted with the two public keys, the smaller first |
| Nip44.ConversationKeySymmetric | src/crypto/nip44.rs:81-101 | For any two valid secrets both parties derive the same 32-byte key, whichever public key sorts first and whatever the parities |
| Nip44.EncryptWithKeyNonce | src/crypto/nip44.rs:120-140 | The assembled payload is the specified one, with each error where the code has it |
| Nip44.EncryptsExactly | src/crypto/nip44.rs:118-140 | Encrypting gives t if and only if t is the base64 of version 2, nonce and the padded message sealed under the two parts of the expanded key |
| Nip44.CipherErrors | src/crypto/nip44.rs:118-152 | Why a message is not encrypted or a text not decrypted, as far as lengths, encoding and version go |
| Nip44.DecryptInvertsEncrypt | src/crypto/nip44.rs:118-161 | Encrypting succeeds exactly for 1 to 65535 bytes; decrypting undoes it; the payload shows the version, the nonce and, of the message, only its bucket, as 43 + bucket bytes in base64 |
| Nip44.DecryptsExactly | src/crypto/nip44.rs:143-161 | A text decrypts to m if and only if it is the base64 of version, nonce and a ciphertext that opens to a frame of m |
| Nip44.PeerDecrypts | src/crypto/nip44.rs:163-167 | What one party encrypts to another, the other decrypts with its own secret |
| Nip17.RumorJsonInjective | src/nip17.rs:87-89 | The JSON of a rumor determines the rumor |
| Nip17.RumorJsonIs | src/nip17.rs:28-45 | The JSON of a rumor, member by member |
| Nip17.World.LocalSignerHolds | src/signer.rs:43-62 | A local signer signs every hash, verifiably, and derives the keys of its secret |
| Nip17.World.EnvelopeOpens | src/nip17.rs:127-150 | One layer verifies as an event with the given fields, and the recipient's own key for its author decrypts it |
| Nip17.World.EnvelopeExactly | src/nip17.rs:127-150 | One layer can be made exactly when what goes inside has at most 65535 bytes, and fails with the padding error otherwise |
| Nip17.World.CreateGiftWrap | src/nip17.rs:93-177 | The steps give the gift wrap that GiftWrapLayers and GiftWrapRoundTrip are about, with each error in its place |
| Nip17.World.RumorWritten | src/nip17.rs:101-126 | The rumor is of kind 14 by the sender, tagged p with the recipient and e with the reply if any, and its id is the hash of its own fields |
| Nip17.World.GiftWrapLayers | src/nip17.rs:93-177 | Wrap and seal verify; the wrap is of kind 1059 with the recipient as its one p tag, the seal of kind 13 without tags; authors, timestamps and nonces are those asked for, and they contain the seal and the rumor for the recipient |
| Nip17.World.GiftWrapRoundTrip | src/nip17.rs:91-229 | Whatever could be wrapped, its recipient unwraps to exactly the content, rumor timestamp, kind 14, sender, recipient, wrap id and reply id or its absence |
| Nip17.World.UnwrapsExactly | src/nip17.rs:181-229 | Unwrapping gives a message if and only if both layers are there and the seal is attested, and then the sender is the author of the seal and the rest what the rumor says |
| Nip17.World.UnwrapErrors | src/nip17.rs:181-205 | A wrap not of kind 1059, a seal not of kind 13, and a seal whose signature does not verify are refused with these errors |
| Nip17.World.SealCommitsExactly | src/nip17.rs:196-205 | An accepted seal verifies as an event if and only if its stated id is the one its own fields give |
| Nip17.World.UnwrappedCommitsExactly | src/nip17.rs:181-229 | Behind every unwrapped message there is a seal attested by the reported sender, of which the same condition holds |
| Nip17.World.StatedIdSuffices | src/nip17.rs:196-211 | The condition can fail: with the id and signature of any other verified event of its author, a seal is accepted with any rumor of valid texts that the conversation key encrypts, and it does not itself verify short of a collision |
| Nip17.World.UnwrapReads | src/nip17.rs:181-229 | Two wraps with the same kind, author and content unwrap alike, error or message, except that each reports its own stated id |
| Nip17.World.CopiesReportOneIdExactly | src/nip17.rs:50-51 | A copy of a valid wrap unwraps too, to a message with the same event id if and only if the copy states the id of its own fields |
| Nip17.BuildTags | src/nip17.rs:101-110 | The pushed tags are the recipient, then the reply if there is one |
| Nip17.ReplyFound | src/nip17.rs:213-218 | The reply id read from a rumor's tags is the one written, and absent when none was |
| GiftWrapSizes.SealJsonLength | src/nip17.rs:142-155 | A seal's JSON is 333 bytes, its timestamp and its content |
| GiftWrapSizes.ThresholdLengths | src/nip17.rs:129-158 | 40960 bytes become 54672 characters, 40961 become 65596, and everything longer overruns 65535 |
| GiftWrapSizes.GiftWrapLength | src/nip17.rs:127-158 | The length of a gift wrap is determined by the bucket of the rumor JSON and the width of the seal's timestamp |
| GiftWrapSizes.GiftWrapExactly | src/nip17.rs:93-177 | With valid keys a gift wrap can be made if and only if the rumor JSON has at most 40960 bytes; otherwise the error is the padding error |
| GiftWrapSizes.ChatRumorLength | src/nip17.rs:101-132 | The rumor JSON's length, from the escaped content, the timestamp and the reply id |
| GiftWrapSizes.ChatFits | src/nip17.rs:93-177 | The same threshold in terms of the message a caller holds |

## Left out

- The WebSocket and TLS transport of `src/client/native.rs`, its timeouts and reconnects.
- The text syntax of JSON as read: messages and events are values, and reading is a parameter that inverts writing; `parse_relay_message` is not part of this model.
- The internals of secp256k1, BIP-340, SHA-256, HKDF, ChaCha20-Poly1305 and the hex and base64 crates' own code; the codecs are modelled by what they compute.
- `src/crypto/nip04.rs`, and the encrypted nametag in `src/nametag.rs`: framing around library ciphers.
- Nametag normalisation, validity and hashing (Unicode trimming and lowercasing): arbitrary functions here.
- `create_identity_binding_event`, `parse_binding_info`, the filter constructors, `src/filter.rs` and key parsing in `src/keys.rs`: single expressions or the same shape as what is modelled.
- `subscribe`, `unsubscribe`, `poll`, `poll_event`, `broadcast`, `connect` and `close`: one call each to what is modelled; caller-chosen subscription ids equal to "q" and a number are outside the run theorems.
- BIP-173's guarantee for four scattered errors within 90 characters: it takes an exhaustive search; the burst theorem holds at any length instead.
- Validity of strings as UTF-8 is asked only where JSON is read back (gift-wrap round trips, and which bindings count); the other theorems hold for all byte strings, of which Rust strings are some.
- The texts of errors passed on from other crates inside the crate's own errors (base64, hex and JSON details).
- Relay.RelayClient.Query: the counter wraps at 2^64, as in release builds; a debug build would panic there.
- Relay.RelayClient.RecvMsg: which error a broken connection reports is not specified, since the transport chooses it.
- MultiRelay.MultiRelayClient.Query: states what is returned; the state a query leaves each client in is stated by that client's own `Query` and not repeated.
- Binding.CurrentBindings: the order in which the map yields authors is left open; the source's ordered map is one such order.
- Nip44.EncryptWithKeyNonce: that the ciphertext hides the message is a matter of cryptography and not modelled; what is proved is that the length shows the bucket alone.
