/**
 The NIP-44 variant of src/crypto/nip44.rs: sorted-salt conversation keys, and payloads of a
 version byte, a nonce and a sealed padded message, in base64. HKDF and the AEAD are parameters.
 */
module Nip44 {
  import opened Basics
  import opened Secp
  import opened TextCodecs
  import Base64
  import Padding

  const VERSION: u8 := 2
  const NONCE_SIZE := 24
  const MAC_SIZE := 16

  /** HKDF-SHA256 `(salt, ikm, info, length)` (RFC 5869) and an AEAD `(key, nonce, text)` (RFC 8439). */
  datatype Suite = Suite(
    hkdf: (Bytes, Bytes, Bytes, nat) -> Option<Bytes>,
    seal: (Bytes, Bytes, Bytes) -> Option<Bytes>,
    open: (Bytes, Bytes, Bytes) -> Option<Bytes>)
  {
    ghost predicate Lawful() {
      && (forall salt, ikm, info, n | n <= 255 * 32 ::
            hkdf(salt, ikm, info, n).Some? && |hkdf(salt, ikm, info, n).value| == n)
      && (forall k, n, m {:trigger SealsFaithfully(k, n, m)} | |k| == 32 && |n| == 12 && |m| <= 2 + 65536 ::
            SealsFaithfully(k, n, m))
    }

    ghost predicate SealsFaithfully(k: Bytes, n: Bytes, m: Bytes) {
      && seal(k, n, m).Some?
      && |seal(k, n, m).value| == |m| + MAC_SIZE
      && open(k, n, seal(k, n, m).value) == Some(m)
    }
  }

  // ---- Conversation keys ----

  /** The order of byte slices. */
  predicate NotAfter(a: Bytes, b: Bytes) {
    a == [] || (b != [] && (a[0] < b[0] || (a[0] == b[0] && NotAfter(a[1..], b[1..]))))
  }

  lemma {:induction false} NotAfterTotal(a: Bytes, b: Bytes)
    ensures NotAfter(a, b) || NotAfter(b, a)
    ensures NotAfter(a, b) && NotAfter(b, a) ==> a == b
  {
    if a != [] && b != [] {
      NotAfterTotal(a[1..], b[1..]);
      assert a == [a[0]] + a[1..] && b == [b[0]] + b[1..];
    }
  }

  /** The order of a dictionary: the first difference decides, and a beginning comes first. */
  lemma {:induction false} NotAfterExactly(a: Bytes, b: Bytes)
    ensures NotAfter(a, b) <==>
            a <= b || exists i :: 0 <= i < |a| && i < |b| && a[..i] == b[..i] && a[i] < b[i]
  {
    if a != [] && b != [] {
      NotAfterExactly(a[1..], b[1..]);
      assert a == [a[0]] + a[1..] && b == [b[0]] + b[1..];
      if a[0] < b[0] {
        assert a[..0] == b[..0];
      }
      forall i | 1 <= i < |a| && i < |b|
        ensures a[..i] == b[..i] <==> a[0] == b[0] && a[1..][..i - 1] == b[1..][..i - 1]
      {
        assert a[..i] == [a[0]] + a[1..][..i - 1] && b[..i] == [b[0]] + b[1..][..i - 1];
      }
      var c, d := a[1..], b[1..];
      if a[0] == b[0] && exists j :: 0 <= j < |c| && j < |d| && c[..j] == d[..j] && c[j] < d[j] {
        var j :| 0 <= j < |c| && j < |d| && c[..j] == d[..j] && c[j] < d[j];
        assert a[..j + 1] == b[..j + 1] && a[j + 1] < b[j + 1];
      }
    }
  }

  /** Two public keys in ascending order. */
  function SortedSalt(mine: Bytes, peer: Bytes): Bytes {
    if NotAfter(mine, peer) then mine + peer else peer + mine
  }

  lemma SaltInOrder(a: Bytes, b: Bytes)
    ensures || (NotAfter(a, b) && SortedSalt(a, b) == a + b)
            || (NotAfter(b, a) && SortedSalt(a, b) == b + a)
  {
    NotAfterTotal(a, b);
  }

  lemma SortedSaltSymmetric(a: Bytes, b: Bytes)
    ensures SortedSalt(a, b) == SortedSalt(b, a)
  {
    NotAfterTotal(a, b);
  }

  /** Filling an `n`-byte buffer from HKDF. */
  function Expand(suite: Suite, salt: Bytes, ikm: Bytes, info: Bytes, n: nat): (r: Result<Bytes>)
    ensures r.Ok? ==> |r.value| == n
  {
    match suite.hkdf(salt, ikm, info, n)
    case None => Err(Error.Secp("hkdf expand"))
    case Some(okm) => if |okm| == n then Ok(okm) else Err(Error.Secp("hkdf expand"))
  }

  function ConversationKey<P(!new)>(suite: Suite, curve: Curve<P>, secret: Bytes, peer: Bytes): Result<Bytes> {
    var sharedX :- curve.EcdhX(secret, peer);
    var mine :- curve.XonlyPublicKey(secret);
    Expand(suite, SortedSalt(mine, peer), sharedX, Lit("nip44-v2"), 32)
  }

  method DeriveConversationKey<P(!new)>(suite: Suite, curve: Curve<P>, mySecret: Bytes, peerXonly: Bytes)
    returns (r: Result<Bytes>)
    requires |mySecret| == 32 && |peerXonly| == 32
    requires curve.Lifts()
    ensures r == ConversationKey(suite, curve, mySecret, peerXonly)
  {
    var sharedX :- curve.EcdhX(mySecret, peerXonly);
    var myPub :- curve.XonlyPublicKey(mySecret);
    var salt := new u8[64](_ => 0);
    if NotAfter(myPub, peerXonly) {
      FillHalves(salt, myPub, peerXonly);
    } else {
      FillHalves(salt, peerXonly, myPub);
    }
    return Expand(suite, salt[..], sharedX, Lit("nip44-v2"), 32);
  }

  method FillHalves(salt: array<u8>, first: Bytes, second: Bytes)
    requires salt.Length == 64 && |first| == 32 && |second| == 32
    modifies salt
    ensures salt[..] == first + second
  {
    Padding.CopyInto(salt, 0, first);
    Padding.CopyInto(salt, 32, second);
    assert salt[..] == salt[..32] + salt[32..64];
  }

  /**
   What a conversation key is: HKDF of the x coordinate that both secrets together give, salted with
   the two public keys, the smaller first.
   */
  lemma ConversationKeyExactly<P(!new)>(suite: Suite, curve: Curve<P>, a: Bytes, b: Bytes, okm: Bytes)
    requires curve.Lawful() && curve.Scalar(a).Some? && curve.Scalar(b).Some?
    ensures var j, k := curve.Scalar(a).value, curve.Scalar(b).value;
            var x, y := curve.xOf(curve.Mul(j, curve.base)), curve.xOf(curve.Mul(k, curve.base));
            ConversationKey(suite, curve, a, y) == Ok(okm) <==>
              && suite.hkdf(if NotAfter(x, y) then x + y else y + x,
                            curve.xOf(curve.Mul(j, curve.Mul(k, curve.base))), Lit("nip44-v2"), 32) == Some(okm)
              && |okm| == 32
  {
    var j, k := curve.Scalar(a).value, curve.Scalar(b).value;
    curve.SharedXIs(a, b);
    KeyFrom(suite, curve, a, curve.xOf(curve.Mul(k, curve.base)), curve.xOf(curve.Mul(j, curve.base)),
            curve.xOf(curve.Mul(j, curve.Mul(k, curve.base))), okm);
  }

  lemma KeyFrom<P(!new)>(suite: Suite, curve: Curve<P>, a: Bytes, peer: Bytes, mine: Bytes, sharedX: Bytes, okm: Bytes)
    requires curve.EcdhX(a, peer) == Ok(sharedX) && curve.XonlyPublicKey(a) == Ok(mine)
    ensures ConversationKey(suite, curve, a, peer) == Ok(okm) <==>
              && suite.hkdf(if NotAfter(mine, peer) then mine + peer else peer + mine,
                            sharedX, Lit("nip44-v2"), 32) == Some(okm)
              && |okm| == 32
  {
  }

  /** Two parties derive one key, whichever public key sorts first and whatever the parities. */
  lemma ConversationKeySymmetric<P(!new)>(suite: Suite, curve: Curve<P>, a: Bytes, b: Bytes)
    requires suite.Lawful() && curve.Lawful()
    requires curve.XonlyPublicKey(a).Ok? && curve.XonlyPublicKey(b).Ok?
    ensures var k := ConversationKey(suite, curve, a, curve.XonlyPublicKey(b).value);
            && k == ConversationKey(suite, curve, b, curve.XonlyPublicKey(a).value)
            && k.Ok? && |k.value| == 32
  {
    curve.EcdhSymmetric(a, b);
    SortedSaltSymmetric(curve.XonlyPublicKey(a).value, curve.XonlyPublicKey(b).value);
  }

  // ---- Payloads ----

  function MessageKey(suite: Suite, key: Bytes, nonce: Bytes): (r: Result<Bytes>)
    ensures r.Ok? ==> |r.value| == 76
  {
    Expand(suite, nonce, key, [], 76)
  }

  /** The AEAD key and nonce within a message key; its last 32 bytes go unused. */
  function CipherKey(messageKey: Bytes): Bytes
    requires |messageKey| >= 44
  {
    messageKey[..32]
  }

  function CipherNonce(messageKey: Bytes): Bytes
    requires |messageKey| >= 44
  {
    messageKey[32..44]
  }

  function Payload(nonce: Bytes, ciphertext: Bytes): Bytes {
    [VERSION] + nonce + ciphertext
  }

  /** Sealing under a message key. */
  function Sealed(suite: Suite, messageKey: Bytes, padded: Bytes): Result<Bytes>
    requires |messageKey| >= 44
  {
    match suite.seal(CipherKey(messageKey), CipherNonce(messageKey), padded)
    case None => Err(Error.Decrypt("aead encrypt"))
    case Some(c) => Ok(c)
  }

  function OpenedWith(suite: Suite, key: Bytes, nonce: Bytes, ciphertext: Bytes): Result<Bytes> {
    var mk :- MessageKey(suite, key, nonce);
    match suite.open(CipherKey(mk), CipherNonce(mk), ciphertext)
    case None => Err(Error.Decrypt("aead: bad tag"))
    case Some(p) => Ok(p)
  }

  /** What `encrypt_with_key_nonce` computes. */
  function Encrypted(suite: Suite, key: Bytes, nonce: Bytes, plaintext: Bytes): Result<Text> {
    var padded :- Padding.Padded(plaintext);
    var mk :- MessageKey(suite, key, nonce);
    var c :- Sealed(suite, mk, padded);
    Ok(Base64.Encode(Payload(nonce, c)))
  }

  method AeadFor(messageKey: Bytes) returns (key: Bytes, nonce: Bytes)
    requires |messageKey| == 76
    ensures key == CipherKey(messageKey) && nonce == CipherNonce(messageKey)
  {
    key := messageKey[0..32];
    var buffer := new u8[12](_ => 0);
    Padding.CopyInto(buffer, 0, messageKey[32..44]);
    nonce := buffer[..];
    assert nonce == buffer[0..12];
  }

  method BuildPayload(nonce: Bytes, ciphertext: Bytes) returns (payload: Bytes)
    ensures payload == Payload(nonce, ciphertext)
  {
    payload := [];
    payload := payload + [VERSION];
    payload := payload + nonce;
    payload := payload + ciphertext;
  }

  method EncryptWithKeyNonce(suite: Suite, key: Bytes, nonce: Bytes, plaintext: Bytes) returns (r: Result<Text>)
    ensures r == Encrypted(suite, key, nonce, plaintext)
  {
    if |plaintext| > Padding.MAX_MESSAGE_LEN {
      return Err(Error.Padding("message too long"));
    }
    var padding := Padding.Pad(plaintext);
    var padded :- padding;
    var mk :- MessageKey(suite, key, nonce);
    var cipherKey, cipherNonce := AeadFor(mk);
    var sealing := suite.seal(cipherKey, cipherNonce, padded);
    if sealing.None? {
      return Err(Error.Decrypt("aead encrypt"));
    }
    var payload := BuildPayload(nonce, sealing.value);
    return Ok(Base64.Encode(payload));
  }

  function DecryptWithKey(suite: Suite, key: Bytes, payloadB64: Text): Result<Bytes> {
    match Base64.Decode(payloadB64)
    case None => Err(Error.Decode("base64"))
    case Some(payload) => DecryptPayload(suite, key, payload)
  }

  function DecryptPayload(suite: Suite, key: Bytes, payload: Bytes): Result<Bytes> {
    if |payload| < 1 + NONCE_SIZE + Padding.MIN_PADDED_LEN + MAC_SIZE then
      Err(Malformed("nip44 payload too short"))
    else if payload[0] != VERSION then
      Err(Malformed("nip44 unsupported version"))
    else
      var padded :- OpenedWith(suite, key, payload[1..1 + NONCE_SIZE], payload[1 + NONCE_SIZE..]);
      Padding.Unpad(padded)
  }

  function Decrypt<P(!new)>(suite: Suite, curve: Curve<P>, secret: Bytes, peer: Bytes, payloadB64: Text)
    : Result<Bytes>
  {
    var key :- ConversationKey(suite, curve, secret, peer);
    DecryptWithKey(suite, key, payloadB64)
  }

  lemma PayloadParts(nonce: Bytes, c: Bytes)
    requires |nonce| == NONCE_SIZE
    ensures |Payload(nonce, c)| == 25 + |c| && Payload(nonce, c)[0] == VERSION
    ensures Payload(nonce, c)[1..25] == nonce && Payload(nonce, c)[25..] == c
    ensures Payload(nonce, c)[..25] == [VERSION] + nonce
  {
  }

  /** A message of `n` bytes travels as this many characters. */
  function EncryptedLength(n: nat): nat
    requires n >= 1
  {
    (43 + Padding.Bucket(n) + 2) / 3 * 4
  }

  /** The version and the nonce in front of a payload. */
  predicate Shows(t: Text, nonce: Bytes) {
    var payload := Base64.Decode(t);
    payload.Some? && |payload.value| >= 1 + |nonce| && payload.value[..1 + |nonce|] == [VERSION] + nonce
  }

  /** Encrypting fails on empty and on long messages only; decrypting undoes it; only the bucket shows. */
  lemma DecryptInvertsEncrypt(suite: Suite, key: Bytes, nonce: Bytes, m: Bytes)
    requires suite.Lawful() && |nonce| == NONCE_SIZE
    ensures Encrypted(suite, key, nonce, m).Ok? <==> 1 <= |m| <= Padding.MAX_MESSAGE_LEN
    ensures Encrypted(suite, key, nonce, m).Ok? ==>
              var t := Encrypted(suite, key, nonce, m).value;
              && DecryptWithKey(suite, key, t) == Ok(m) && Shows(t, nonce) && Plain(t)
              && |t| == EncryptedLength(|m|)
              && Base64.Decode(t).Some? && |Base64.Decode(t).value| == 43 + Padding.Bucket(|m|)
  {
    Padding.UnpadInvertsPad(m);
    if Padding.Padded(m).Ok? {
      var padded, mk := Padding.Padded(m).value, MessageKey(suite, key, nonce).value;
      Padding.BucketCapped(|m|);
      assert suite.SealsFaithfully(CipherKey(mk), CipherNonce(mk), padded);
      var c := Sealed(suite, mk, padded).value;
      Padding.BucketAtLeast(|m|);
      PayloadParts(nonce, c);
      Base64.DecodeInvertsEncode(Payload(nonce, c));
      Base64.EncodedLength(Payload(nonce, c));
    }
  }

  /** What encrypting writes: canonical base64 of version, nonce, and the sealed frame of the message. */
  lemma EncryptsExactly(suite: Suite, key: Bytes, nonce: Bytes, m: Bytes, t: Text)
    ensures Encrypted(suite, key, nonce, m) == Ok(t) <==>
            exists mk, padded, c ::
              && Padding.Padded(m) == Ok(padded)
              && suite.hkdf(nonce, key, [], 76) == Some(mk) && |mk| == 76
              && suite.seal(mk[0..32], mk[32..44], padded) == Some(c)
              && t == Base64.Encode([2] + nonce + c)
  {
  }

  /** Why a message is not encrypted, or not decrypted, in the order of the checks. */
  lemma CipherErrors(suite: Suite, key: Bytes, nonce: Bytes, m: Bytes, t: Text)
    ensures m == [] ==> Encrypted(suite, key, nonce, m) == Err(Error.Padding("message too short"))
    ensures |m| > 65535 ==> Encrypted(suite, key, nonce, m) == Err(Error.Padding("message too long"))
    ensures Base64.Decode(t).None? ==> DecryptWithKey(suite, key, t) == Err(Error.Decode("base64"))
    ensures Base64.Decode(t).Some? ==>
              var payload := Base64.Decode(t).value;
              && (|payload| < 73 ==> DecryptWithKey(suite, key, t) == Err(Malformed("nip44 payload too short")))
              && (|payload| >= 73 && payload[0] != 2 ==>
                    DecryptWithKey(suite, key, t) == Err(Malformed("nip44 unsupported version")))
  {
  }

  /** Everything that decrypts: canonical base64 of version, nonce, and a sealed frame of the message. */
  ghost predicate Carries(suite: Suite, key: Bytes, t: Text, nonce: Bytes, c: Bytes, m: Bytes) {
    && |nonce| == 24 && |c| >= 48
    && t == Base64.Encode([2] + nonce + c)
    && var mk := suite.hkdf(nonce, key, [], 76);
      && mk.Some? && |mk.value| == 76
      && var padded := suite.open(mk.value[0..32], mk.value[32..44], c);
        padded.Some? && Padding.Frames(padded.value, m)
  }

  lemma DecryptsExactly(suite: Suite, key: Bytes, t: Text, m: Bytes)
    ensures DecryptWithKey(suite, key, t) == Ok(m) <==>
            exists nonce, c :: Carries(suite, key, t, nonce, c, m)
  {
    forall nonce, c | Carries(suite, key, t, nonce, c, m)
      ensures DecryptWithKey(suite, key, t) == Ok(m)
    {
      CarriedDecrypts(suite, key, t, nonce, c, m);
    }
    if DecryptWithKey(suite, key, t) == Ok(m) {
      DecryptedCarries(suite, key, t, m);
    }
  }

  lemma CarriedDecrypts(suite: Suite, key: Bytes, t: Text, nonce: Bytes, c: Bytes, m: Bytes)
    requires Carries(suite, key, t, nonce, c, m)
    ensures DecryptWithKey(suite, key, t) == Ok(m)
  {
    PayloadParts(nonce, c);
    Base64.DecodesExactly(t, Payload(nonce, c));
    Padding.UnpadExactly(OpenedWith(suite, key, nonce, c).value, m);
  }

  lemma DecryptedCarries(suite: Suite, key: Bytes, t: Text, m: Bytes)
    requires DecryptWithKey(suite, key, t) == Ok(m)
    ensures exists nonce, c :: Carries(suite, key, t, nonce, c, m)
  {
    var payload := Base64.Decode(t).value;
    var nonce, c := payload[1..25], payload[25..];
    assert payload == Payload(nonce, c);
    Base64.DecodesExactly(t, payload);
    Padding.UnpadExactly(OpenedWith(suite, key, nonce, c).value, m);
    assert Carries(suite, key, t, nonce, c, m);
  }

  /** What one party encrypts to another, the other decrypts. */
  lemma PeerDecrypts<P(!new)>(suite: Suite, curve: Curve<P>, a: Bytes, b: Bytes, nonce: Bytes, m: Bytes)
    requires suite.Lawful() && curve.Lawful() && |nonce| == NONCE_SIZE
    requires curve.XonlyPublicKey(a).Ok? && curve.XonlyPublicKey(b).Ok?
    requires 1 <= |m| <= Padding.MAX_MESSAGE_LEN
    ensures var k := ConversationKey(suite, curve, a, curve.XonlyPublicKey(b).value);
            && k.Ok? && Encrypted(suite, k.value, nonce, m).Ok?
            && Decrypt(suite, curve, b, curve.XonlyPublicKey(a).value, Encrypted(suite, k.value, nonce, m).value)
               == Ok(m)
  {
    ConversationKeySymmetric(suite, curve, a, b);
    DecryptInvertsEncrypt(suite, ConversationKey(suite, curve, a, curve.XonlyPublicKey(b).value).value, nonce, m);
  }
}
