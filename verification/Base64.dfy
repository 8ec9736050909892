/**
 Standard padded base64 (section 4 of RFC 4648), strict in both directions: the padding must be
 there and the unused bits must be zero.
 */
module Base64 {
  import opened Basics
  import opened BitStreams
  import opened BitRegrouping
  import opened TextCodecs

  function Digit(v: nat): (c: u8)
    requires v < 64
    ensures 32 <= c < 0x80 && c != 34 && c != 92 && c != 61
  {
    if v < 26 then 65 + v
    else if v < 52 then 71 + v
    else if v < 62 then v - 4
    else if v == 62 then 43
    else 47
  }

  function DigitValue(c: u8): (r: Option<nat>)
    ensures r.Some? ==> r.value < 64 && Digit(r.value) == c
  {
    if 65 <= c <= 90 then Some(c - 65)
    else if 97 <= c <= 122 then Some(c - 71)
    else if 48 <= c <= 57 then Some(c + 4)
    else if c == 43 then Some(62)
    else if c == 47 then Some(63)
    else None
  }

  predicate Sextets(g: Bytes) {
    forall i :: 0 <= i < |g| ==> g[i] < 64
  }

  function DigitsOf(g: Bytes): (t: Text)
    requires Sextets(g)
    ensures |t| == |g|
  {
    seq(|g|, i requires 0 <= i < |g| => Digit(g[i]))
  }

  predicate AllDigits(t: Text) {
    forall i :: 0 <= i < |t| ==> DigitValue(t[i]).Some?
  }

  function ValuesOf(t: Text): (g: Bytes)
    requires AllDigits(t)
    ensures |g| == |t| && Sextets(g)
  {
    seq(|t|, i requires 0 <= i < |t| => DigitValue(t[i]).value)
  }

  /** The `=` signs that complete `n` digits to whole quadruples. */
  function Signs(n: nat): (k: nat)
    ensures (n + k) % 4 == 0 && k < 4
  {
    if n % 4 == 0 then 0 else 4 - n % 4
  }

  /** The sextets of a byte string, the last one filled with zero bits. */
  function SextetsOf(b: Bytes): (g: Bytes)
    ensures Sextets(g)
  {
    NarrowThenWiden(b, 6);
    Pow2Of6();
    Regrouped(b, 8, 6, true).value
  }

  function Encode(b: Bytes): Text {
    var g := SextetsOf(b);
    DigitsOf(g) + Repeat(61, Signs(|g|))
  }

  /** How many of the last two characters are `=` signs at the end. */
  function Trailing(t: Text): (k: nat)
    ensures k <= |t| && k <= 2
  {
    if t == [] || t[|t| - 1] != 61 then 0
    else if |t| == 1 || t[|t| - 2] != 61 then 1
    else 2
  }

  function Decode(t: Text): Option<Bytes> {
    var digits := t[..|t| - Trailing(t)];
    if |t| % 4 != 0 || !AllDigits(digits) then None
    else Regrouped(ValuesOf(digits), 6, 8, false)
  }

  lemma Pow2Of6()
    ensures Pow2(6) == 64
  {
    Pow2Values();
    assert Pow2(6) == 2 * Pow2(5);
  }

  // ---- Base64 as RFC 4648 has it: three bytes at a time ----

  lemma Alphabet(v: nat)
    requires v < 64
    ensures v < 26 ==> Digit(v) == 'A' as int + v
    ensures 26 <= v < 52 ==> Digit(v) == 'a' as int + v - 26
    ensures 52 <= v < 62 ==> Digit(v) == '0' as int + v - 52
    ensures Digit(62) == '+' as int && Digit(63) == '/' as int
  {
  }

  lemma SmallPow2()
    ensures Pow2(2) == 4 && Pow2(4) == 16 && Pow2(6) == 64
  {
    assert Pow2(4) == 4 * Pow2(2);
    assert Pow2(6) == 4 * Pow2(4);
  }

  /** The four sextets of three bytes. */
  function Quartet(a: u8, b: u8, c: u8): (g: Bytes)
    ensures |g| == 4 && Sextets(g)
  {
    [a / 4, a % 4 * 16 + b / 16, b % 16 * 4 + c / 64, c % 64]
  }

  lemma SextetsFit(g: Bytes)
    requires Sextets(g)
    ensures Fits(g, 6)
  {
    SmallPow2();
  }

  lemma BytesFit(b: Bytes)
    ensures Fits(b, 8)
  {
    Pow2Values();
  }

  lemma ShlValues(n: nat)
    ensures Shl(n, 2) == 4 * n && Shl(n, 4) == 16 * n && Shl(n, 6) == 64 * n && Shl(n, 8) == 256 * n
  {
    assert Shl(n, 2) == 2 * Shl(n, 1) && Shl(n, 1) == 2 * n;
    assert Shl(n, 4) == 2 * Shl(n, 3) && Shl(n, 3) == 2 * Shl(n, 2);
    assert Shl(n, 6) == 2 * Shl(n, 5) && Shl(n, 5) == 2 * Shl(n, 4);
    assert Shl(n, 8) == 2 * Shl(n, 7) && Shl(n, 7) == 2 * Shl(n, 6);
  }

  lemma NumberSnoc(d: Bytes, x: u8, w: nat)
    ensures Number(d + [x], w) == Shl(Number(d, w), w) + x
  {
  }

  lemma ByteNumbers(a: u8, b: u8, c: u8)
    ensures Number([a], 8) == a && Number([a, b], 8) == 256 * a + b
    ensures Number([a, b, c], 8) == 256 * (256 * a + b) + c
  {
    assert [] + [a] == [a] && [a] + [b] == [a, b] && [a, b] + [c] == [a, b, c];
    NumberSnoc([], a, 8);
    NumberSnoc([a], b, 8);
    NumberSnoc([a, b], c, 8);
    ShlValues(0);
    ShlValues(a);
    ShlValues(256 * a + b);
  }

  lemma SextetNumbers(p: u8, q: u8, r: u8, s: u8)
    ensures Number([p, q], 6) == 64 * p + q && Number([p, q, r], 6) == 64 * (64 * p + q) + r
    ensures Number([p, q, r, s], 6) == 64 * (64 * (64 * p + q) + r) + s
  {
    assert [] + [p] == [p] && [p] + [q] == [p, q] && [p, q] + [r] == [p, q, r] && [p, q, r] + [s] == [p, q, r, s];
    NumberSnoc([], p, 6);
    NumberSnoc([p], q, 6);
    NumberSnoc([p, q], r, 6);
    NumberSnoc([p, q, r], s, 6);
    ShlValues(0);
    ShlValues(p);
    ShlValues(64 * p + q);
    ShlValues(64 * (64 * p + q) + r);
  }

  lemma SextetArithmetic(a: u8, b: u8, c: u8)
    ensures var p, q, r := a / 4, a % 4 * 16 + b / 16, b % 16 * 4 + c / 64;
            && 256 * (256 * a + b) + c == 64 * (64 * (64 * p + q) + r) + c % 64
            && 4 * (256 * a + b) == 64 * (64 * p + q) + b % 16 * 4
            && 16 * a == 64 * p + a % 4 * 16
  {
    assert a == 4 * (a / 4) + a % 4;
    assert b == 16 * (b / 16) + b % 16;
    assert c == 64 * (c / 64) + c % 64;
  }

  lemma QuartetSpells(a: u8, b: u8, c: u8)
    ensures Fits(Quartet(a, b, c), 6) && BitString([a, b, c], 8) == BitString(Quartet(a, b, c), 6)
  {
    var g := Quartet(a, b, c);
    SextetsFit(g);
    BytesFit([a, b, c]);
    ByteNumbers(a, b, c);
    SextetNumbers(g[0], g[1], g[2], g[3]);
    SextetArithmetic(a, b, c);
    SameNumber([a, b, c], 8, 0, g, 6);
    assert BitString([a, b, c], 8) + Repeat(false, 0) == BitString([a, b, c], 8);
  }

  lemma FrontSextets(a: u8, b: u8, c: u8, rest: Bytes)
    ensures Fits(Quartet(a, b, c), 6)
    ensures BitString([a, b, c] + rest, 8) == BitString(Quartet(a, b, c), 6) + BitString(rest, 8)
  {
    QuartetSpells(a, b, c);
    BitStringAppend([a, b, c], rest, 8);
  }

  lemma TripleSextets(a: u8, b: u8, c: u8, rest: Bytes)
    ensures SextetsOf([a, b, c] + rest)
         == Quartet(a, b, c) + SextetsOf(rest)
  {
    FrontSextets(a, b, c, rest);
    NarrowThenWiden(rest, 6);
    NarrowThenWiden([a, b, c] + rest, 6);
    FilledBehind(Quartet(a, b, c), BitString(rest, 8));
  }

  lemma FilledBehind(g: Bytes, r: seq<bool>)
    requires Fits(g, 6)
    ensures var s := BitString(g, 6) + r;
            Groups(s + Filler(s, 6), 6) == g + Groups(r + Filler(r, 6), 6)
  {
    GroupsInFront(g, r, 6);
    GroupsInFront(g, r + Filler(r, 6), 6);
    ConcatAssociates(BitString(g, 6), r, Filler(r, 6));
  }

  /** Three bytes are written as four digits, whatever follows (section 4 of RFC 4648). */
  lemma EncodeTriple(a: u8, b: u8, c: u8, rest: Bytes)
    ensures Encode([a, b, c] + rest)
         == [Digit(a / 4), Digit(a % 4 * 16 + b / 16), Digit(b % 16 * 4 + c / 64), Digit(c % 64)] + Encode(rest)
  {
    TripleSextets(a, b, c, rest);
    FourDigits(Quartet(a, b, c), SextetsOf(rest));
  }

  lemma FourDigits(g: Bytes, h: Bytes)
    requires |g| == 4 && Sextets(g) && Sextets(h)
    ensures Sextets(g + h)
    ensures DigitsOf(g + h) + Repeat(61, Signs(|g + h|))
         == [Digit(g[0]), Digit(g[1]), Digit(g[2]), Digit(g[3])] + (DigitsOf(h) + Repeat(61, Signs(|h|)))
  {
    assert |g + h| % 4 == |h| % 4;
  }

  /** One or two bytes at the end are filled up with zeros and `=` signs. */
  lemma EncodeTail(a: u8, b: u8)
    ensures Encode([]) == []
    ensures Encode([a]) == [Digit(a / 4), Digit(a % 4 * 16), '=' as int, '=' as int]
    ensures Encode([a, b]) == [Digit(a / 4), Digit(a % 4 * 16 + b / 16), Digit(b % 16 * 4), '=' as int]
  {
    TailSextets(a, b);
    TailDigits(a / 4, a % 4 * 16, 0);
    TailDigits(a / 4, a % 4 * 16 + b / 16, b % 16 * 4);
  }

  lemma TailDigits(p: u8, q: u8, r: u8)
    requires p < 64 && q < 64 && r < 64
    ensures DigitsOf([]) + Repeat(61, Signs(0)) == []
    ensures DigitsOf([p, q]) + Repeat(61, Signs(2)) == [Digit(p), Digit(q), 61, 61]
    ensures DigitsOf([p, q, r]) + Repeat(61, Signs(3)) == [Digit(p), Digit(q), Digit(r), 61]
  {
  }

  lemma SextetsAre(b: Bytes, g: Bytes, fill: nat)
    requires fill < 6 && Fits(g, 6) && BitString(b, 8) + Repeat(false, fill) == BitString(g, 6)
    ensures SextetsOf(b) == g
  {
    var s := BitString(b, 8);
    FillerFills(s, 6);
    GroupsSpell(s + Filler(s, 6), 6);
    SameFiller(s, Repeat(false, fill), Filler(s, 6), g, Groups(s + Filler(s, 6), 6), 6);
    assert BitString(g, 6) == BitString(g, 6) + [];
    GroupsUnique(g, [], 6);
    NarrowThenWiden(b, 6);
  }

  lemma TailSextets(a: u8, b: u8)
    ensures SextetsOf([]) == []
    ensures SextetsOf([a]) == [a / 4, a % 4 * 16]
    ensures SextetsOf([a, b]) == [a / 4, a % 4 * 16 + b / 16, b % 16 * 4]
  {
    SextetsAre([], [], 0);
    OneByte(a);
    SextetsAre([a], [a / 4, a % 4 * 16], 4);
    TwoBytes(a, b);
    SextetsAre([a, b], [a / 4, a % 4 * 16 + b / 16, b % 16 * 4], 2);
  }

  lemma OneByte(a: u8)
    ensures Fits([a / 4, a % 4 * 16], 6)
    ensures BitString([a], 8) + Repeat(false, 4) == BitString([a / 4, a % 4 * 16], 6)
  {
    var g: Bytes := [a / 4, a % 4 * 16];
    SextetsFit(g);
    BytesFit([a]);
    ByteNumbers(a, 0, 0);
    SextetNumbers(g[0], g[1], 0, 0);
    SextetArithmetic(a, 0, 0);
    ShlValues(a);
    SameNumber([a], 8, 4, g, 6);
  }

  lemma TwoBytes(a: u8, b: u8)
    ensures Fits([a / 4, a % 4 * 16 + b / 16, b % 16 * 4], 6)
    ensures BitString([a, b], 8) + Repeat(false, 2) == BitString([a / 4, a % 4 * 16 + b / 16, b % 16 * 4], 6)
  {
    var g: Bytes := [a / 4, a % 4 * 16 + b / 16, b % 16 * 4];
    SextetsFit(g);
    BytesFit([a, b]);
    ByteNumbers(a, b, 0);
    SextetNumbers(g[0], g[1], g[2], 0);
    SextetArithmetic(a, b, 0);
    ShlValues(256 * a + b);
    SameNumber([a, b], 8, 2, g, 6);
  }

  lemma DigitsReadBack(g: Bytes)
    requires Sextets(g)
    ensures AllDigits(DigitsOf(g)) && ValuesOf(DigitsOf(g)) == g
  {
  }

  lemma ValuesReadBack(t: Text)
    requires AllDigits(t)
    ensures DigitsOf(ValuesOf(t)) == t
  {
  }

  /** Whole bytes take up whole sextets, and fewer than six bits of filler. */
  lemma SextetCount(b: Bytes)
    ensures 8 * |b| <= 6 * |SextetsOf(b)| < 8 * |b| + 6
  {
    var s := BitString(b, 8);
    FillerFills(s, 6);
    GroupsSpell(s + Filler(s, 6), 6);
    BitStringLength(b, 8);
    BitStringLength(SextetsOf(b), 6);
  }

  /** Every three bytes take up four characters. */
  lemma EncodedLength(b: Bytes)
    ensures |Encode(b)| == (|b| + 2) / 3 * 4
    ensures Plain(Encode(b))
  {
    SextetCount(b);
    Quadruples(|b|, |SextetsOf(b)|);
    DigitsArePlain(SextetsOf(b));
  }

  lemma Quadruples(n: nat, g: nat)
    requires 8 * n <= 6 * g < 8 * n + 6
    ensures g + Signs(g) == (n + 2) / 3 * 4 && Signs(g) <= 2
  {
    var q, r := n / 3, n % 3;
    SextetsOfTriples(q, r, g);
    CharactersOfTriples(q, r);
    assert n == 3 * q + r;
  }

  lemma SextetsOfTriples(q: nat, r: nat, g: nat)
    requires r < 3 && 8 * (3 * q + r) <= 6 * g < 8 * (3 * q + r) + 6
    ensures g == 4 * q + if r == 0 then 0 else r + 1
  {
  }

  lemma CharactersOfTriples(q: nat, r: nat)
    requires r < 3
    ensures var g := 4 * q + if r == 0 then 0 else r + 1;
            g + Signs(g) == (3 * q + r + 2) / 3 * 4 && Signs(g) <= 2
  {
    SignsAfter(q, if r == 0 then 0 else r + 1);
    TriplesBegun(q, r);
  }

  lemma SignsAfter(q: nat, c: nat)
    requires c < 4
    ensures Signs(4 * q + c) == if c == 0 then 0 else 4 - c
  {
    assert (4 * q + c) % 4 == c;
  }

  lemma TriplesBegun(q: nat, r: nat)
    requires r < 3
    ensures (3 * q + r + 2) / 3 == if r == 0 then q else q + 1
  {
  }

  lemma DigitsArePlain(g: Bytes)
    requires Sextets(g)
    ensures Plain(DigitsOf(g) + Repeat(61, Signs(|g|)))
  {
  }

  lemma EncodeTrails(b: Bytes)
    ensures Trailing(Encode(b)) == Signs(|SextetsOf(b)|)
    ensures Encode(b)[..|Encode(b)| - Trailing(Encode(b))] == DigitsOf(SextetsOf(b))
  {
    SextetCount(b);
    var g := SextetsOf(b);
    Quadruples(|b|, |g|);
    var d := DigitsOf(g);
    assert Encode(b)[..|d|] == d;
  }

  lemma DecodeInvertsEncode(b: Bytes)
    ensures Decode(Encode(b)) == Some(b)
  {
    EncodeTrails(b);
    DigitsReadBack(SextetsOf(b));
    NarrowThenWiden(b, 6);
  }

  /** The decoder is strict: it reads nothing but what the encoder writes. */
  lemma DecodesExactly(t: Text, b: Bytes)
    ensures Decode(t) == Some(b) <==> t == Encode(b)
  {
    DecodeInvertsEncode(b);
    if Decode(t) == Some(b) {
      var digits := t[..|t| - Trailing(t)];
      var g := ValuesOf(digits);
      WidenThenNarrow(g, 6);
      ValuesReadBack(digits);
      assert SextetsOf(b) == g;
      SignsFit(b, t, digits);
    }
  }

  lemma SignsUnique(n: nat, k: nat)
    requires (n + k) % 4 == 0 && k < 4
    ensures k == Signs(n)
  {
  }

  lemma SignsFit(b: Bytes, t: Text, digits: Text)
    requires digits == t[..|t| - Trailing(t)] && |t| % 4 == 0
    requires digits == DigitsOf(SextetsOf(b))
    ensures t == Encode(b)
  {
    var k := Trailing(t);
    SignsUnique(|digits|, k);
    assert t == digits + Repeat(61, k);
  }
}
