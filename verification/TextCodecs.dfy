/**
 Valid UTF-8, hexadecimal, decimal, and the JSON text the crate writes; the codecs each with the
 reason it can be read back.
 */
module TextCodecs {
  import opened Basics

  // ---- What a Rust string can hold ----

  /** The length of the well-formed character a text begins with (section 4 of RFC 3629), or 0. */
  function CharLength(t: Text): (n: nat)
    requires t != []
    ensures n <= |t|
  {
    var c := t[0];
    if c < 0x80 then 1
    else if 0xC2 <= c <= 0xDF && Continues(t, 2, 0x80, 0xBF) then 2
    else if 0xE0 <= c <= 0xEF
      && Continues(t, 3, if c == 0xE0 then 0xA0 else 0x80, if c == 0xED then 0x9F else 0xBF) then 3
    else if 0xF0 <= c <= 0xF4
      && Continues(t, 4, if c == 0xF0 then 0x90 else 0x80, if c == 0xF4 then 0x8F else 0xBF) then 4
    else 0
  }

  /** The rest of an `n`-byte character, whose second byte may be restricted further. */
  predicate Continues(t: Text, n: nat, lo: nat, hi: nat) {
    |t| >= n >= 2 && lo <= t[1] <= hi && forall i :: 2 <= i < n ==> 0x80 <= t[i] <= 0xBF
  }

  predicate Utf8(t: Text)
    decreases |t|
  {
    t == [] || (CharLength(t) > 0 && Utf8(t[CharLength(t)..]))
  }

  /** Every Unicode scalar value, given in base 64, as section 3 of RFC 3629 writes it. */
  lemma ScalarIsUtf8(a: nat, b: nat, c: nat, d: nat)
    requires b < 64 && c < 64 && d < 64
    ensures var n := 0x4_0000 * a + 0x1000 * b + 0x40 * c + d;
            n < 0xD800 || 0xE000 <= n < 0x11_0000 ==>
              && (n < 0x80 ==> Utf8([n]))
              && (0x80 <= n < 0x800 ==> Utf8([0xC0 + c, 0x80 + d]))
              && (0x800 <= n < 0x1_0000 ==> Utf8([0xE0 + b, 0x80 + c, 0x80 + d]))
              && (0x1_0000 <= n ==> Utf8([0xF0 + a, 0x80 + b, 0x80 + c, 0x80 + d]))
  {
    var n := 0x4_0000 * a + 0x1000 * b + 0x40 * c + d;
    if n < 0x80 {
      WholeCharacter([n]);
    } else if n < 0x800 {
      WholeCharacter([0xC0 + c, 0x80 + d]);
    } else if n < 0xD800 || 0xE000 <= n < 0x1_0000 {
      WholeCharacter([0xE0 + b, 0x80 + c, 0x80 + d]);
    } else if 0x1_0000 <= n < 0x11_0000 {
      WholeCharacter([0xF0 + a, 0x80 + b, 0x80 + c, 0x80 + d]);
    }
  }

  lemma WholeCharacter(t: Text)
    requires t != [] && CharLength(t) == |t|
    ensures Utf8(t)
  {
    assert t[|t|..] == [];
  }

  /** Overlong forms, surrogates and stray bytes are not UTF-8. */
  lemma NotUtf8(rest: Text)
    ensures !Utf8([0x80] + rest) && !Utf8([0xC0, 0x80] + rest) && !Utf8([0xE0, 0x9F, 0x80] + rest)
    ensures !Utf8([0xED, 0xA0, 0x80] + rest) && !Utf8([0xF0, 0x8F, 0x80, 0x80] + rest)
    ensures !Utf8([0xF4, 0x90, 0x80, 0x80] + rest) && !Utf8([0xF5] + rest) && !Utf8([0xC3])
  {
  }

  predicate OptUtf8(t: Option<Text>) {
    t.Some? ==> Utf8(t.value)
  }

  lemma {:induction false} AsciiIsUtf8(t: Text)
    requires forall i :: 0 <= i < |t| ==> t[i] < 0x80
    ensures Utf8(t)
  {
    if t != [] {
      AsciiIsUtf8(t[1..]);
    }
  }

  // ---- hex::encode and hex::decode ----

  function HexDigit(n: nat): u8
    requires n < 16
  {
    if n < 10 then 48 + n else 87 + n
  }

  function HexValue(c: u8): Option<nat> {
    if 48 <= c <= 57 then Some(c - 48)
    else if 97 <= c <= 102 then Some(c - 87)
    else if 65 <= c <= 70 then Some(c - 55)
    else None
  }

  function HexEncode(b: Bytes): (t: Text)
    ensures |t| == 2 * |b|
    ensures forall i :: 0 <= i < |t| ==> 48 <= t[i] <= 57 || 97 <= t[i] <= 102
  {
    if b == [] then [] else [HexDigit(b[0] / 16), HexDigit(b[0] % 16)] + HexEncode(b[1..])
  }

  function HexDecode(t: Text): (r: Option<Bytes>)
    ensures r.Some? ==> |t| == 2 * |r.value|
  {
    if t == [] then Some([])
    else if |t| == 1 then None
    else
      match (HexValue(t[0]), HexValue(t[1]), HexDecode(t[2..]))
      case (Some(hi), Some(lo), Some(rest)) =>
        assert hi < 16 && lo < 16;
        Some([16 * hi + lo] + rest)
      case _ => None
  }

  lemma {:induction false} HexRoundTrip(b: Bytes)
    ensures HexDecode(HexEncode(b)) == Some(b)
  {
    if b != [] {
      HexRoundTrip(b[1..]);
      assert HexEncode(b)[2..] == HexEncode(b[1..]);
      assert b == [b[0]] + b[1..];
    }
  }

  /** Two digits for every byte, the high one first. */
  lemma {:induction false} HexDigits(b: Bytes, i: nat)
    requires i < |b|
    ensures HexEncode(b)[2 * i] == Lit("0123456789abcdef")[b[i] / 16]
    ensures HexEncode(b)[2 * i + 1] == Lit("0123456789abcdef")[b[i] % 16]
  {
    HexDigitIs(b[i] / 16);
    HexDigitIs(b[i] % 16);
    if i > 0 {
      HexDigits(b[1..], i - 1);
    }
  }

  lemma HexDigitIs(n: nat)
    requires n < 16
    ensures HexDigit(n) == Lit("0123456789abcdef")[n]
  {
  }

  lemma DigitDecodes(c: u8, v: nat)
    requires v < 16
    ensures HexValue(c) == Some(v) <==> LowerByte(c) == HexDigit(v)
  {
  }

  lemma PairDecodes(x: u8, y: u8, b: u8)
    ensures HexValue(x).Some? && HexValue(y).Some? && b == 16 * HexValue(x).value + HexValue(y).value
       <==> LowerByte(x) == HexDigit(b / 16) && LowerByte(y) == HexDigit(b % 16)
  {
    DigitDecodes(x, b / 16);
    DigitDecodes(y, b % 16);
    if HexValue(x).Some? && HexValue(y).Some? {
      HalvesUnique(b, HexValue(x).value, HexValue(y).value);
    }
  }

  lemma HalvesUnique(b: u8, hi: nat, lo: nat)
    requires hi < 16 && lo < 16
    ensures b == 16 * hi + lo <==> b / 16 == hi && b % 16 == lo
  {
  }

  lemma HexCons(t: Text, b: Bytes)
    requires |t| >= 2 && b != []
    ensures HexDecode(t) == Some(b) <==>
            && HexDecode(t[2..]) == Some(b[1..])
            && HexValue(t[0]).Some? && HexValue(t[1]).Some?
            && b[0] == 16 * HexValue(t[0]).value + HexValue(t[1]).value
  {
    HexUnfolds(t);
    PairInFront(t[0], t[1], HexDecode(t[2..]), HexDecode(t), b);
  }

  lemma HexUnfolds(t: Text)
    requires |t| >= 2
    ensures HexDecode(t) ==
            if HexValue(t[0]).Some? && HexValue(t[1]).Some? && HexDecode(t[2..]).Some?
            then Some([HexByte(t[0], t[1])] + HexDecode(t[2..]).value) else None
  {
  }

  lemma PairInFront(x: u8, y: u8, rest: Option<Bytes>, whole: Option<Bytes>, b: Bytes)
    requires b != []
    requires whole == if HexValue(x).Some? && HexValue(y).Some? && rest.Some?
                      then Some([HexByte(x, y)] + rest.value) else None
    ensures whole == Some(b) <==>
            && rest == Some(b[1..]) && HexValue(x).Some? && HexValue(y).Some?
            && b[0] == 16 * HexValue(x).value + HexValue(y).value
  {
    if whole.Some? {
      ConsExactly(HexByte(x, y), rest.value, b);
    }
  }

  function HexByte(x: u8, y: u8): u8
    requires HexValue(x).Some? && HexValue(y).Some?
  {
    assert HexValue(x).value < 16 && HexValue(y).value < 16;
    16 * HexValue(x).value + HexValue(y).value
  }

  lemma ConsExactly(x: u8, rest: Bytes, b: Bytes)
    requires b != []
    ensures [x] + rest == b <==> x == b[0] && rest == b[1..]
  {
    assert b == [b[0]] + b[1..];
    assert ([x] + rest)[1..] == rest && ([x] + rest)[0] == x;
  }

  /** A text decodes exactly to what it encodes once its letters are small. */
  lemma {:induction false} HexDecodesExactly(t: Text, b: Bytes)
    ensures HexDecode(t) == Some(b) <==> Lower(t) == HexEncode(b)
  {
    if |t| >= 2 && b != [] {
      HexCons(t, b);
      HexDecodesExactly(t[2..], b[1..]);
      PairDecodes(t[0], t[1], b[0]);
      LowerPair(t, b);
    }
  }

  lemma LowerPair(t: Text, b: Bytes)
    requires |t| >= 2 && b != []
    ensures Lower(t) == HexEncode(b) <==>
            && LowerByte(t[0]) == HexDigit(b[0] / 16) && LowerByte(t[1]) == HexDigit(b[0] % 16)
            && Lower(t[2..]) == HexEncode(b[1..])
  {
    assert Lower(t) == [LowerByte(t[0]), LowerByte(t[1])] + Lower(t[2..]);
    var d, e := [HexDigit(b[0] / 16), HexDigit(b[0] % 16)], HexEncode(b[1..]);
    assert HexEncode(b) == d + e && (d + e)[..2] == d && (d + e)[2..] == e;
    assert Lower(t)[..2] == [LowerByte(t[0]), LowerByte(t[1])] && Lower(t)[2..] == Lower(t[2..]);
  }

  /** Without capitals there is one way to spell a byte string in hex. */
  lemma HexSpelledOnce(t: Text, b: Bytes)
    requires HexDecode(t) == Some(b) && NoUppercase(t)
    ensures t == HexEncode(b)
  {
    HexDecodesExactly(t, b);
    LowerFixes(t);
  }

  // ---- Decimal numbers ----

  function Digits(n: nat): (t: Text)
    ensures |t| >= 1
    ensures forall i :: 0 <= i < |t| ==> 48 <= t[i] <= 57
  {
    if n < 10 then [48 + n] else Digits(n / 10) + [48 + n % 10]
  }

  function Decimal(x: int): (t: Text)
    ensures |t| >= 1
  {
    if x < 0 then [45] + Digits(-x) else Digits(x)
  }

  function DigitsValue(t: Text): int {
    if t == [] then 0 else 10 * DigitsValue(t[..|t| - 1]) + t[|t| - 1] - 48
  }

  lemma {:induction false} DigitsRead(n: nat)
    ensures DigitsValue(Digits(n)) == n
  {
    if n >= 10 {
      DigitsRead(n / 10);
      assert Digits(n)[..|Digits(n)| - 1] == Digits(n / 10);
    } else {
      assert Digits(n)[..0] == [];
    }
  }

  function DecimalValue(t: Text): int
    requires t != []
  {
    if t[0] == 45 then -DigitsValue(t[1..]) else DigitsValue(t)
  }

  lemma DecimalRead(x: int)
    ensures DecimalValue(Decimal(x)) == x
  {
    if x < 0 {
      var d := Digits(-x);
      assert Decimal(x) == [45] + d;
      DigitsRead(-x);
      assert ([45] + d)[1..] == d;
    } else {
      DigitsRead(x);
      assert Decimal(x)[0] != 45;
    }
  }

  /** Digits without a zero in front, and a sign for negative numbers. */
  lemma DecimalIs(x: int)
    ensures x < 0 ==> Decimal(x) == Lit("-") + Decimal(-x)
    ensures x > 0 ==> Decimal(x)[0] != '0' as int && DigitsValue(Decimal(x)) == x
    ensures Decimal(0) == Lit("0")
  {
    if x > 0 {
      DigitsRead(x);
      NoLeadingZero(x);
    }
  }

  lemma {:induction false} NoLeadingZero(n: nat)
    requires n > 0
    ensures Digits(n)[0] != 48
  {
    if n >= 10 {
      NoLeadingZero(n / 10);
    }
  }

  function Pow10(k: nat): nat {
    if k == 0 then 1 else 10 * Pow10(k - 1)
  }

  lemma {:induction false} DigitsBounded(n: nat, k: nat)
    requires k >= 1 && n < Pow10(k)
    ensures |Digits(n)| <= k
  {
    if n >= 10 {
      DigitsBounded(n / 10, k - 1);
    }
  }

  lemma TimestampWidth(x: i64)
    ensures 1 <= |Decimal(x)| <= 20
  {
    assert Pow10(6) == 1_000_000;
    assert Pow10(12) == 1_000_000 * Pow10(6);
    assert Pow10(18) == 1_000_000 * Pow10(12);
    assert Pow10(19) == 10 * Pow10(18);
    var n: nat := if x < 0 then -(x as int) else x;
    DigitsBounded(n, 19);
  }

  // ---- Self-delimiting text ----

  /** Whatever follows, the text says where it ends and what it stands for. */
  ghost predicate Delimits<T(!new)>(enc: T -> Text) {
    forall a, b, x, y :: enc(a) + x == enc(b) + y ==> a == b && x == y
  }

  lemma SplitAt(a: Text, x: Text, b: Text, y: Text)
    requires a + x == b + y && |a| == |b|
    ensures a == b && x == y
  {
    assert (a + x)[..|a|] == a && (b + y)[..|b|] == b;
    assert (a + x)[|a|..] == x && (b + y)[|b|..] == y;
  }

  lemma Overlap(a: Text, x: Text, b: Text, y: Text)
    requires a + x == b + y && x != []
    ensures |a| < |b| ==> x[0] == b[|a|]
  {
    if |a| < |b| {
      assert (a + x)[|a|] == x[0] && (b + y)[|a|] == b[|a|];
    }
  }

  /** A number followed by something that is not a digit. */
  lemma DecimalDelimits(m: int, x: Text, n: int, y: Text)
    requires Decimal(m) + x == Decimal(n) + y
    requires x != [] && !(48 <= x[0] <= 57) && y != [] && !(48 <= y[0] <= 57)
    ensures m == n && x == y
  {
    Overlap(Decimal(m), x, Decimal(n), y);
    Overlap(Decimal(n), y, Decimal(m), x);
    SplitAt(Decimal(m), x, Decimal(n), y);
    DecimalRead(m);
    DecimalRead(n);
  }

  // ---- JSON strings ----

  /** serde_json's escape of one byte of a string. */
  function Escaped(c: u8): (t: Text)
    ensures 1 <= |t| && t[0] != 34
  {
    if c == 34 || c == 92 then [92, c]
    else if c == 8 then [92, 98]
    else if c == 9 then [92, 116]
    else if c == 10 then [92, 110]
    else if c == 12 then [92, 102]
    else if c == 13 then [92, 114]
    else if c < 32 then [92, 117, 48, 48, HexDigit(c / 16), HexDigit(c % 16)]
    else [c]
  }

  /** The rest of a JSON string literal, closing quote included. */
  function QuoteTail(t: Text): Text {
    if t == [] then [34] else Escaped(t[0]) + QuoteTail(t[1..])
  }

  function Quote(t: Text): (q: Text)
    ensures |q| >= 1 && q[0] == 34
  {
    [34] + QuoteTail(t)
  }

  /** What a byte of a string is written as. */
  lemma EscapedIs(c: u8)
    ensures c == '\"' as int ==> Escaped(c) == Lit("\\\"")
    ensures c == '\\' as int ==> Escaped(c) == Lit("\\\\")
    ensures c == 8 ==> Escaped(c) == Lit("\\b")
    ensures c == '\t' as int ==> Escaped(c) == Lit("\\t")
    ensures c == '\n' as int ==> Escaped(c) == Lit("\\n")
    ensures c == 12 ==> Escaped(c) == Lit("\\f")
    ensures c == '\r' as int ==> Escaped(c) == Lit("\\r")
    ensures c < 32 && c !in {8, 9, 10, 12, 13} ==> Escaped(c) == Lit("\\u00") + HexEncode([c])
    ensures c >= 32 && c != 34 && c != 92 ==> Escaped(c) == [c]
  {
    assert HexEncode([c]) == [HexDigit(c / 16), HexDigit(c % 16)];
  }

  /** A string is written byte by byte, between quotes. */
  lemma QuoteIs(t: Text)
    ensures Quote(t) == Lit("\"") + FlatMap(Escaped, t) + Lit("\"")
  {
    QuoteTailIs(t);
  }

  lemma {:induction false} QuoteTailIs(t: Text)
    ensures QuoteTail(t) == FlatMap(Escaped, t) + [34]
  {
    if t != [] {
      QuoteTailIs(t[1..]);
      assert t == [t[0]] + t[1..];
      FlatMapAppend(Escaped, [t[0]], t[1..]);
      FlatMapSnoc(Escaped, [], t[0]);
      assert [] + [t[0]] == [t[0]];
    }
  }

  lemma EscapedDelimits(a: u8, x: Text, b: u8, y: Text)
    requires Escaped(a) + x == Escaped(b) + y
    ensures a == b && x == y
  {
    var e, f := Escaped(a), Escaped(b);
    assert (e + x)[0] == e[0] && (f + y)[0] == f[0];
    if e[0] == 92 {
      assert (e + x)[1] == e[1] && (f + y)[1] == f[1];
      if e[1] == 117 {
        assert (e + x)[4] == e[4] && (f + y)[4] == f[4];
        assert (e + x)[5] == e[5] && (f + y)[5] == f[5];
      }
    }
    SplitAt(e, x, f, y);
  }

  lemma {:induction false} QuoteTailDelimits(a: Text, x: Text, b: Text, y: Text)
    requires QuoteTail(a) + x == QuoteTail(b) + y
    ensures a == b && x == y
    decreases |a|
  {
    if a == [] || b == [] {
      assert (QuoteTail(a) + x)[0] == QuoteTail(a)[0] && (QuoteTail(b) + y)[0] == QuoteTail(b)[0];
      SplitAt(QuoteTail(a), x, QuoteTail(b), y);
    } else {
      var u, v := QuoteTail(a[1..]) + x, QuoteTail(b[1..]) + y;
      assert Escaped(a[0]) + u == QuoteTail(a) + x && Escaped(b[0]) + v == QuoteTail(b) + y;
      EscapedDelimits(a[0], u, b[0], v);
      QuoteTailDelimits(a[1..], x, b[1..], y);
      assert a == [a[0]] + a[1..] && b == [b[0]] + b[1..];
    }
  }

  lemma QuotePeels(a: Text, x: Text, b: Text, y: Text)
    requires Quote(a) + x == Quote(b) + y
    ensures a == b && x == y
  {
    var u, v := QuoteTail(a) + x, QuoteTail(b) + y;
    assert Quote(a) + x == [34] + u && Quote(b) + y == [34] + v;
    SplitAt([34], u, [34], v);
    QuoteTailDelimits(a, x, b, y);
  }

  lemma QuoteDelimits()
    ensures Delimits(Quote)
  {
    forall a, b, x, y | Quote(a) + x == Quote(b) + y
      ensures a == b && x == y
    {
      QuotePeels(a, x, b, y);
    }
  }

  /** ASCII that `serde_json` writes between the quotes unchanged. */
  predicate Plain(t: Text) {
    forall i :: 0 <= i < |t| ==> 32 <= t[i] < 0x80 && t[i] != 34 && t[i] != 92
  }

  lemma {:induction false} PlainQuoteLength(t: Text)
    requires Plain(t)
    ensures |QuoteTail(t)| == |t| + 1 && |Quote(t)| == |t| + 2
  {
    if t != [] {
      PlainQuoteLength(t[1..]);
    }
  }

  lemma {:induction false} HexIsPlain(t: Text)
    requires HexDecode(t).Some?
    ensures Plain(t)
  {
    if t != [] {
      HexIsPlain(t[2..]);
      assert t == t[..2] + t[2..];
    }
  }

  // ---- JSON arrays ----

  function ArrayTail<T>(enc: T -> Text, items: seq<T>): (t: Text)
    ensures |t| >= 1 && t[0] == if items == [] then 93 else 44
  {
    if items == [] then [93] else [44] + (enc(items[0]) + ArrayTail(enc, items[1..]))
  }

  function Array<T>(enc: T -> Text, items: seq<T>): (t: Text)
    ensures |t| >= 1 && t[0] == 91
  {
    if items == [] then [91, 93] else [91] + (enc(items[0]) + ArrayTail(enc, items[1..]))
  }

  /** Items in brackets, with commas between them. */
  lemma ArrayIs<T>(enc: T -> Text, x: T, rest: seq<T>)
    ensures Array(enc, []) == Lit("[]")
    ensures Array(enc, [x]) == Lit("[") + enc(x) + Lit("]")
    ensures rest != [] ==> Array(enc, [x] + rest) == Lit("[") + enc(x) + Lit(",") + Array(enc, rest)[1..]
  {
    ArrayStarts(enc, [x]);
    ArrayStarts(enc, [x] + rest);
    if rest != [] {
      ArrayStarts(enc, rest);
      assert ([x] + rest)[1..] == rest;
    }
  }

  lemma ArrayStarts<T>(enc: T -> Text, items: seq<T>)
    requires items != []
    ensures Array(enc, items) == [91] + enc(items[0]) + ArrayTail(enc, items[1..])
  {
    ConcatAssociates([91], enc(items[0]), ArrayTail(enc, items[1..]));
  }

  lemma {:induction false} ArrayTailDelimits<T(!new)>(enc: T -> Text, a: seq<T>, x: Text, b: seq<T>, y: Text)
    requires Delimits(enc) && ArrayTail(enc, a) + x == ArrayTail(enc, b) + y
    ensures a == b && x == y
    decreases |a|
  {
    var s, t := ArrayTail(enc, a), ArrayTail(enc, b);
    assert (s + x)[0] == s[0] && (t + y)[0] == t[0];
    if a == [] {
      SplitAt(s, x, t, y);
    } else {
      var u, v := ArrayTail(enc, a[1..]) + x, ArrayTail(enc, b[1..]) + y;
      assert s + x == [44] + (enc(a[0]) + u) && t + y == [44] + (enc(b[0]) + v);
      SplitAt([44], enc(a[0]) + u, [44], enc(b[0]) + v);
      ArrayTailDelimits(enc, a[1..], x, b[1..], y);
      assert a == [a[0]] + a[1..] && b == [b[0]] + b[1..];
    }
  }

  lemma ArrayDelimits<T(!new)>(enc: T -> Text, a: seq<T>, x: Text, b: seq<T>, y: Text)
    requires Delimits(enc)
    requires forall t :: |enc(t)| >= 1 && enc(t)[0] != 93
    requires Array(enc, a) + x == Array(enc, b) + y
    ensures a == b && x == y
  {
    var s, t := Array(enc, a), Array(enc, b);
    if a == [] || b == [] {
      assert (s + x)[1] == s[1] && (t + y)[1] == t[1];
      SplitAt([91, 93], x, [91, 93], y);
    } else {
      var u, v := ArrayTail(enc, a[1..]) + x, ArrayTail(enc, b[1..]) + y;
      assert s + x == [91] + (enc(a[0]) + u) && t + y == [91] + (enc(b[0]) + v);
      SplitAt([91], enc(a[0]) + u, [91], enc(b[0]) + v);
      ArrayTailDelimits(enc, a[1..], x, b[1..], y);
      assert a == [a[0]] + a[1..] && b == [b[0]] + b[1..];
    }
  }
}
