/**
 `encode` and `decode` of src/crypto/bech32.rs. `Encoded` and `Decoded` are the two results
 as functions; `DecodesExactly` says what a successful decoding means in terms of encoding.
 */
module Bech32 {
  import opened Basics
  import opened BitStreams
  import opened BitRegrouping
  import opened ShiftRegister
  import opened Bech32Checksum

  const CHARSET := "qpzry9x8gf2tvdw0s3jn54khce6mua7l"
  const SEPARATOR: u8 := 49 // '1'

  function CharOf(v: u8): u8
    requires v < 32
  {
    CHARSET[v] as int % 0x100
  }

  function Chars(values: seq<u8>): Text
    requires Symbols(values)
  {
    seq(|values|, i requires 0 <= i < |values| => CharOf(values[i]))
  }

  /** `CHARSET.iter().position(|&c| c == ch)`, from index `from` on. */
  function PositionFrom(ch: u8, from: nat): (r: Option<u8>)
    requires from <= 32
    ensures r.Some? ==> from <= r.value < 32 && CharOf(r.value) == ch
    ensures r.None? ==> forall i :: from <= i < 32 ==> CharOf(i) != ch
    decreases 32 - from
  {
    if from == 32 then None
    else if CharOf(from) == ch then Some(from)
    else PositionFrom(ch, from + 1)
  }

  function Position(ch: u8): Option<u8> {
    PositionFrom(ch, 0)
  }

  /** `str::rfind` */
  function LastIndexOf(s: Text, c: u8): (r: Option<nat>)
    ensures r.Some? ==> r.value < |s| && s[r.value] == c && forall i :: r.value < i < |s| ==> s[i] != c
    ensures r.None? ==> c !in s
  {
    if s == [] then None
    else if s[|s| - 1] == c then Some(|s| - 1)
    else LastIndexOf(s[..|s| - 1], c)
  }

  // ---- Encoding ----

  /** Everything after the separator, as symbols: the regrouped bytes and their checksum. */
  function DataPart(hrp: Text, data: Bytes): (r: Option<seq<u8>>)
    ensures r.Some? ==> |r.value| >= 6 && Symbols(r.value)
  {
    match Regrouped(data, 8, 5, true)
    case None => None
    case Some(values) =>
      Pow2Values();
      ChecksumSymbols(hrp, values);
      Some(values + Checksum(hrp, values))
  }

  function Encoded(hrp: Text, data: Bytes): Result<Text> {
    match DataPart(hrp, data)
    case None => Err(Malformed("bech32 convert_bits"))
    case Some(symbols) => Ok(hrp + [SEPARATOR] + Chars(symbols))
  }

  lemma ChecksumSymbols(hrp: Text, values: seq<u8>)
    ensures |Checksum(hrp, values)| == 6 && Symbols(Checksum(hrp, values))
  {
    forall i | 0 <= i < 6
      ensures Checksum(hrp, values)[i] < 32
    {
      WordOfNarrow(Digit(Xor(Checked(hrp, values + Repeat(0, 6)), 1), i));
    }
  }

  method Encode(hrp: Text, data: Bytes) returns (r: Result<Text>)
    ensures r == Encoded(hrp, data)
  {
    var values := ConvertBits(data, 8, 5, true);
    if values.None? {
      return Err(Malformed("bech32 convert_bits"));
    }
    var checksum := CreateChecksum(hrp, values.value);
    var symbols := values.value + checksum;
    assert DataPart(hrp, data) == Some(symbols);
    r := Spell(hrp, symbols);
  }

  /** The loop of `encode` that spells out the symbols behind the prefix and separator. */
  method Spell(hrp: Text, symbols: seq<u8>) returns (r: Result<Text>)
    requires Symbols(symbols)
    ensures r == Ok(hrp + [SEPARATOR] + Chars(symbols))
  {
    var s := hrp + [SEPARATOR];
    for i := 0 to |symbols|
      invariant s == hrp + [SEPARATOR] + Chars(symbols)[..i]
    {
      s := s + [CharOf(symbols[i])];
    }
    assert Chars(symbols)[..|symbols|] == Chars(symbols);
    return Ok(s);
  }

  // ---- Decoding ----

  function SymbolsOf(chars: Text): (r: Option<seq<u8>>)
    ensures r.Some? ==> Symbols(r.value) && Chars(r.value) == chars
    ensures r.None? ==> exists i :: 0 <= i < |chars| && Position(chars[i]).None?
  {
    if chars == [] then Some([])
    else
      var n := |chars| - 1;
      match (SymbolsOf(chars[..n]), Position(chars[n]))
      case (Some(before), Some(last)) =>
        CharsSnoc(before, last, chars);
        Some(before + [last])
      case (None, _) =>
        BadCharInPrefix(chars, n);
        None
      case _ => None
  }

  lemma CharsSnoc(before: seq<u8>, last: u8, chars: Text)
    requires chars != [] && Symbols(before) && last < 32
    requires Chars(before) == chars[..|chars| - 1] && CharOf(last) == chars[|chars| - 1]
    ensures Symbols(before + [last]) && Chars(before + [last]) == chars
  {
    assert chars == chars[..|chars| - 1] + [chars[|chars| - 1]];
  }

  lemma BadCharInPrefix(chars: Text, n: nat)
    requires n <= |chars| && exists i :: 0 <= i < n && Position(chars[..n][i]).None?
    ensures exists i :: 0 <= i < |chars| && Position(chars[i]).None?
  {
    var i :| 0 <= i < n && Position(chars[..n][i]).None?;
    assert chars[i] == chars[..n][i];
  }

  function DecodedParts(hrp: Text, data: seq<u8>): Result<(Text, Bytes)>
    requires |data| >= 6 && Symbols(data)
  {
    if !Verifies(hrp, data) then Err(Malformed("bech32 checksum"))
    else
      match Regrouped(data[..|data| - 6], 5, 8, false)
      case None => Err(Malformed("bech32 convert_bits"))
      case Some(bytes) => Ok((hrp, bytes))
  }

  function Decoded(s: Text): Result<(Text, Bytes)> {
    var lower := Lower(s);
    match LastIndexOf(lower, SEPARATOR)
    case None => Err(Malformed("bech32 no separator"))
    case Some(pos) =>
      if pos < 1 || pos + 7 > |lower| || |lower| > 90 then Err(Malformed("bech32 length"))
      else
        match SymbolsOf(lower[pos + 1..])
        case None => Err(Malformed("bech32 bad char"))
        case Some(data) => DecodedParts(lower[..pos], data)
  }

  method Decode(s: Text) returns (r: Result<(Text, Bytes)>)
    ensures r == Decoded(s)
  {
    var lower := Lower(s);
    var found := LastIndexOf(lower, SEPARATOR);
    if found.None? {
      return Err(Malformed("bech32 no separator"));
    }
    var pos := found.value;
    if pos < 1 || pos + 7 > |lower| || |lower| > 90 {
      return Err(Malformed("bech32 length"));
    }
    var hrp := lower[..pos];
    var data := Read(lower[pos + 1..]);
    if data.None? {
      return Err(Malformed("bech32 bad char"));
    }
    r := DecodeParts(hrp, data.value);
  }

  /** The loop of `decode` that looks the characters up. */
  method Read(chars: Text) returns (r: Option<seq<u8>>)
    ensures r == SymbolsOf(chars)
  {
    var data: seq<u8> := [];
    for i := 0 to |chars|
      invariant SymbolsOf(chars[..i]) == Some(data)
    {
      var idx := Position(chars[i]);
      assert chars[..i + 1][..i] == chars[..i];
      if idx.None? {
        BadCharIsFinal(chars, i + 1);
        return None;
      }
      data := data + [idx.value];
    }
    assert chars[..|chars|] == chars;
    return Some(data);
  }

  /** The rest of `decode`: the checksum, then the bytes. */
  method DecodeParts(hrp: Text, data: seq<u8>) returns (r: Result<(Text, Bytes)>)
    requires |data| >= 6 && Symbols(data)
    ensures r == DecodedParts(hrp, data)
  {
    var ok := VerifyChecksum(hrp, data);
    if !ok {
      return Err(Malformed("bech32 checksum"));
    }
    var converted := ConvertBits(data[..|data| - 6], 5, 8, false);
    if converted.None? {
      return Err(Malformed("bech32 convert_bits"));
    }
    return Ok((hrp, converted.value));
  }

  lemma BadCharIsFinal(chars: Text, k: nat)
    requires k <= |chars| && SymbolsOf(chars[..k]).None?
    ensures SymbolsOf(chars).None?
    decreases |chars|
  {
  }

  // ---- The alphabet ----

  lemma CharsetLetters(v: u8)
    requires v < 32
    ensures CharOf(v) == CHARSET[v] as int
    ensures CharOf(v) != SEPARATOR && !(65 <= CharOf(v) <= 90)
  {
    assert '0' <= CHARSET[v] <= 'z' && CHARSET[v] != '1' && !('A' <= CHARSET[v] <= 'Z');
  }

  function CharsetIndex(c: char): nat {
    match c
    case 'q' => 0 case 'p' => 1 case 'z' => 2 case 'r' => 3 case 'y' => 4 case '9' => 5 case 'x' => 6
    case '8' => 7 case 'g' => 8 case 'f' => 9 case '2' => 10 case 't' => 11 case 'v' => 12 case 'd' => 13
    case 'w' => 14 case '0' => 15 case 's' => 16 case '3' => 17 case 'j' => 18 case 'n' => 19 case '5' => 20
    case '4' => 21 case 'k' => 22 case 'h' => 23 case 'c' => 24 case 'e' => 25 case '6' => 26 case 'm' => 27
    case 'u' => 28 case 'a' => 29 case '7' => 30 case 'l' => 31 case _ => 32
  }

  lemma CharsetIndexInverts(v: u8)
    requires v < 32
    ensures CharsetIndex(CHARSET[v]) == v
  {
  }

  lemma CharOfInjective(v: u8, w: u8)
    requires v < 32 && w < 32 && CharOf(v) == CharOf(w)
    ensures v == w
  {
    CharsetLetters(v);
    CharsetLetters(w);
    CharsetIndexInverts(v);
    CharsetIndexInverts(w);
  }

  lemma {:induction false} CharsInvert(values: seq<u8>)
    requires Symbols(values)
    ensures SymbolsOf(Chars(values)) == Some(values)
  {
    if values != [] {
      var n := |values| - 1;
      assert Chars(values)[..n] == Chars(values[..n]);
      CharsInvert(values[..n]);
      CharOfInjective(Position(CharOf(values[n])).value, values[n]);
      assert values == values[..n] + [values[n]];
    }
  }

  // ---- The two directions ----

  lemma EncodeNeverFails(hrp: Text, data: Bytes)
    ensures DataPart(hrp, data).Some? && Encoded(hrp, data).Ok?
  {
    Pow2Values();
  }

  /** The symbols accepted for given bytes are exactly the ones `encode` writes. */
  lemma PartsExactly(hrp: Text, symbols: seq<u8>, data: Bytes)
    requires |symbols| >= 6 && Symbols(symbols)
    ensures DecodedParts(hrp, symbols) == Ok((hrp, data)) <==> DataPart(hrp, data) == Some(symbols)
  {
    var n := |symbols| - 6;
    var values, checksum := symbols[..n], symbols[n..];
    assert symbols == values + checksum;
    ChecksumExistsUniquely(hrp, values, checksum);
    if DecodedParts(hrp, symbols) == Ok((hrp, data)) {
      WidenThenNarrow(values, 5);
    }
    if DataPart(hrp, data) == Some(symbols) {
      DataPartSplits(hrp, data, values, checksum);
      NarrowThenWiden(data, 5);
    }
  }

  lemma DataPartSplits(hrp: Text, data: Bytes, values: seq<u8>, checksum: seq<u8>)
    requires |checksum| == 6 && DataPart(hrp, data) == Some(values + checksum)
    ensures Regrouped(data, 8, 5, true) == Some(values) && checksum == Checksum(hrp, values)
  {
    var v := Regrouped(data, 8, 5, true).value;
    var c := Checksum(hrp, v);
    ChecksumSymbols(hrp, v);
    assert v + c == values + checksum && |c| == |checksum|;
    assert (v + c)[..|v|] == v && (values + checksum)[..|v|] == values;
    assert (v + c)[|v|..] == c && (values + checksum)[|v|..] == checksum;
  }

  lemma CharsAvoidSeparator(symbols: seq<u8>)
    requires Symbols(symbols)
    ensures SEPARATOR !in Chars(symbols) && NoUppercase(Chars(symbols))
  {
    forall i | 0 <= i < |symbols|
      ensures Chars(symbols)[i] != SEPARATOR && !(65 <= Chars(symbols)[i] <= 90)
    {
      CharsetLetters(symbols[i]);
    }
  }

  lemma LastIndexUnique(s: Text, c: u8, pos: nat)
    requires pos < |s| && s[pos] == c && forall i :: pos < i < |s| ==> s[i] != c
    ensures LastIndexOf(s, c) == Some(pos)
  {
  }

  /** The last separator is the one that was written, whatever the prefix contains. */
  lemma LastSeparator(s: Text, hrp: Text, tail: Text)
    requires s == hrp + [SEPARATOR] + tail && SEPARATOR !in tail
    ensures s[|hrp|] == SEPARATOR && s[..|hrp|] == hrp && s[|hrp| + 1..] == tail
    ensures forall i :: |hrp| < i < |s| ==> s[i] != SEPARATOR
  {
  }

  lemma EncodingDecodes(s: Text, hrp: Text, data: Bytes)
    requires Encoded(hrp, data) == Ok(Lower(s)) && hrp != [] && |s| <= 90
    ensures Decoded(s) == Ok((hrp, data))
  {
    var symbols := DataPart(hrp, data).value;
    var lower := Lower(s);
    CharsAvoidSeparator(symbols);
    LastSeparator(lower, hrp, Chars(symbols));
    LastIndexUnique(lower, SEPARATOR, |hrp|);
    CharsInvert(symbols);
    PartsExactly(hrp, symbols, data);
  }

  /** What a successful decoding has seen. */
  lemma DecodedShape(s: Text, hrp: Text, data: Bytes) returns (symbols: seq<u8>)
    requires Decoded(s) == Ok((hrp, data))
    ensures |symbols| >= 6 && Symbols(symbols)
    ensures Lower(s) == hrp + [SEPARATOR] + Chars(symbols)
    ensures DecodedParts(hrp, symbols) == Ok((hrp, data))
    ensures hrp != [] && |s| <= 90
  {
    var lower := Lower(s);
    var pos := LastIndexOf(lower, SEPARATOR).value;
    symbols := SymbolsOf(lower[pos + 1..]).value;
    AroundSeparator(lower, pos, symbols);
    PartsKeepPrefix(lower[..pos], symbols);
  }

  lemma AroundSeparator(lower: Text, pos: nat, symbols: seq<u8>)
    requires pos < |lower| && lower[pos] == SEPARATOR && Symbols(symbols) && Chars(symbols) == lower[pos + 1..]
    ensures lower == lower[..pos] + [SEPARATOR] + Chars(symbols) && |symbols| == |lower| - pos - 1
  {
    assert |symbols| == |Chars(symbols)|;
  }

  lemma PartsKeepPrefix(hrp: Text, symbols: seq<u8>)
    requires |symbols| >= 6 && Symbols(symbols)
    ensures DecodedParts(hrp, symbols).Ok? ==> DecodedParts(hrp, symbols).value.0 == hrp
  {
  }

  lemma DecodingEncodes(s: Text, hrp: Text, data: Bytes)
    requires Decoded(s) == Ok((hrp, data))
    ensures Encoded(hrp, data) == Ok(Lower(s)) && hrp != [] && NoUppercase(hrp) && |s| <= 90
  {
    var symbols := DecodedShape(s, hrp, data);
    PartsExactly(hrp, symbols, data);
    LowerFixes(s);
    forall i | 0 <= i < |hrp|
      ensures !(65 <= hrp[i] <= 90)
    {
      assert Lower(s)[i] == hrp[i];
    }
  }

  /**
   Decoding is canonical: `(hrp, data)` is decoded from exactly the letter-case variants of its
   own encoding, when the prefix is non-empty and without capitals and the length is in bounds.
   */
  lemma DecodesExactly(s: Text, hrp: Text, data: Bytes)
    ensures Decoded(s) == Ok((hrp, data))
       <==> Encoded(hrp, data) == Ok(Lower(s)) && hrp != [] && NoUppercase(hrp) && |s| <= 90
  {
    if Encoded(hrp, data) == Ok(Lower(s)) && hrp != [] && |s| <= 90 {
      EncodingDecodes(s, hrp, data);
    }
    if Decoded(s) == Ok((hrp, data)) {
      DecodingEncodes(s, hrp, data);
    }
  }

  /** What is wrong with a string that has a separator, in the order of the checks. */
  lemma DecodeErrors(s: Text, hrp: Text, tail: Text)
    requires Lower(s) == hrp + [SEPARATOR] + tail && SEPARATOR !in tail
    ensures var fits := hrp != [] && |tail| >= 6 && |s| <= 90;
            var spelled := forall c :: c in tail ==> c in Lit(CHARSET);
            && (!fits <==> Decoded(s) == Err(Malformed("bech32 length")))
            && (fits && !spelled <==> Decoded(s) == Err(Malformed("bech32 bad char")))
            && forall symbols :: Symbols(symbols) && Chars(symbols) == tail && fits ==>
                 (Decoded(s) == Err(Malformed("bech32 checksum")) <==> !Verifies(hrp, symbols))
  {
    DecodedBehind(s, hrp, tail);
    SpelledExactly(tail);
    forall symbols | Symbols(symbols) && Chars(symbols) == tail
      ensures SymbolsOf(tail) == Some(symbols)
    {
      CharsInvert(symbols);
    }
  }

  lemma DecodedBehind(s: Text, hrp: Text, tail: Text)
    requires Lower(s) == hrp + [SEPARATOR] + tail && SEPARATOR !in tail
    ensures Decoded(s) ==
            if hrp == [] || |tail| < 6 || |s| > 90 then Err(Malformed("bech32 length"))
            else match SymbolsOf(tail)
                 case None => Err(Malformed("bech32 bad char"))
                 case Some(symbols) => DecodedParts(hrp, symbols)
  {
    var lower := Lower(s);
    LastSeparator(lower, hrp, tail);
    LastIndexUnique(lower, SEPARATOR, |hrp|);
  }

  lemma NoSeparator(s: Text)
    ensures SEPARATOR !in Lower(s) <==> Decoded(s) == Err(Malformed("bech32 no separator"))
  {
  }

  lemma PositionExactly(ch: u8)
    ensures Position(ch).Some? <==> ch in Lit(CHARSET)
  {
    if ch in Lit(CHARSET) {
      var i :| 0 <= i < 32 && Lit(CHARSET)[i] == ch;
      assert CharOf(i) == ch;
    }
  }

  lemma SpelledExactly(tail: Text)
    ensures SymbolsOf(tail).Some? <==> forall c :: c in tail ==> c in Lit(CHARSET)
  {
    forall c
      ensures Position(c).Some? <==> c in Lit(CHARSET)
    {
      PositionExactly(c);
    }
    if SymbolsOf(tail).Some? {
      forall c | c in tail
        ensures c in Lit(CHARSET)
      {
        var i :| 0 <= i < |tail| && tail[i] == c;
        assert c == CharOf(SymbolsOf(tail).value[i]);
      }
    }
  }

  lemma EncodingHasNoNewCapitals(hrp: Text, data: Bytes)
    requires NoUppercase(hrp)
    ensures Encoded(hrp, data).Ok? && Lower(Encoded(hrp, data).value) == Encoded(hrp, data).value
  {
    EncodeNeverFails(hrp, data);
    CharsAvoidSeparator(DataPart(hrp, data).value);
    LowerFixes(Encoded(hrp, data).value);
  }

  /** The length of an encoding, known before encoding: one symbol for every five bits begun. */
  function EncodedLength(hrp: Text, data: Bytes): nat {
    |hrp| + 1 + (8 * |data| + 4) / 5 + 6
  }

  lemma EncodingHasLength(hrp: Text, data: Bytes)
    ensures Encoded(hrp, data).Ok? && |Encoded(hrp, data).value| == EncodedLength(hrp, data)
  {
    EncodeNeverFails(hrp, data);
    var b := BitString(data, 8);
    var values := Groups(b + Filler(b, 5), 5);
    FillerFills(b, 5);
    GroupsSpell(b + Filler(b, 5), 5);
    BitStringLength(data, 8);
    BitStringLength(values, 5);
    assert |values| * 5 == |data| * 8 + |Filler(b, 5)|;
    ChecksumSymbols(hrp, values);
  }

  /** The round trip, and exactly when it holds. */
  lemma DecodeInvertsEncode(hrp: Text, data: Bytes)
    ensures Encoded(hrp, data).Ok?
    ensures Decoded(Encoded(hrp, data).value) == Ok((hrp, data))
       <==> hrp != [] && NoUppercase(hrp) && EncodedLength(hrp, data) <= 90
  {
    EncodingHasLength(hrp, data);
    if NoUppercase(hrp) {
      EncodingHasNoNewCapitals(hrp, data);
    }
    DecodesExactly(Encoded(hrp, data).value, hrp, data);
  }

  /** Spelled with a capital A and a small b, in one string. */
  function MixedCase(data: Bytes): Text {
    EncodeNeverFails([97, 98], data);
    [65] + Encoded([97, 98], data).value[1..]
  }

  lemma CaseVariantsDecode(s: Text, t: Text)
    requires Lower(s) == Lower(t)
    ensures Decoded(s) == Decoded(t)
  {
  }

  lemma EncodedStarts(hrp: Text, data: Bytes)
    requires Encoded(hrp, data).Ok?
    ensures hrp < Encoded(hrp, data).value
  {
  }

  lemma LowercaseEncoding(hrp: Text, data: Bytes) returns (t: Text)
    requires hrp != [] && NoUppercase(hrp) && EncodedLength(hrp, data) <= 90
    ensures Encoded(hrp, data) == Ok(t) && hrp < t && Lower(t) == t && Decoded(t) == Ok((hrp, data))
  {
    DecodeInvertsEncode(hrp, data);
    t := Encoded(hrp, data).value;
    EncodingHasNoNewCapitals(hrp, data);
    EncodedStarts(hrp, data);
  }

  /** BIP-173 has mixed case rejected; here it decodes. */
  lemma MixedCaseDecodes(data: Bytes)
    requires EncodedLength([97, 98], data) <= 90
    ensures MixedCase(data)[..2] == [65, 98]
    ensures Decoded(MixedCase(data)) == Ok(([97, 98], data))
  {
    var hrp: Text := [97, 98];
    var t := LowercaseEncoding(hrp, data);
    FirstLetterLowers(hrp, t, MixedCase(data));
    CaseVariantsDecode(MixedCase(data), t);
  }

  lemma FirstLetterLowers(hrp: Text, t: Text, s: Text)
    requires |hrp| == 2 && hrp[0] == 97 && hrp[1] == 98 && hrp < t && Lower(t) == t && s == [65] + t[1..]
    ensures Lower(s) == Lower(t) && s[..2] == [65, 98]
  {
    assert t[0] == hrp[0] && t[1] == hrp[1];
    forall i | 0 <= i < |t|
      ensures Lower(s)[i] == t[i]
    {
      assert Lower(t)[i] == LowerByte(t[i]);
    }
  }

  /** Two strings with one decoding differ only in letter case. */
  lemma DecodeInjectiveUpToCase(s: Text, t: Text)
    requires Decoded(s).Ok? && Decoded(s) == Decoded(t)
    ensures Lower(s) == Lower(t)
  {
    var (hrp, data) := Decoded(s).value;
    DecodesExactly(s, hrp, data);
    DecodesExactly(t, hrp, data);
  }

  // ---- npub and nsec ----

  /** `decode_npub` and `decode_nsec`, by their prefix and messages. */
  function DecodedKey(prefix: string, expected: string, wrongLength: string, s: Text): Result<Bytes> {
    var (hrp, data) :- Decoded(s);
    if hrp != Lit(prefix) then Err(Malformed(expected))
    else if |data| != 32 then Err(InvalidLength(wrongLength))
    else Ok(data)
  }

  function DecodedNpub(s: Text): Result<Bytes> {
    DecodedKey("npub", "expected npub", "npub != 32 bytes", s)
  }

  function DecodedNsec(s: Text): Result<Bytes> {
    DecodedKey("nsec", "expected nsec", "nsec != 32 bytes", s)
  }

  lemma KeyPrefixes()
    ensures Lit("npub") != Lit("nsec")
    ensures NoUppercase(Lit("npub")) && NoUppercase(Lit("nsec"))
  {
    var a, b := Lit("npub"), Lit("nsec");
    assert a[1] == 112 && b[1] == 115;
    assert a == [110, 112, 117, 98] && b == [110, 115, 101, 99];
  }

  /** An npub names exactly one key, and is spelled exactly one way up to case. */
  lemma NpubExactly(s: Text, key: Bytes)
    requires |key| == 32
    ensures DecodedNpub(s) == Ok(key) <==> Encoded(Lit("npub"), key) == Ok(Lower(s))
    ensures DecodedNpub(s) == Ok(key) ==> DecodedNsec(s) == Err(Malformed("expected nsec"))
  {
    KeyPrefixes();
    EncodingHasLength(Lit("npub"), key);
    DecodesExactly(s, Lit("npub"), key);
  }

  lemma NsecExactly(s: Text, key: Bytes)
    requires |key| == 32
    ensures DecodedNsec(s) == Ok(key) <==> Encoded(Lit("nsec"), key) == Ok(Lower(s))
    ensures DecodedNsec(s) == Ok(key) ==> DecodedNpub(s) == Err(Malformed("expected npub"))
  {
    KeyPrefixes();
    EncodingHasLength(Lit("nsec"), key);
    DecodesExactly(s, Lit("nsec"), key);
  }

  /** What is no key: another prefix, and then another length. */
  lemma KeyErrors(s: Text, hrp: Text, data: Bytes)
    requires Decoded(s) == Ok((hrp, data))
    ensures hrp != Lit("npub") <==> DecodedNpub(s) == Err(Malformed("expected npub"))
    ensures hrp == Lit("npub") && |data| != 32 <==> DecodedNpub(s) == Err(InvalidLength("npub != 32 bytes"))
    ensures hrp != Lit("nsec") <==> DecodedNsec(s) == Err(Malformed("expected nsec"))
    ensures hrp == Lit("nsec") && |data| != 32 <==> DecodedNsec(s) == Err(InvalidLength("nsec != 32 bytes"))
  {
  }

  /** What is written behind the prefix decodes under one of two similar prefixes only. */
  lemma PrefixesDecodeApart(s: Text, t: Text, tail: Text, before: Text, p: Text, q: Text, rest: Text)
    requires |p| == |q| <= 6 && p != q && forall i :: 0 <= i < |p| ==> p[i] / 32 == q[i] / 32
    requires SEPARATOR !in tail
    requires Lower(s) == before + p + rest + [SEPARATOR] + tail
    requires Lower(t) == before + q + rest + [SEPARATOR] + tail
    ensures Decoded(s).Err? || Decoded(t).Err?
  {
    if Decoded(s).Ok? && Decoded(t).Ok? {
      var a := DecodedTail(s, before + p + rest, tail);
      var b := DecodedTail(t, before + q + rest, tail);
      CharsInjective(a, b);
      PrefixesApart(before, p, q, rest, a);
    }
  }

  lemma DecodedTail(s: Text, hrp: Text, tail: Text) returns (symbols: seq<u8>)
    requires Decoded(s).Ok? && Lower(s) == hrp + [SEPARATOR] + tail && SEPARATOR !in tail
    ensures Symbols(symbols) && Chars(symbols) == tail && Verifies(hrp, symbols)
  {
    var prefix := Decoded(s).value.0;
    symbols := DecodedShape(s, prefix, Decoded(s).value.1);
    CharsAvoidSeparator(symbols);
    LastSeparator(Lower(s), prefix, Chars(symbols));
    LastSeparator(Lower(s), hrp, tail);
    assert |prefix| == |hrp|;
  }

  lemma CharsInjective(a: seq<u8>, b: seq<u8>)
    requires Symbols(a) && Symbols(b) && Chars(a) == Chars(b)
    ensures a == b
  {
    CharsInvert(a);
    CharsInvert(b);
  }

  /** No npub is an nsec with another prefix, nor the other way round. */
  lemma RelabelledFails(s: Text, t: Text, tail: Text)
    requires Lower(s) == Lit("npub1") + tail && Lower(t) == Lit("nsec1") + tail
    ensures DecodedNpub(s).Err? || DecodedNsec(t).Err?
  {
    if DecodedNpub(s).Ok? {
      var symbols := DecodedShape(s, Lit("npub"), DecodedNpub(s).value);
      CharsAvoidSeparator(symbols);
      SplitPrefix(tail, Chars(symbols));
      RelabelledTailFails(s, t, tail);
    }
  }

  lemma SplitPrefix(tail: Text, other: Text)
    requires Lit("npub1") + tail == Lit("npub") + [SEPARATOR] + other
    ensures tail == other
  {
    assert (Lit("npub1") + tail)[5..] == tail && (Lit("npub") + [SEPARATOR] + other)[5..] == other;
  }

  lemma RelabelledTailFails(s: Text, t: Text, tail: Text)
    requires SEPARATOR !in tail && Lower(s) == Lit("npub1") + tail && Lower(t) == Lit("nsec1") + tail
    ensures Decoded(s).Err? || Decoded(t).Err?
  {
    var n: Text, p: Text, q: Text := [110], [112, 117, 98], [115, 101, 99];
    assert Lit("npub1") == n + p + [] + [SEPARATOR] && Lit("nsec1") == n + q + [] + [SEPARATOR];
    assert p[0] != q[0];
    PrefixesDecodeApart(s, t, tail, n, p, q, []);
  }

  // ---- Bursts of wrong characters ----

  /**
   Two strings that decode under one prefix and, up to case, agree outside six consecutive
   positions are the same string up to case.
   */
  lemma DecodingDetectsBurst(s: Text, t: Text, at: nat)
    requires Decoded(s).Ok? && Decoded(t).Ok? && Decoded(s).value.0 == Decoded(t).value.0
    requires |s| == |t|
    requires forall i :: 0 <= i < |s| && !(at <= i < at + 6) ==> LowerByte(s[i]) == LowerByte(t[i])
    ensures Lower(s) == Lower(t)
  {
    var hrp := Decoded(s).value.0;
    var a := DecodedShape(s, hrp, Decoded(s).value.1);
    var b := DecodedShape(t, hrp, Decoded(t).value.1);
    SpelledAlike(s, t, hrp, a, b, at);
  }

  lemma SpelledAlike(s: Text, t: Text, hrp: Text, a: seq<u8>, b: seq<u8>, at: nat)
    requires Symbols(a) && Symbols(b) && Verifies(hrp, a) && Verifies(hrp, b) && |s| == |t|
    requires Lower(s) == hrp + [SEPARATOR] + Chars(a) && Lower(t) == hrp + [SEPARATOR] + Chars(b)
    requires forall i :: 0 <= i < |s| && !(at <= i < at + 6) ==> LowerByte(s[i]) == LowerByte(t[i])
    ensures Lower(s) == Lower(t)
  {
    assert |a| == |Chars(a)| && |b| == |Chars(b)|;
    var n, p := |a|, |hrp| + 1;
    var lo := if at <= p then 0 else if at - p > n then n else at - p;
    var hi := if at + 6 <= p then 0 else if at + 6 - p > n then n else at + 6 - p;
    forall i | 0 <= i < |a| && !(lo <= i < hi)
      ensures a[i] == b[i]
    {
      SameCharacter(s, t, hrp, a, b, i);
    }
    BurstInside(hrp, a, b, lo, hi);
  }

  lemma SameCharacter(s: Text, t: Text, hrp: Text, a: seq<u8>, b: seq<u8>, i: nat)
    requires Symbols(a) && Symbols(b) && i < |a| == |b|
    requires Lower(s) == hrp + [SEPARATOR] + Chars(a) && Lower(t) == hrp + [SEPARATOR] + Chars(b)
    requires |s| == |t| == |hrp| + 1 + |a|
    requires LowerByte(s[|hrp| + 1 + i]) == LowerByte(t[|hrp| + 1 + i])
    ensures a[i] == b[i]
  {
    assert Lower(s)[|hrp| + 1 + i] == Chars(a)[i] && Lower(t)[|hrp| + 1 + i] == Chars(b)[i];
    CharOfInjective(a[i], b[i]);
  }

  lemma BurstInside(hrp: Text, a: seq<u8>, b: seq<u8>, lo: nat, hi: nat)
    requires Symbols(a) && Symbols(b) && Verifies(hrp, a) && Verifies(hrp, b)
    requires |a| == |b| && lo <= hi <= |a| && hi - lo <= 6
    requires forall i :: 0 <= i < |a| && !(lo <= i < hi) ==> a[i] == b[i]
    ensures a == b
  {
    assert a == a[..lo] + a[lo..hi] + a[hi..];
    assert b == b[..lo] + b[lo..hi] + b[hi..];
    assert a[..lo] == b[..lo] && a[hi..] == b[hi..];
    BurstDetected(hrp, a[..lo], a[lo..hi], b[lo..hi], a[hi..]);
  }
}
