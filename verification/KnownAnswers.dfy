/**
 A known answer: the shortest test vector of BIP-173. It fixes what theorems about inverses and
 injectivity leave to choice: the alphabet, the separator, the order of symbols and the constants.
 */
module KnownAnswers {
  import opened Basics
  import opened BitStreams
  import opened BitRegrouping
  import opened ShiftRegister
  import opened Bech32Checksum
  import opened Bech32

  lemma Alphabet(v: u8)
    requires v < 32
    ensures CharOf(v) == Lit("qpzry9x8gf2tvdw0s3jn54khce6mua7l")[v]
  {
  }

  lemma Continued(chk: bv32, a: seq<u8>, mid: bv32, b: seq<u8>, end: bv32)
    requires Fold(Feedback, chk, a) == mid && Fold(Feedback, mid, b) == end
    ensures Fold(Feedback, chk, a + b) == end
  {
    FoldAppend(Feedback, chk, a, b);
  }

  /** From the symbols to the string and back. */
  lemma SpelledBy(s: Text, hrp: Text, symbols: seq<u8>, data: Bytes)
    requires |symbols| >= 6 && Symbols(symbols) && Verifies(hrp, symbols)
    requires Regrouped(symbols[..|symbols| - 6], 5, 8, false) == Some(data)
    requires Lower(s) == hrp + [SEPARATOR] + Chars(symbols) && hrp != [] && NoUppercase(hrp) && |s| <= 90
    ensures Encoded(hrp, data) == Ok(Lower(s)) && Decoded(s) == Ok((hrp, data))
  {
    PartsExactly(hrp, symbols, data);
    DecodesExactly(s, hrp, data);
  }

  lemma ShortestFold1()
    ensures Fold(Feedback, 0x1, [3, 0, 1]) == 0x8c01
  {
  }

  lemma ShortestFold2()
    ensures Fold(Feedback, 0x8c01, [10, 28, 25]) == 0x3d6afc2b
  {
  }

  lemma ShortestFold3()
    ensures Fold(Feedback, 0x3d6afc2b, [31, 20, 31]) == 0x1
  {
  }

  lemma ShortestVerifies()
    ensures Verifies([97], [10, 28, 25, 31, 20, 31])
  {
    ShortestFold1();
    ShortestFold2();
    ShortestFold3();
    Continued(1, [3, 0, 1], 0x8c01, [10, 28, 25], 0x3d6afc2b);
    Continued(1, [3, 0, 1] + [10, 28, 25], 0x3d6afc2b, [31, 20, 31], 1);
    ExpandedA();
    assert [3, 0, 1] + [10, 28, 25, 31, 20, 31] == [3, 0, 1] + [10, 28, 25] + [31, 20, 31];
  }

  lemma ExpandedA()
    ensures Expanded([97]) == [3, 0, 1]
  {
  }

  lemma NothingRegroups()
    ensures Regrouped([], 5, 8, false) == Some([])
  {
    assert BitString([], 5) == [];
  }

  lemma ShortestSpelled(s: Text, a: Text)
    requires s == Lit("A12UEL5L") && a == Lit("a")
    ensures Symbols([10, 28, 25, 31, 20, 31])
    ensures Lower(s) == a + [SEPARATOR] + Chars([10, 28, 25, 31, 20, 31])
  {
    assert s == [65, 49, 50, 85, 69, 76, 53, 76];
    assert Chars([10, 28, 25, 31, 20, 31]) == [50, 117, 101, 108, 53, 108];
  }

  /** A valid string of BIP-173 ("Test vectors"). */
  lemma ShortestString()
    ensures Decoded(Lit("A12UEL5L")) == Ok((Lit("a"), []))
  {
    ShortestVerifies();
    NothingRegroups();
    ShortestSpelled(Lit("A12UEL5L"), Lit("a"));
    assert Lit("a") == [97];
    SpelledBy(Lit("A12UEL5L"), [97], [10, 28, 25, 31, 20, 31], []);
  }
}
