/**
 Which errors the BIP-173 checksum cannot see. The register is linear over XOR, so whether an
 error goes unnoticed depends on the differences alone: not on the prefix, the data or what
 follows. Within seven consecutive symbols there are exactly 31 such patterns, one for every
 nonzero leading difference.
 */
module ErrorPatterns {
  import opened Basics
  import opened ShiftRegister
  import opened Bech32Checksum
  import opened BitStreams
  import opened BitRegrouping
  import opened Bech32

  ghost predicate Linear(f: bv32 -> bv32) {
    forall a, b {:trigger f(Xor(a, b))} :: f(Xor(a, b)) == Xor(f(a), f(b))
  }

  // ---- Differences ----

  /** Bitwise. */
  lemma XorSymbols(a: bv32, b: bv32)
    requires Symbol(a) && Symbol(b)
    ensures Symbol(Xor(a, b))
  {
  }

  function Difference(a: u8, b: u8): (d: u8)
    requires a < 32 && b < 32
    ensures d < 32 && Word(d) == Xor(Word(a), Word(b))
  {
    WordBounded(a);
    WordBounded(b);
    XorSymbols(Word(a), Word(b));
    WordOfNarrow(Xor(Word(a), Word(b)));
    Narrow(Xor(Word(a), Word(b)))
  }

  function Differences(p: seq<u8>, q: seq<u8>): (d: seq<u8>)
    requires |p| == |q| && Symbols(p) && Symbols(q)
    ensures |d| == |p| && Symbols(d)
  {
    seq(|p|, i requires 0 <= i < |p| => Difference(p[i], q[i]))
  }

  lemma DifferencesCons(p: seq<u8>, q: seq<u8>)
    requires |p| == |q| > 0 && Symbols(p) && Symbols(q)
    ensures Word(Differences(p, q)[0]) == Xor(Word(p[0]), Word(q[0]))
    ensures Differences(p, q)[1..] == Differences(p[1..], q[1..])
  {
  }

  // ---- Linearity ----

  /** Bitwise. */
  lemma TopSplits(a: bv32, b: bv32)
    ensures Top(Xor(a, b)) == Xor(Top(a), Top(b))
  {
  }

  lemma StepSplits(f: bv32 -> bv32, a: bv32, b: bv32, v: bv32, u: bv32)
    requires Linear(f)
    ensures Step(f, Xor(a, b), Xor(v, u)) == Xor(Step(f, a, v), Step(f, b, u))
  {
    TopSplits(a, b);
    MixSplits(a, b, v, u, f(Top(a)), f(Top(b)));
  }

  lemma {:induction false} FoldSplits(f: bv32 -> bv32, a: bv32, b: bv32, p: seq<u8>, q: seq<u8>)
    requires Linear(f) && |p| == |q| && Symbols(p) && Symbols(q)
    ensures Fold(f, Xor(a, b), Differences(p, q)) == Xor(Fold(f, a, p), Fold(f, b, q))
    decreases |p|
  {
    if p != [] {
      StepSplits(f, a, b, Word(p[0]), Word(q[0]));
      FoldSplits(f, Step(f, a, Word(p[0])), Step(f, b, Word(q[0])), p[1..], q[1..]);
      DifferencesCons(p, q);
    }
  }

  /** Bitwise. */
  lemma XorZeroExactly(a: bv32, b: bv32)
    ensures Xor(a, a) == 0
    ensures Xor(a, b) == 0 <==> a == b
  {
  }

  /** The differences of two equal folds fold to zero, and the other way round. */
  lemma SyndromeExactly(f: bv32 -> bv32, chk: bv32, p: seq<u8>, q: seq<u8>)
    requires Linear(f) && |p| == |q| && Symbols(p) && Symbols(q)
    ensures Fold(f, chk, p) == Fold(f, chk, q) <==> Fold(f, 0, Differences(p, q)) == 0
  {
    FoldSplits(f, chk, chk, p, q);
    XorZeroExactly(chk, chk);
    XorZeroExactly(Fold(f, chk, p), Fold(f, chk, q));
  }

  // ---- Seven symbols from the zero register ----

  /** Bitwise. */
  lemma MixNothing(v: bv32)
    ensures Mix(0, v, 0) == v && Top(0) == 0
  {
  }

  lemma LinearAtZero(f: bv32 -> bv32)
    requires Linear(f)
    ensures f(0) == 0
  {
    XorZeroExactly(0, 0);
    XorZeroExactly(f(0), f(0));
    assert f(Xor(0, 0)) == Xor(f(0), f(0));
  }

  function Up(t: bv32): bv32 {
    Mix(t, 0, 0)
  }

  /** Bitwise. Five zeros lift a lone symbol to the top of the register; the sixth trades it for `p`. */
  lemma Climbs(t: bv32, p: bv32)
    requires Symbol(t)
    ensures Top(t) == 0 && Top(Up(t)) == 0 && Top(Up(Up(t))) == 0
    ensures Top(Up(Up(Up(t)))) == 0 && Top(Up(Up(Up(Up(t))))) == 0
    ensures Top(Up(Up(Up(Up(Up(t)))))) == t && Mix(Up(Up(Up(Up(Up(t))))), 0, p) == p
  {
  }

  lemma ZeroFirst(f: bv32 -> bv32, chk: bv32, n: nat)
    requires n > 0 && f(0) == 0
    ensures Fold(f, chk, Repeat(0, n)) == Fold(f, Mix(chk, 0, f(Top(chk))), Repeat(0, n - 1))
  {
    WordZero();
    assert Repeat(0 as u8, n)[1..] == Repeat(0 as u8, n - 1);
  }

  /** After six zeros a lone symbol has become its feedback. */
  lemma LoneSymbol(f: bv32 -> bv32, t: bv32)
    requires Linear(f) && Symbol(t)
    ensures Fold(f, t, Repeat(0, 6)) == f(t)
  {
    LinearAtZero(f);
    Climbs(t, f(t));
    ZeroFirst(f, t, 6);
    ZeroFirst(f, Up(t), 5);
    ZeroFirst(f, Up(Up(t)), 4);
    ZeroFirst(f, Up(Up(Up(t))), 3);
    ZeroFirst(f, Up(Up(Up(Up(t)))), 2);
    ZeroFirst(f, Up(Up(Up(Up(Up(t))))), 1);
  }

  /** Seven symbols fold to zero exactly when the last six are the feedback of the first. */
  lemma SevenVanishExactly(f: bv32 -> bv32, d: seq<u8>)
    requires Linear(f) && |d| == 7 && Symbols(d)
    ensures Fold(f, 0, d) == 0 <==> Pack(d[1..]) == f(Word(d[0]))
  {
    LinearAtZero(f);
    MixNothing(Word(d[0]));
    WordBounded(d[0]);
    LoneSymbol(f, Word(d[0]));
    FoldWindow(f, Word(d[0]), d[1..]);
    XorZeroExactly(f(Word(d[0])), Pack(d[1..]));
  }

  // ---- The generator of BIP-173 ----

  lemma TapSplits(a: bv32, b: bv32, i: nat)
    requires i < 5
    ensures Tap(Xor(a, b), i) == Xor(Tap(a, i), Tap(b, i))
  {
    BitSplits(a, b, i);
    XorNothing(Tap(a, i));
    XorZeroExactly(Tap(a, i), Tap(a, i));
    XorCommutes(0, Tap(b, i));
    XorNothing(Tap(b, i));
  }

  /** Bitwise. */
  lemma BitSplits(a: bv32, b: bv32, i: nat)
    requires i < 5
    ensures BitSet(Xor(a, b), i) <==> BitSet(a, i) != BitSet(b, i)
  {
    assert (a ^ b) >> i == (a >> i) ^ (b >> i);
  }

  lemma FeedbackLinear()
    ensures Linear(Feedback)
  {
    forall a, b
      ensures Feedback(Xor(a, b)) == Xor(Feedback(a), Feedback(b))
    {
      FeedbackSplits(a, b);
    }
  }

  lemma FeedbackSplits(a: bv32, b: bv32)
    ensures Feedback(Xor(a, b)) == Xor(Feedback(a), Feedback(b))
  {
    var s0, t0 := Tap(a, 0), Tap(b, 0);
    var s1, t1 := Xor(s0, Tap(a, 1)), Xor(t0, Tap(b, 1));
    var s2, t2 := Xor(s1, Tap(a, 2)), Xor(t1, Tap(b, 2));
    var s3, t3 := Xor(s2, Tap(a, 3)), Xor(t2, Tap(b, 3));
    TapSplits(a, b, 0);
    TapSplits(a, b, 1);
    TapSplits(a, b, 2);
    TapSplits(a, b, 3);
    TapSplits(a, b, 4);
    XorRegroups(s0, t0, Tap(a, 1), Tap(b, 1));
    XorRegroups(s1, t1, Tap(a, 2), Tap(b, 2));
    XorRegroups(s2, t2, Tap(a, 3), Tap(b, 3));
    XorRegroups(s3, t3, Tap(a, 4), Tap(b, 4));
  }

  /**
   When one of two data parts verifies, the other does exactly when the differences alone, fed
   to a zero register, leave it at zero: for any prefix, any surroundings and any length.
   */
  lemma UndetectedExactly(hrp: Text, before: seq<u8>, p: seq<u8>, q: seq<u8>, rest: seq<u8>)
    requires |p| == |q| && Symbols(p) && Symbols(q)
    requires Verifies(hrp, before + p + rest)
    ensures Verifies(hrp, before + q + rest) <==> Fold(Feedback, 0, Differences(p, q)) == 0
  {
    FeedbackLinear();
    FeedbackInvertible();
    var chk := Fold(Feedback, 1, Expanded(hrp) + before);
    CheckedSplits(hrp, before, p, rest);
    CheckedSplits(hrp, before, q, rest);
    SyndromeExactly(Feedback, chk, p, q);
    FoldBounded(Feedback, 1, Expanded(hrp) + before);
    FoldBounded(Feedback, chk, p);
    FoldBounded(Feedback, chk, q);
    if Verifies(hrp, before + q + rest) {
      FoldInjective(Feedback, Fold(Feedback, chk, p), Fold(Feedback, chk, q), rest);
    }
  }

  /** What five bits shifted out come back as, as symbols. */
  function FeedbackSymbols(t: u8): (d: seq<u8>)
    ensures |d| == 6
  {
    Unpacked(Feedback(Word(t)))
  }

  lemma FeedbackRepacks(t: u8)
    ensures Symbols(FeedbackSymbols(t)) && Pack(FeedbackSymbols(t)) == Feedback(Word(t))
  {
    FeedbackBounded(Word(t));
    UnpackedRepacks(Feedback(Word(t)));
  }

  /** The error patterns of seven symbols that cannot be seen: a leading difference, then its feedback. */
  function Hiding(t: u8): (d: seq<u8>)
    ensures |d| == 7 && d[0] == t
  {
    [t] + FeedbackSymbols(t)
  }

  lemma SamePattern(d: seq<u8>, e: seq<u8>, m: bv32)
    requires |d| == 7 && Symbols(d) && |e| == 6 && Symbols(e) && Pack(e) == m
    ensures Pack(d[1..]) == m <==> d == [d[0]] + e
  {
    if Pack(d[1..]) == m {
      PackInjective(d[1..], e);
    }
    assert d == [d[0]] + d[1..];
    assert ([d[0]] + e)[1..] == e;
  }

  /** Exactly when an error within seven consecutive symbols goes unnoticed. */
  lemma SevenHideExactly(hrp: Text, before: seq<u8>, p: seq<u8>, q: seq<u8>, rest: seq<u8>)
    requires |p| == |q| == 7 && Symbols(p) && Symbols(q)
    requires Verifies(hrp, before + p + rest)
    ensures Verifies(hrp, before + q + rest) <==> Differences(p, q) == Hiding(Difference(p[0], q[0]))
  {
    var d := Differences(p, q);
    UndetectedExactly(hrp, before, p, q, rest);
    FeedbackLinear();
    SevenVanishExactly(Feedback, d);
    FeedbackRepacks(d[0]);
    SamePattern(d, FeedbackSymbols(d[0]), Feedback(Word(d[0])));
  }

  // ---- Witnesses ----

  lemma DifferenceFromZero(t: u8)
    requires t < 32
    ensures Difference(0, t) == Difference(t, 0) == t
  {
    WordZero();
    XorNothing(Word(t));
    XorCommutes(0, Word(t));
    WordInjective(Difference(0, t), t);
    WordInjective(Difference(t, 0), t);
  }

  lemma DifferencesFromZeros(d: seq<u8>)
    requires Symbols(d)
    ensures Symbols(Repeat(0, |d|))
    ensures Differences(Repeat(0, |d|), d) == d == Differences(d, Repeat(0, |d|))
  {
    forall i | 0 <= i < |d|
      ensures Difference(0, d[i]) == Difference(d[i], 0) == d[i]
    {
      DifferenceFromZero(d[i]);
    }
  }

  /** Each of the 31 patterns passes exactly when seven zeros in its place do. */
  lemma SevenCanHide(hrp: Text, before: seq<u8>, t: u8, rest: seq<u8>)
    requires 0 < t < 32
    ensures |Hiding(t)| == 7 && Symbols(Hiding(t)) && Hiding(t) != Repeat(0, 7)
    ensures Verifies(hrp, before + Hiding(t) + rest) <==> Verifies(hrp, before + Repeat(0, 7) + rest)
  {
    FeedbackRepacks(t);
    DifferencesFromZeros(Hiding(t));
    DifferenceFromZero(t);
    if Verifies(hrp, before + Repeat(0, 7) + rest) {
      SevenHideExactly(hrp, before, Repeat(0, 7), Hiding(t), rest);
    }
    if Verifies(hrp, before + Hiding(t) + rest) {
      SevenHideExactly(hrp, before, Hiding(t), Repeat(0, 7), rest);
    }
  }

  function Spelled(hrp: Text, symbols: seq<u8>): Text
    requires Symbols(symbols)
  {
    hrp + [SEPARATOR] + Chars(symbols)
  }

  /** Fourteen verifying symbols are five bytes and their checksum. */
  lemma FourteenDecode(hrp: Text, symbols: seq<u8>) returns (data: Bytes)
    requires |symbols| == 14 && Symbols(symbols) && Verifies(hrp, symbols)
    requires hrp != [] && NoUppercase(hrp) && |hrp| <= 75
    ensures Decoded(Spelled(hrp, symbols)) == Ok((hrp, data))
  {
    var values := symbols[..8];
    var b := BitString(values, 5);
    Pow2Values();
    BitStringLength(values, 5);
    GroupsSpell(b, 8);
    BitStringLength(Groups(b, 8), 8);
    assert Leftover(b, 8) == [];
    data := Groups(b, 8);
    PartsExactly(hrp, symbols, data);
    EncodingHasNoNewCapitals(hrp, data);
    DecodesExactly(Spelled(hrp, symbols), hrp, data);
  }

  function ZeroSymbols(hrp: Text): seq<u8> {
    Repeat(0, 7) + [0] + Checksum(hrp, Repeat(0, 8))
  }

  function HidingSymbols(hrp: Text, t: u8): seq<u8>
    requires t < 32
  {
    Hiding(t) + [0] + Checksum(hrp, Repeat(0, 8))
  }

  lemma BothVerify(hrp: Text, t: u8)
    requires 0 < t < 32
    ensures |ZeroSymbols(hrp)| == 14 && Symbols(ZeroSymbols(hrp)) && Verifies(hrp, ZeroSymbols(hrp))
    ensures |HidingSymbols(hrp, t)| == 14 && Symbols(HidingSymbols(hrp, t)) && Verifies(hrp, HidingSymbols(hrp, t))
    ensures ZeroSymbols(hrp)[0] != HidingSymbols(hrp, t)[0]
    ensures forall i :: 7 <= i < 14 ==> ZeroSymbols(hrp)[i] == HidingSymbols(hrp, t)[i]
  {
    var zeros: seq<u8> := Repeat(0, 8);
    var c := Checksum(hrp, zeros);
    ChecksumSymbols(hrp, zeros);
    ChecksumExistsUniquely(hrp, zeros, c);
    assert zeros + c == [] + Repeat(0, 7) + ([0] + c) == ZeroSymbols(hrp);
    assert [] + Hiding(t) + ([0] + c) == HidingSymbols(hrp, t);
    SevenCanHide(hrp, [], t, [0] + c);
  }

  /** Two different strings under one prefix that both decode, and differ in seven consecutive characters at most. */
  lemma SevenWrongCharacters(hrp: Text, t: u8)
    requires 0 < t < 32
    requires hrp != [] && NoUppercase(hrp) && |hrp| <= 75
    ensures Symbols(ZeroSymbols(hrp)) && Symbols(HidingSymbols(hrp, t))
    ensures var r, s := Spelled(hrp, ZeroSymbols(hrp)), Spelled(hrp, HidingSymbols(hrp, t));
            && Decoded(r).Ok? && Decoded(s).Ok? && Decoded(r) != Decoded(s)
            && Decoded(r).value.0 == Decoded(s).value.0 == hrp
            && |r| == |s|
            && forall i :: 0 <= i < |r| && !(|hrp| + 1 <= i < |hrp| + 8) ==> r[i] == s[i]
  {
    BothVerify(hrp, t);
    TwoStrings(hrp, ZeroSymbols(hrp), HidingSymbols(hrp, t));
  }

  lemma TwoStrings(hrp: Text, a: seq<u8>, b: seq<u8>)
    requires hrp != [] && NoUppercase(hrp) && |hrp| <= 75
    requires |a| == |b| == 14 && Symbols(a) && Symbols(b) && Verifies(hrp, a) && Verifies(hrp, b)
    requires a[0] != b[0] && forall i :: 7 <= i < |a| ==> a[i] == b[i]
    ensures var r, s := Spelled(hrp, a), Spelled(hrp, b);
            && Decoded(r).Ok? && Decoded(s).Ok? && Decoded(r) != Decoded(s)
            && Decoded(r).value.0 == Decoded(s).value.0 == hrp
            && |r| == |s|
            && forall i :: 0 <= i < |r| && !(|hrp| + 1 <= i < |hrp| + 8) ==> r[i] == s[i]
  {
    var d := FourteenDecode(hrp, a);
    var e := FourteenDecode(hrp, b);
    DifferInWindow(hrp, a, b);
    SpelledApart(hrp, a, b);
  }

  lemma SpelledApart(hrp: Text, a: seq<u8>, b: seq<u8>)
    requires NoUppercase(hrp) && Symbols(a) && Symbols(b) && Spelled(hrp, a) != Spelled(hrp, b)
    requires Decoded(Spelled(hrp, a)).Ok? && Decoded(Spelled(hrp, b)).Ok?
    ensures Decoded(Spelled(hrp, a)) != Decoded(Spelled(hrp, b))
  {
    if Decoded(Spelled(hrp, a)) == Decoded(Spelled(hrp, b)) {
      DecodeInjectiveUpToCase(Spelled(hrp, a), Spelled(hrp, b));
      SpelledLower(hrp, a);
      SpelledLower(hrp, b);
    }
  }

  lemma SpelledLower(hrp: Text, symbols: seq<u8>)
    requires NoUppercase(hrp) && Symbols(symbols)
    ensures Lower(Spelled(hrp, symbols)) == Spelled(hrp, symbols)
  {
    CharsAvoidSeparator(symbols);
    LowerFixes(Spelled(hrp, symbols));
  }

  lemma DifferInWindow(hrp: Text, a: seq<u8>, b: seq<u8>)
    requires |a| == |b| >= 7 && Symbols(a) && Symbols(b) && a[0] != b[0]
    requires forall i :: 7 <= i < |a| ==> a[i] == b[i]
    ensures var r, s := Spelled(hrp, a), Spelled(hrp, b);
            && |r| == |s| && r != s
            && forall i :: 0 <= i < |r| && !(|hrp| + 1 <= i < |hrp| + 8) ==> r[i] == s[i]
  {
    if CharOf(a[0]) == CharOf(b[0]) {
      CharOfInjective(a[0], b[0]);
    }
    var r, s := Spelled(hrp, a), Spelled(hrp, b);
    assert r[|hrp| + 1] == CharOf(a[0]) && s[|hrp| + 1] == CharOf(b[0]);
  }
}
