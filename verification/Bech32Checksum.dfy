/**
 The BIP-173 checksum of src/crypto/bech32.rs: the loops, and what the checksum is for.
 `Checked` is the register after the expanded prefix and the data.
 */
module Bech32Checksum {
  import opened Basics
  import opened ShiftRegister

  const GENERATOR: seq<bv32> := [0x3b6a57b2, 0x26508e6d, 0x1ea119fa, 0x3d4233dd, 0x2a1462b3]

  predicate BitSet(top: bv32, i: nat)
    requires i < 5
  {
    (top >> i) & 1 == 1
  }

  function Tap(top: bv32, i: nat): bv32
    requires i < 5
  {
    if BitSet(top, i) then GENERATOR[i] else 0
  }

  function Feedback(top: bv32): bv32 {
    Xor(Xor(Xor(Xor(Tap(top, 0), Tap(top, 1)), Tap(top, 2)), Tap(top, 3)), Tap(top, 4))
  }

  /** The feedback loop after `i` of its five rounds. */
  function Tapped(chk: bv32, top: bv32, i: nat): bv32
    requires i <= 5
    decreases i
  {
    if i == 0 then chk else Xor(Tapped(chk, top, i - 1), Tap(top, i - 1))
  }

  lemma TappedIsFeedback(chk: bv32, top: bv32)
    ensures Tapped(chk, top, 5) == Xor(chk, Feedback(top))
  {
    var t0, t1, t2, t3, t4 := Tap(top, 0), Tap(top, 1), Tap(top, 2), Tap(top, 3), Tap(top, 4);
    assert Tapped(chk, top, 5) == Xor(Xor(Xor(Xor(Xor(chk, t0), t1), t2), t3), t4);
    XorAssociates(chk, t0, t1);
    XorAssociates(chk, Xor(t0, t1), t2);
    XorAssociates(chk, Xor(Xor(t0, t1), t2), t3);
    XorAssociates(chk, Xor(Xor(Xor(t0, t1), t2), t3), t4);
  }

  /** The inner loop of `polymod`. */
  method ApplyFeedback(register: bv32, top: bv32) returns (chk: bv32)
    ensures chk == Xor(register, Feedback(top))
  {
    chk := register;
    for i := 0 to 5
      invariant chk == Tapped(register, top, i)
    {
      XorNothing(chk);
      if BitSet(top, i) {
        chk := Xor(chk, GENERATOR[i]);
      }
    }
    TappedIsFeedback(register, top);
  }

  method Polymod(values: seq<u8>) returns (chk: bv32)
    ensures chk == Fold(Feedback, 1, values)
  {
    chk := 1;
    for k := 0 to |values|
      invariant Fold(Feedback, chk, values[k..]) == Fold(Feedback, 1, values)
    {
      assert values[k..][1..] == values[k + 1..];
      chk := Advance(chk, values[k]);
    }
  }

  /** One round of the outer loop of `polymod`. */
  method Advance(register: bv32, value: u8) returns (chk: bv32)
    ensures chk == Step(Feedback, register, Word(value))
  {
    var top := register >> 25;
    chk := Xor(Rolled(register), Word(value));
    chk := ApplyFeedback(chk, top);
  }

  lemma FeedbackLowInjective(p: bv32, q: bv32)
    requires Symbol(p) && Symbol(q) && Low(Feedback(p)) == Low(Feedback(q))
    ensures p == q
  {
  }

  lemma FeedbackBounded(p: bv32)
    ensures Register(Feedback(p))
  {
  }

  /** The low five bits of the five generator words are linearly independent. */
  lemma FeedbackInvertible()
    ensures Invertible(Feedback)
  {
    forall p, q | Symbol(p) && Symbol(q) && Low(Feedback(p)) == Low(Feedback(q))
      ensures p == q
    {
      FeedbackLowInjective(p, q);
    }
    forall p
      ensures Register(Feedback(p))
    {
      FeedbackBounded(p);
    }
  }

  // ---- Prefix expansion ----

  function Expanded(hrp: Text): (e: seq<u8>)
    ensures |e| == 2 * |hrp| + 1
  {
    seq(|hrp|, i requires 0 <= i < |hrp| => hrp[i] / 32) + [0]
    + seq(|hrp|, i requires 0 <= i < |hrp| => hrp[i] % 32)
  }

  /** The expansion is the prefix, split into high and low bits around a zero. */
  lemma ExpansionExactly(hrp: Text, i: nat)
    requires i < |hrp|
    ensures var e := Expanded(hrp);
            && |e| == 2 * |hrp| + 1 && e[|hrp|] == 0
            && e[|hrp| + 1 + i] < 32 && 32 * e[i] + e[|hrp| + 1 + i] == hrp[i]
  {
    assert hrp[i] == 32 * (hrp[i] / 32) + hrp[i] % 32;
  }

  method HrpExpand(hrp: Text) returns (out: seq<u8>)
    ensures out == Expanded(hrp)
  {
    out := [];
    for i := 0 to |hrp|
      invariant out == Expanded(hrp)[..i]
    {
      out := out + [hrp[i] / 32];
    }
    out := out + [0];
    for i := 0 to |hrp|
      invariant out == Expanded(hrp)[..|hrp| + 1 + i]
    {
      out := out + [hrp[i] % 32];
    }
  }

  // ---- Creating and verifying ----

  function Checked(hrp: Text, data: seq<u8>): bv32 {
    Fold(Feedback, 1, Expanded(hrp) + data)
  }

  predicate Verifies(hrp: Text, data: seq<u8>) {
    Checked(hrp, data) == 1
  }

  method VerifyChecksum(hrp: Text, data: seq<u8>) returns (ok: bool)
    ensures ok == Verifies(hrp, data)
  {
    var v := HrpExpand(hrp);
    var m := Polymod(v + data);
    ok := m == 1;
  }

  /** The `i`-th of the six five-bit digits of `m`, most significant first. */
  function Digit(m: bv32, i: nat): (d: bv32)
    requires i < 6
    ensures Symbol(d)
  {
    (m >> (5 * (5 - i as bv6))) & 31
  }

  /** The six symbols whose packing is `m`. */
  function Unpacked(m: bv32): seq<u8> {
    seq(6, i requires 0 <= i < 6 => Narrow(Digit(m, i)))
  }

  function Checksum(hrp: Text, data: seq<u8>): seq<u8> {
    Unpacked(Xor(Checked(hrp, data + Repeat(0, 6)), 1))
  }

  method CreateChecksum(hrp: Text, data: seq<u8>) returns (out: seq<u8>)
    ensures out == Checksum(hrp, data)
  {
    var v := HrpExpand(hrp);
    assert v + (data + Repeat(0, 6)) == v + data + [0, 0, 0, 0, 0, 0];
    var m := Polymod(v + data + [0, 0, 0, 0, 0, 0]);
    out := DigitsOf(Xor(m, 1));
  }

  /** The loop of `create_checksum` that fills the six output symbols. */
  method DigitsOf(m: bv32) returns (out: seq<u8>)
    ensures out == Unpacked(m)
  {
    out := [];
    for i := 0 to 6
      invariant out == Unpacked(m)[..i]
    {
      out := out + [Narrow(Digit(m, i))];
    }
  }

  function Drop(m: bv32): bv32 {
    m >> 5
  }

  /** The number spelled by the first `i` digits of `m`. */
  function Leading(m: bv32, i: nat): bv32
    requires i <= 6
    decreases 6 - i
  {
    if i == 6 then m else Drop(Leading(m, i + 1))
  }

  lemma Digit5(m: bv32) ensures Digit(m, 5) == Low(m) {}
  lemma Digit4(m: bv32) ensures Digit(m, 4) == Low(Drop(m)) {}
  lemma Digit3(m: bv32) ensures Digit(m, 3) == Low(Drop(Drop(m))) {}
  lemma Digit2(m: bv32) ensures Digit(m, 2) == Low(Drop(Drop(Drop(m)))) {}
  lemma Digit1(m: bv32) ensures Digit(m, 1) == Low(Drop(Drop(Drop(Drop(m))))) {}
  lemma Digit0(m: bv32) ensures Digit(m, 0) == Low(Drop(Drop(Drop(Drop(Drop(m)))))) {}

  lemma DigitEndsLeading(m: bv32, i: nat)
    requires i < 6
    ensures Digit(m, i) == Low(Leading(m, i + 1))
  {
    assert Leading(m, 4) == Drop(Drop(m));
    assert Leading(m, 2) == Drop(Drop(Leading(m, 4)));
    if i == 0 { Digit0(m); }
    else if i == 1 { Digit1(m); }
    else if i == 2 { Digit2(m); }
    else if i == 3 { Digit3(m); }
    else if i == 4 { Digit4(m); }
    else { Digit5(m); }
  }

  lemma DropRecomposes(m: bv32)
    ensures ShiftIn(Drop(m), Low(m)) == m
  {
  }

  lemma NothingLeads(m: bv32)
    requires Register(m)
    ensures Drop(Drop(Drop(Drop(Drop(Drop(m)))))) == 0
  {
  }

  lemma {:induction false} PackLeading(m: bv32, i: nat)
    requires Register(m) && i <= 6
    ensures Pack(Unpacked(m)[..i]) == Leading(m, i)
  {
    if i == 0 {
      NothingLeads(m);
      assert Leading(m, 3) == Drop(Drop(Drop(m)));
    } else {
      var s := Unpacked(m);
      assert s[..i][..i - 1] == s[..i - 1];
      PackLeading(m, i - 1);
      WordOfNarrow(Digit(m, i - 1));
      DigitEndsLeading(m, i - 1);
      DropRecomposes(Leading(m, i));
    }
  }

  lemma UnpackedRepacks(m: bv32)
    requires Register(m)
    ensures |Unpacked(m)| == 6 && Symbols(Unpacked(m))
    ensures Pack(Unpacked(m)) == m
  {
    forall i: nat | i < 6
      ensures Unpacked(m)[i] < 32
    {
      WordOfNarrow(Digit(m, i));
    }
    assert Unpacked(m)[..6] == Unpacked(m);
    PackLeading(m, 6);
  }

  lemma XorBounded(a: bv32)
    requires Register(a)
    ensures Register(Xor(a, 1))
  {
  }

  /** Appending the checksum verifies, and nothing else of its length does. */
  lemma ChecksumExistsUniquely(hrp: Text, data: seq<u8>, c: seq<u8>)
    requires |c| == 6 && Symbols(c)
    ensures Verifies(hrp, data + c) <==> c == Checksum(hrp, data)
  {
    var start := Fold(Feedback, 1, Expanded(hrp) + data);
    var zeros := Fold(Feedback, start, Repeat(0, 6));
    assert Expanded(hrp) + (data + c) == (Expanded(hrp) + data) + c;
    assert Expanded(hrp) + (data + Repeat(0, 6)) == (Expanded(hrp) + data) + Repeat(0, 6);
    FoldAppend(Feedback, 1, Expanded(hrp) + data, c);
    FoldAppend(Feedback, 1, Expanded(hrp) + data, Repeat(0, 6));
    FoldWindow(Feedback, start, c);
    FeedbackInvertible();
    FoldBounded(Feedback, 1, Expanded(hrp) + (data + Repeat(0, 6)));
    XorUndoes(zeros, Pack(c));
    XorUndoes(zeros, 1);
    XorBounded(zeros);
    UnpackedRepacks(Xor(zeros, 1));
    if Pack(c) == Xor(zeros, 1) {
      PackInjective(c, Checksum(hrp, data));
    }
  }

  /**
   Burst detection, whatever the length: under one prefix, two data parts that both verify and
   differ only inside a window of at most six symbols are equal.
   */
  lemma BurstDetected(hrp: Text, before: seq<u8>, w: seq<u8>, u: seq<u8>, rest: seq<u8>)
    requires |w| == |u| <= 6 && Symbols(w) && Symbols(u)
    requires Verifies(hrp, before + w + rest) && Verifies(hrp, before + u + rest)
    ensures w == u
  {
    FeedbackInvertible();
    var chk := Fold(Feedback, 1, Expanded(hrp) + before);
    CheckedSplits(hrp, before, w, rest);
    CheckedSplits(hrp, before, u, rest);
    FoldAppend(Feedback, chk, w, rest);
    FoldAppend(Feedback, chk, u, rest);
    FoldBounded(Feedback, 1, Expanded(hrp) + before);
    WindowDetected(Feedback, chk, w, u, rest);
  }

  /**
   The checksum covers the prefix: no data part verifies under two prefixes that differ only in
   the low bits of at most six consecutive letters, such as small letters for other small letters.
   */
  lemma PrefixesApart(before: Text, p: Text, q: Text, rest: Text, data: seq<u8>)
    requires |p| == |q| <= 6 && p != q && forall i :: 0 <= i < |p| ==> p[i] / 32 == q[i] / 32
    ensures !(Verifies(before + p + rest, data) && Verifies(before + q + rest, data))
  {
    var lead := Expanded(before + p + rest)[..2 * |before| + |p| + |rest| + 1];
    var w, u := LowBits(p), LowBits(q);
    ExpandedAround(before, p, rest, lead);
    ExpandedAround(before, q, rest, lead);
    if Verifies(before + p + rest, data) && Verifies(before + q + rest, data) {
      ParsedAlike(lead, w, LowBits(rest), data);
      ParsedAlike(lead, u, LowBits(rest), data);
      FeedbackInvertible();
      var chk := Fold(Feedback, 1, lead);
      FoldBounded(Feedback, 1, lead);
      WindowDetected(Feedback, chk, w, u, LowBits(rest) + data);
      LowBitsDiffer(p, q);
    }
  }

  function LowBits(t: Text): (l: seq<u8>)
    ensures |l| == |t| && Symbols(l)
  {
    seq(|t|, i requires 0 <= i < |t| => t[i] % 32)
  }

  lemma LowBitsDiffer(p: Text, q: Text)
    requires |p| == |q| && p != q && forall i :: 0 <= i < |p| ==> p[i] / 32 == q[i] / 32
    ensures LowBits(p) != LowBits(q)
  {
    var i :| 0 <= i < |p| && p[i] != q[i];
    assert LowBits(p)[i] == p[i] % 32 && LowBits(q)[i] == q[i] % 32;
  }

  /** All but the low bits of `p` and of what follows it are the same for a prefix with the same high bits. */
  lemma ExpandedAround(before: Text, p: Text, rest: Text, lead: seq<u8>)
    requires |lead| == 2 * |before| + |p| + |rest| + 1
    requires forall i :: 0 <= i < |before| + |p| + |rest| ==> lead[i] == (before + p + rest)[i] / 32
    requires lead[|before| + |p| + |rest|] == 0
    requires forall i :: 0 <= i < |before| ==> lead[|before| + |p| + |rest| + 1 + i] == before[i] % 32
    ensures Expanded(before + p + rest) == lead + LowBits(p) + LowBits(rest)
  {
  }

  lemma ParsedAlike(lead: seq<u8>, w: seq<u8>, rest: seq<u8>, data: seq<u8>)
    ensures Fold(Feedback, 1, lead + w + rest + data) == Fold(Feedback, Fold(Feedback, 1, lead), w + (rest + data))
  {
    ConcatAssociates(lead, w, rest);
    ConcatAssociates(lead, w + rest, data);
    ConcatAssociates(w, rest, data);
    FoldAppend(Feedback, 1, lead, w + (rest + data));
  }

  lemma CheckedSplits(hrp: Text, before: seq<u8>, w: seq<u8>, rest: seq<u8>)
    ensures Checked(hrp, before + w + rest)
         == Fold(Feedback, Fold(Feedback, Fold(Feedback, 1, Expanded(hrp) + before), w), rest)
  {
    FoldParts(Feedback, 1, Expanded(hrp), before, w, rest);
  }
}
