/**
 The register behind the BIP-173 checksum, with its feedback left open: thirty bits, fed five
 at a time, where `f` turns the five bits shifted out into the word that is XORed back.
 What error detection needs of `f` is `Invertible`.

 The bit-vector formulas are confined to the one-line functions below and to the lemmas
 marked "bitwise"; everything else reasons about these functions by name.
 */
module ShiftRegister {
  import opened Basics

  function Word(v: u8): bv32 {
    (v as bv8) as bv32
  }

  /** A symbol as a number again. */
  function Narrow(d: bv32): u8
    requires Symbol(d)
  {
    (d as bv8) as int
  }

  function Xor(a: bv32, b: bv32): bv32 {
    a ^ b
  }

  function Top(chk: bv32): bv32 {
    chk >> 25
  }

  function Low(p: bv32): bv32 {
    p & 31
  }

  function ShiftIn(d: bv32, v: bv32): bv32 {
    (d << 5) ^ v
  }

  /** The register without the five bits shifted out. */
  function Rolled(chk: bv32): bv32 {
    (chk & 0x1ff_ffff) << 5
  }

  /** The register `chk` after shifting in `v` and XORing back `p`. */
  function Mix(chk: bv32, v: bv32, p: bv32): bv32 {
    Xor(Xor(Rolled(chk), v), p)
  }

  function Step(f: bv32 -> bv32, chk: bv32, v: bv32): bv32 {
    Mix(chk, v, f(Top(chk)))
  }

  function Fold(f: bv32 -> bv32, chk: bv32, values: seq<u8>): bv32
    decreases |values|
  {
    if values == [] then chk else Fold(f, Step(f, chk, Word(values[0])), values[1..])
  }

  predicate Register(chk: bv32) {
    chk < 0x4000_0000
  }

  predicate Symbol(v: bv32) {
    v < 32
  }

  ghost predicate Invertible(f: bv32 -> bv32) {
    && (forall p :: Register(f(p)))
    && (forall p, q :: Symbol(p) && Symbol(q) && Low(f(p)) == Low(f(q)) ==> p == q)
  }

  predicate Symbols(values: seq<u8>) {
    forall i :: 0 <= i < |values| ==> values[i] < 32
  }

  lemma {:induction false} FoldAppend(f: bv32 -> bv32, chk: bv32, a: seq<u8>, b: seq<u8>)
    ensures Fold(f, chk, a + b) == Fold(f, Fold(f, chk, a), b)
    decreases |a|
  {
    if a == [] {
      assert a + b == b;
    } else {
      assert (a + b)[1..] == a[1..] + b;
      FoldAppend(f, Step(f, chk, Word(a[0])), a[1..], b);
    }
  }

  lemma FoldSnoc(f: bv32 -> bv32, chk: bv32, a: seq<u8>, v: u8)
    ensures Fold(f, chk, a + [v]) == Step(f, Fold(f, chk, a), Word(v))
  {
    FoldAppend(f, chk, a, [v]);
    var before := Fold(f, chk, a);
    assert Fold(f, Step(f, before, Word(v)), []) == Step(f, before, Word(v));
  }

  lemma FoldParts(f: bv32 -> bv32, chk: bv32, a: seq<u8>, b: seq<u8>, w: seq<u8>, rest: seq<u8>)
    ensures Fold(f, chk, a + (b + w + rest)) == Fold(f, Fold(f, Fold(f, chk, a + b), w), rest)
  {
    ConcatAssociates(a, b + w, rest);
    ConcatAssociates(a, b, w);
    FoldAppend(f, chk, (a + b) + w, rest);
    FoldAppend(f, chk, a + b, w);
  }

  /** Bitwise. */
  lemma MixBounded(chk: bv32, v: bv32, p: bv32)
    requires v < 256 && Register(p)
    ensures Register(Mix(chk, v, p))
  {
  }

  lemma {:induction false} FoldBounded(f: bv32 -> bv32, chk: bv32, values: seq<u8>)
    requires Invertible(f) && Register(chk)
    ensures Register(Fold(f, chk, values))
    decreases |values|
  {
    if values != [] {
      WordBounded(values[0]);
      MixBounded(chk, Word(values[0]), f(Top(chk)));
      FoldBounded(f, Step(f, chk, Word(values[0])), values[1..]);
    }
  }

  /** Bitwise. */
  lemma WordBounded(v: u8)
    ensures Word(v) < 256
    ensures v < 32 ==> Symbol(Word(v))
  {
  }

  /** Bitwise. */
  lemma WordOfNarrow(d: bv32)
    requires Symbol(d)
    ensures Narrow(d) < 32 && Word(Narrow(d)) == d
  {
  }

  /** Bitwise. */
  lemma SymbolRoundTrip(v: u8)
    requires v < 32
    ensures (v as bv8) as int == v
  {
  }

  /** Bitwise. */
  lemma WordInjective(v: u8, w: u8)
    requires v < 32 && w < 32 && Word(v) == Word(w)
    ensures v == w
  {
    SymbolRoundTrip(v);
    SymbolRoundTrip(w);
  }

  /** Bitwise. */
  lemma XorAssociates(a: bv32, b: bv32, c: bv32)
    ensures Xor(Xor(a, b), c) == Xor(a, Xor(b, c))
  {
  }

  /** Bitwise. */
  lemma XorUndoes(a: bv32, b: bv32)
    ensures Xor(a, Xor(a, b)) == b
  {
  }

  /** Bitwise. */
  lemma MixDeterminesLow(a: bv32, b: bv32, v: bv32, p: bv32, q: bv32)
    requires Mix(a, v, p) == Mix(b, v, q)
    ensures Low(p) == Low(q)
  {
  }

  /** Bitwise. */
  lemma MixDeterminesRegister(a: bv32, b: bv32, v: bv32, p: bv32)
    requires Top(a) == Top(b) && Mix(a, v, p) == Mix(b, v, p)
    ensures a == b
  {
  }

  /** Bitwise. */
  lemma TopBounded(a: bv32)
    requires Register(a)
    ensures Symbol(Top(a))
  {
  }

  /** Feeding the same symbol to two different registers keeps them different. */
  lemma StepInjective(f: bv32 -> bv32, a: bv32, b: bv32, v: bv32)
    requires Invertible(f) && Register(a) && Register(b)
    requires Step(f, a, v) == Step(f, b, v)
    ensures a == b
  {
    TopBounded(a);
    TopBounded(b);
    MixDeterminesLow(a, b, v, f(Top(a)), f(Top(b)));
    assert Top(a) == Top(b);
    MixDeterminesRegister(a, b, v, f(Top(a)));
  }

  lemma {:induction false} FoldInjective(f: bv32 -> bv32, a: bv32, b: bv32, values: seq<u8>)
    requires Invertible(f) && Register(a) && Register(b)
    requires Fold(f, a, values) == Fold(f, b, values)
    ensures a == b
    decreases |values|
  {
    if values != [] {
      var v := Word(values[0]);
      WordBounded(values[0]);
      MixBounded(a, v, f(Top(a)));
      MixBounded(b, v, f(Top(b)));
      FoldInjective(f, Step(f, a, v), Step(f, b, v), values[1..]);
      StepInjective(f, a, b, v);
    }
  }

  // ---- Up to six symbols fit in the register without reaching the feedback ----

  /** Symbols side by side, the last in the lowest five bits. */
  function Pack(w: seq<u8>): bv32 {
    if w == [] then 0 else ShiftIn(Pack(w[..|w| - 1]), Word(w[|w| - 1]))
  }

  predicate Within(d: bv32, n: nat) {
    if n == 0 then d == 0
    else if n == 1 then d < 0x20
    else if n == 2 then d < 0x400
    else if n == 3 then d < 0x8000
    else if n == 4 then d < 0x10_0000
    else if n == 5 then d < 0x200_0000
    else d < 0x4000_0000
  }

  /** Bitwise. */
  lemma ShiftInGrows(d: bv32, v: bv32, n: nat)
    requires n < 6 && Symbol(v) && Within(d, n)
    ensures Within(ShiftIn(d, v), n + 1)
  {
  }

  /** Bitwise. */
  lemma WithinFive(d: bv32, n: nat)
    requires n <= 5 && Within(d, n)
    ensures Within(d, 5)
  {
  }

  lemma {:induction false} PackBounded(w: seq<u8>)
    requires |w| <= 6 && Symbols(w)
    ensures Within(Pack(w), |w|)
  {
    if w != [] {
      PackBounded(w[..|w| - 1]);
      WordBounded(w[|w| - 1]);
      ShiftInGrows(Pack(w[..|w| - 1]), Word(w[|w| - 1]), |w| - 1);
    }
  }

  /** Bitwise. */
  lemma TopUnaffected(a: bv32, d: bv32)
    requires Within(d, 5)
    ensures Top(Xor(a, d)) == Top(a)
  {
  }

  /** Bitwise. */
  lemma RolledSplits(a: bv32, b: bv32)
    ensures Rolled(Xor(a, b)) == Xor(Rolled(a), Rolled(b))
  {
  }

  /** Bitwise. */
  lemma XorCommutes(a: bv32, b: bv32)
    ensures Xor(a, b) == Xor(b, a)
  {
  }

  lemma XorRegroups(a: bv32, b: bv32, c: bv32, d: bv32)
    ensures Xor(Xor(a, b), Xor(c, d)) == Xor(Xor(a, c), Xor(b, d))
  {
    XorAssociates(a, b, Xor(c, d));
    XorAssociates(b, c, d);
    XorCommutes(b, c);
    XorAssociates(c, b, d);
    XorAssociates(a, c, Xor(b, d));
  }

  lemma MixSplits(a: bv32, b: bv32, v: bv32, u: bv32, p: bv32, q: bv32)
    ensures Mix(Xor(a, b), Xor(v, u), Xor(p, q)) == Xor(Mix(a, v, p), Mix(b, u, q))
  {
    RolledSplits(a, b);
    XorRegroups(Rolled(a), Rolled(b), v, u);
    XorRegroups(Xor(Rolled(a), v), Xor(Rolled(b), u), p, q);
  }

  /** Bitwise. */
  lemma MixShiftsIn(d: bv32, v: bv32)
    requires Within(d, 5)
    ensures Mix(d, v, 0) == ShiftIn(d, v)
  {
  }

  lemma MixLinear(a: bv32, d: bv32, v: bv32, p: bv32)
    requires Within(d, 5)
    ensures Mix(Xor(a, d), v, p) == Xor(Mix(a, 0, p), ShiftIn(d, v))
  {
    XorNothing(v);
    XorNothing(p);
    XorCommutes(0, v);
    MixSplits(a, d, 0, v, p, 0);
    MixShiftsIn(d, v);
  }

  lemma StepLinear(f: bv32 -> bv32, a: bv32, d: bv32, v: bv32)
    requires Within(d, 5)
    ensures Step(f, Xor(a, d), v) == Xor(Step(f, a, 0), ShiftIn(d, v))
  {
    TopUnaffected(a, d);
    MixLinear(a, d, v, f(Top(a)));
  }

  /** Bitwise. */
  lemma XorNothing(a: bv32)
    ensures Xor(a, 0) == a
  {
  }

  /** Bitwise. */
  lemma WordZero()
    ensures Word(0) == 0
  {
  }

  /** Six symbols or fewer simply show up in the register, XORed over what zeros would leave. */
  lemma {:induction false} FoldWindow(f: bv32 -> bv32, a: bv32, w: seq<u8>)
    requires |w| <= 6 && Symbols(w)
    ensures Fold(f, a, w) == Xor(Fold(f, a, Repeat(0, |w|)), Pack(w))
  {
    if w == [] {
      XorNothing(a);
    } else {
      var n := |w| - 1;
      FoldWindow(f, a, w[..n]);
      PackBounded(w[..n]);
      WithinFive(Pack(w[..n]), n);
      FoldSnoc(f, a, w[..n], w[n]);
      FoldSnoc(f, a, Repeat(0, n), 0);
      WordZero();
      assert w == w[..n] + [w[n]];
      assert Repeat(0 as u8, n + 1) == Repeat(0 as u8, n) + [0];
      StepLinear(f, Fold(f, a, Repeat(0, n)), Pack(w[..n]), Word(w[n]));
    }
  }

  /** Bitwise. */
  lemma ShiftInInjective(d: bv32, e: bv32, v: bv32, u: bv32)
    requires Within(d, 5) && Within(e, 5) && Symbol(v) && Symbol(u)
    requires ShiftIn(d, v) == ShiftIn(e, u)
    ensures d == e && v == u
  {
  }

  lemma PackDeterminesLast(w: seq<u8>, v: u8, u: seq<u8>, x: u8)
    requires |w| <= 5 && |u| <= 5 && Symbols(w) && Symbols(u) && v < 32 && x < 32
    requires ShiftIn(Pack(w), Word(v)) == ShiftIn(Pack(u), Word(x))
    ensures Pack(w) == Pack(u) && v == x
  {
    PackBounded(w);
    PackBounded(u);
    WithinFive(Pack(w), |w|);
    WithinFive(Pack(u), |u|);
    WordBounded(v);
    WordBounded(x);
    ShiftInInjective(Pack(w), Pack(u), Word(v), Word(x));
    WordInjective(v, x);
  }

  lemma {:induction false} PackInjective(w: seq<u8>, u: seq<u8>)
    requires |w| == |u| <= 6 && Symbols(w) && Symbols(u)
    requires Pack(w) == Pack(u)
    ensures w == u
  {
    if w != [] {
      var n := |w| - 1;
      PackDeterminesLast(w[..n], w[n], u[..n], u[n]);
      PackInjective(w[..n], u[..n]);
      assert w == w[..n] + [w[n]] && u == u[..n] + [u[n]];
    }
  }

  /** Bitwise. */
  lemma XorCancels(a: bv32, b: bv32, c: bv32)
    requires Xor(a, b) == Xor(a, c)
    ensures b == c
  {
  }

  /** No two different windows of at most six symbols lead to the same register, however long the rest. */
  lemma WindowDetected(f: bv32 -> bv32, chk: bv32, w: seq<u8>, u: seq<u8>, rest: seq<u8>)
    requires Invertible(f) && Register(chk)
    requires |w| == |u| <= 6 && Symbols(w) && Symbols(u)
    requires Fold(f, chk, w + rest) == Fold(f, chk, u + rest)
    ensures w == u
  {
    FoldAppend(f, chk, w, rest);
    FoldAppend(f, chk, u, rest);
    FoldBounded(f, chk, w);
    FoldBounded(f, chk, u);
    FoldInjective(f, Fold(f, chk, w), Fold(f, chk, u), rest);
    FoldWindow(f, chk, w);
    FoldWindow(f, chk, u);
    XorCancels(Fold(f, chk, Repeat(0, |w|)), Pack(w), Pack(u));
    PackInjective(w, u);
  }
}
