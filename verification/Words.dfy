/**
 The 32-bit words behind `Push32`: what `(acc << from) | value` does in src/crypto/bech32.rs, bit
 for bit, is `Push32` on the numbers that the words stand for. Bit-vector formulas are confined
 to the one-line functions and to the lemmas marked "bitwise".
 */
module Words {
  import opened Basics
  import opened BitStreams
  import opened BitRegrouping

  function Half(w: bv32): bv32 {
    w >> 1
  }

  predicate Odd(w: bv32) {
    w & 1 == 1
  }

  function Bit(b: bool): nat {
    if b then 1 else 0
  }

  /** The number in the low `n` bits of a word. */
  function Low(w: bv32, n: nat): nat {
    if n == 0 then 0 else 2 * Low(Half(w), n - 1) + Bit(Odd(w))
  }

  lemma {:induction false} LowBounded(w: bv32, n: nat)
    ensures Low(w, n) < Pow2(n)
  {
    if n > 0 {
      LowBounded(Half(w), n - 1);
    }
  }

  function Number(w: bv32): u32 {
    LowBounded(w, 32);
    Pow2Word();
    Low(w, 32)
  }

  function PushBit(w: bv32, b: bool): bv32 {
    (w << 1) | (if b then 1 else 0)
  }

  /** The low `f` bits of `v`, pushed one after the other. */
  function Pushed(acc: bv32, f: nat, v: bv32): bv32 {
    if f == 0 then acc else PushBit(Pushed(acc, f - 1, Half(v)), Odd(v))
  }

  function And(w: bv32, m: bv32): bv32 {
    w & m
  }

  // ---- One bit ----

  /** The low `n` bits are set. */
  ghost predicate Ones(m: bv32, n: nat) {
    n == 0 || (Odd(m) && Ones(Half(m), n - 1))
  }

  /** Bitwise. */
  lemma FourHalves(m: bv32)
    requires m & 15 == 15
    ensures Half(Half(Half(Half(m)))) == m >> 4
    ensures Odd(m) && Odd(Half(m)) && Odd(Half(Half(m))) && Odd(Half(Half(Half(m))))
  {
  }

  lemma FourMore(m: bv32, n: nat)
    requires m & 15 == 15 && Ones(m >> 4, n)
    ensures Ones(m, n + 4)
  {
    FourHalves(m);
    assert Ones(Half(Half(Half(m))), n + 1);
    assert Ones(Half(Half(m)), n + 2);
    assert Ones(Half(m), n + 3);
  }

  lemma ThirtyOne()
    ensures Ones(0x7fff_ffff, 31)
  {
    assert Ones(1, 1);
    assert Ones(3, 2);
    assert Ones(7, 3);
    FourMore(0x7f, 3);
    FourMore(0x7ff, 7);
    FourMore(0x7fff, 11);
    FourMore(0x7_ffff, 15);
    FourMore(0x7f_ffff, 19);
    FourMore(0x7ff_ffff, 23);
    FourMore(0x7fff_ffff, 27);
  }

  /** Bitwise. */
  lemma AndHalves(w: bv32, m: bv32)
    ensures Half(And(w, m)) == And(Half(w), Half(m))
    ensures Odd(m) ==> Odd(And(w, m)) == Odd(w)
  {
  }

  lemma {:induction false} LowAnd(w: bv32, m: bv32, n: nat)
    requires Ones(m, n)
    ensures Low(And(w, m), n) == Low(w, n)
  {
    if n > 0 {
      AndHalves(w, m);
      LowAnd(Half(w), Half(m), n - 1);
    }
  }

  /** Bitwise. The bit pushed out at the top is lost. */
  lemma PushedBit(w: bv32, b: bool)
    ensures Half(PushBit(w, b)) == And(w, 0x7fff_ffff)
    ensures Odd(PushBit(w, b)) == b
  {
  }

  lemma NumberPushed(w: bv32, b: bool)
    ensures Number(PushBit(w, b)) == 2 * Low(w, 31) + Bit(b)
  {
    PushedBit(w, b);
    ThirtyOne();
    LowAnd(w, 0x7fff_ffff, 31);
  }

  lemma LowCons(w: bv32, n: nat)
    requires n > 0
    ensures Low(w, n) == 2 * Low(Half(w), n - 1) + Bit(Odd(w))
  {
  }

  lemma MaskCons(n: nat, b: bool, m: nat)
    requires m > 0
    ensures Mask(2 * n + Bit(b), m) == 2 * Mask(n, m - 1) + Bit(b)
  {
    assert (2 * n + Bit(b)) / 2 == n && (2 * n + Bit(b)) % 2 == Bit(b);
  }

  lemma {:induction false} MaskLow(w: bv32, n: nat, m: nat)
    requires m <= n
    ensures Mask(Low(w, n), m) == Low(w, m)
  {
    if m > 0 {
      MaskLow(Half(w), n - 1, m - 1);
      LowCons(w, n);
      LowCons(w, m);
      MaskCons(Low(Half(w), n - 1), Odd(w), m);
    }
  }

  lemma {:induction false} MaskMask(n: nat, k: nat, m: nat)
    requires m <= k
    ensures Mask(Mask(n, k), m) == Mask(n, m)
  {
    if m > 0 {
      MaskMask(n / 2, k - 1, m - 1);
      assert Mask(n, k) == 2 * Mask(n / 2, k - 1) + Bit(n % 2 == 1);
      MaskCons(Mask(n / 2, k - 1), n % 2 == 1, m);
      assert Mask(n, m) == 2 * Mask(n / 2, m - 1) + Bit(n % 2 == 1);
    }
  }

  // ---- A whole value, bit by bit ----

  lemma PushGrows(a: nat, f: nat, v: nat, b: bool)
    ensures Mask(Shl(a, f + 1) + (2 * v + Bit(b)), 32) == 2 * Mask(Shl(a, f) + v, 31) + Bit(b)
  {
    assert Shl(a, f + 1) + (2 * v + Bit(b)) == 2 * (Shl(a, f) + v) + Bit(b);
    MaskCons(Shl(a, f) + v, b, 32);
  }

  lemma NumberStep(w: bv32, b: bool, a: nat, g: nat, v: nat)
    requires Number(w) == Mask(Shl(a, g) + v, 32)
    ensures Number(PushBit(w, b)) == Mask(Shl(a, g + 1) + (2 * v + Bit(b)), 32)
  {
    NumberPushed(w, b);
    MaskLow(w, 32, 31);
    MaskMask(Shl(a, g) + v, 32, 31);
    PushGrows(a, g, v, b);
  }

  lemma Unfolds(a: u32, f: nat, v: nat)
    ensures Push32(a, f, v) == Mask(Shl(a, f) + v, 32)
  {
  }

  lemma {:induction false} PushedIsPush(acc: bv32, f: nat, v: bv32)
    ensures Number(Pushed(acc, f, v)) == Push32(Number(acc), f, Low(v, f))
    decreases f
  {
    if f == 0 {
      MaskLow(acc, 32, 32);
    } else {
      PushedIsPush(acc, f - 1, Half(v));
      LowCons(v, f);
      Unfolds(Number(acc), f - 1, Low(Half(v), f - 1));
      Unfolds(Number(acc), f, Low(v, f));
      NumberStep(Pushed(acc, f - 1, Half(v)), Odd(v), Number(acc), f - 1, Low(Half(v), f - 1));
    }
  }

  /** The operations of the code, at the widths of `convert_bits`. */
  function OrShifted(acc: bv32, f: nat, v: bv32): bv32
    requires 1 <= f <= 8
  {
    (acc << f) | v
  }

  predicate Oversized(v: bv32, f: nat)
    requires 1 <= f <= 8
  {
    v >> f != 0
  }

  /** Bitwise. */
  lemma AtMostOne(v: bv32)
    requires v >> 1 == 0
    ensures v == 0 || v == 1
  {
  }

  lemma Or1(acc: bv32, v: bv32)
    requires !Oversized(v, 1)
    ensures Pushed(acc, 1, v) == OrShifted(acc, 1, v)
  {
    AtMostOne(v);
    assert Pushed(acc, 0, Half(v)) == acc;
    if v == 0 {
      assert !Odd(0);
    } else {
      assert Odd(1);
    }
  }

  lemma Or2(acc: bv32, v: bv32)
    requires !Oversized(v, 2)
    ensures Pushed(acc, 2, v) == OrShifted(acc, 2, v)
  {
    Or1(acc, Half(v));
  }

  lemma Or3(acc: bv32, v: bv32)
    requires !Oversized(v, 3)
    ensures Pushed(acc, 3, v) == OrShifted(acc, 3, v)
  {
    Or2(acc, Half(v));
  }

  lemma Or4(acc: bv32, v: bv32)
    requires !Oversized(v, 4)
    ensures Pushed(acc, 4, v) == OrShifted(acc, 4, v)
  {
    Or3(acc, Half(v));
  }

  lemma Or5(acc: bv32, v: bv32)
    requires !Oversized(v, 5)
    ensures Pushed(acc, 5, v) == OrShifted(acc, 5, v)
  {
    Or4(acc, Half(v));
  }

  lemma Or6(acc: bv32, v: bv32)
    requires !Oversized(v, 6)
    ensures Pushed(acc, 6, v) == OrShifted(acc, 6, v)
  {
    Or5(acc, Half(v));
  }

  lemma Or7(acc: bv32, v: bv32)
    requires !Oversized(v, 7)
    ensures Pushed(acc, 7, v) == OrShifted(acc, 7, v)
  {
    Or6(acc, Half(v));
  }

  lemma Or8(acc: bv32, v: bv32)
    requires !Oversized(v, 8)
    ensures Pushed(acc, 8, v) == OrShifted(acc, 8, v)
  {
    Or7(acc, Half(v));
  }

  lemma OrIsPushed(acc: bv32, f: nat, v: bv32)
    requires 1 <= f <= 8 && !Oversized(v, f)
    ensures Pushed(acc, f, v) == OrShifted(acc, f, v)
  {
    if f == 1 {
      Or1(acc, v);
    } else if f == 2 {
      Or2(acc, v);
    } else if f == 3 {
      Or3(acc, v);
    } else if f == 4 {
      Or4(acc, v);
    } else if f == 5 {
      Or5(acc, v);
    } else if f == 6 {
      Or6(acc, v);
    } else if f == 7 {
      Or7(acc, v);
    } else if f == 8 {
      Or8(acc, v);
    }
  }

  /**
   At every width of `convert_bits`: for a value that passes the code's width check, shifting the
   accumulator and ORing the value in gives the word that stands for `Push32`.
   */
  lemma OrIsPush(acc: bv32, f: nat, v: bv32)
    requires 1 <= f <= 8 && !Oversized(v, f)
    ensures Number(OrShifted(acc, f, v)) == Push32(Number(acc), f, Low(v, f))
  {
    OrIsPushed(acc, f, v);
    PushedIsPush(acc, f, v);
  }
}
