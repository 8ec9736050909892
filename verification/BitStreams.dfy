/**
 The reference reading of bit regrouping: a sequence of fixed-width groups denotes the
 concatenation of their bits, most significant first. `Groups` cuts a bit string back into
 groups and `Leftover` is what is too short to fill one.
 */
module BitStreams {
  import opened Basics

  function Pow2(n: nat): (p: nat)
    ensures p >= 1
  {
    if n == 0 then 1 else 2 * Pow2(n - 1)
  }

  /** The low `w` bits of `n`, most significant first. */
  function Bits(n: nat, w: nat): (b: seq<bool>)
    ensures |b| == w
  {
    if w == 0 then [] else Bits(n / 2, w - 1) + [n % 2 == 1]
  }

  function ValueOf(b: seq<bool>): (n: nat)
    ensures n < Pow2(|b|)
  {
    if b == [] then 0 else 2 * ValueOf(b[..|b| - 1]) + if b[|b| - 1] then 1 else 0
  }

  lemma {:induction false} BitsOfValue(b: seq<bool>)
    ensures Bits(ValueOf(b), |b|) == b
  {
    if b != [] {
      BitsOfValue(b[..|b| - 1]);
    }
  }

  lemma {:induction false} ValueOfBits(n: nat, w: nat)
    requires n < Pow2(w)
    ensures ValueOf(Bits(n, w)) == n
  {
    if w > 0 {
      ValueOfBits(n / 2, w - 1);
      assert Bits(n, w)[..w - 1] == Bits(n / 2, w - 1);
    }
  }

  lemma {:induction false} BitsOfZero(w: nat)
    ensures Bits(0, w) == Repeat(false, w)
  {
    if w > 0 {
      BitsOfZero(w - 1);
    }
  }

  // ---- Shifts and masks, as repeated doubling and halving ----

  /** `n << k` */
  function Shl(n: nat, k: nat): nat {
    if k == 0 then n else 2 * Shl(n, k - 1)
  }

  /** `n >> k` */
  function Shr(n: nat, k: nat): nat {
    if k == 0 then n else Shr(n / 2, k - 1)
  }

  /** `n & ((1 << w) - 1)` */
  function Mask(n: nat, w: nat): (m: nat)
    ensures m < Pow2(w)
  {
    if w == 0 then 0 else 2 * Mask(n / 2, w - 1) + n % 2
  }

  /** Shifting left by `f` and filling the gap with `v` appends the `f` bits of `v`. */
  lemma {:induction false} BitsAppend(n: nat, w: nat, v: nat, f: nat)
    requires v < Pow2(f)
    ensures Bits(Shl(n, f) + v, w + f) == Bits(n, w) + Bits(v, f)
  {
    if f > 0 {
      BitsAppend(n, w, v / 2, f - 1);
      assert (Shl(n, f) + v) / 2 == Shl(n, f - 1) + v / 2;
    }
  }

  /** Masking to `k` bits loses none of the low `w <= k` bits. */
  lemma {:induction false} BitsMask(n: nat, k: nat, w: nat)
    requires w <= k
    ensures Bits(Mask(n, k), w) == Bits(n, w)
  {
    if w > 0 {
      BitsMask(n / 2, k - 1, w - 1);
    }
  }

  /** The top `a` of `a + b` bits are those of `n` shifted right by `b`. */
  lemma {:induction false} BitsSplit(n: nat, a: nat, b: nat)
    ensures Bits(n, a + b) == Bits(Shr(n, b), a) + Bits(n, b)
  {
    if b > 0 {
      BitsSplit(n / 2, a, b - 1);
    }
  }

  lemma {:induction false} ShrZero(n: nat, k: nat)
    ensures Shr(n, k) == 0 <==> n < Pow2(k)
  {
    if k > 0 {
      ShrZero(n / 2, k - 1);
    }
  }

  lemma {:induction false} Pow2Grows(a: nat, b: nat)
    requires a <= b
    ensures Pow2(a) <= Pow2(b)
    decreases b
  {
    if a < b {
      Pow2Grows(a, b - 1);
    }
  }

  lemma Pow2Values()
    ensures Pow2(5) == 32 && Pow2(8) == 256
  {
    assert Pow2(4) == 16;
  }

  lemma Pow2Word()
    ensures Pow2(32) == 0x1_0000_0000
  {
    assert Pow2(8) == 256;
    assert Pow2(16) == 256 * Pow2(8);
    assert Pow2(24) == 256 * Pow2(16);
  }

  /** Every group fits in `w` bits. */
  predicate Fits(data: Bytes, w: nat) {
    forall i :: 0 <= i < |data| ==> data[i] < Pow2(w)
  }

  function BitString(data: Bytes, w: nat): (b: seq<bool>) {
    if data == [] then [] else Bits(data[0], w) + BitString(data[1..], w)
  }

  lemma {:induction false} BitStringSnoc(d: Bytes, x: u8, w: nat)
    ensures BitString(d + [x], w) == BitString(d, w) + Bits(x, w)
  {
    if d == [] {
      assert [x][1..] == [];
    } else {
      BitStringSnoc(d[1..], x, w);
      assert (d + [x])[1..] == d[1..] + [x];
      ConcatAssociates(Bits(d[0], w), BitString(d[1..], w), Bits(x, w));
    }
  }

  /** The number that groups spell, as digits of base 2^w. */
  function Number(data: Bytes, w: nat): nat {
    if data == [] then 0 else Shl(Number(data[..|data| - 1], w), w) + data[|data| - 1]
  }

  lemma {:induction false} BitStringNumber(data: Bytes, w: nat)
    requires Fits(data, w)
    ensures BitString(data, w) == Bits(Number(data, w), |data| * w)
  {
    if data != [] {
      var front, x := data[..|data| - 1], data[|data| - 1];
      assert data == front + [x];
      BitStringNumber(front, w);
      BitStringSnoc(front, x, w);
      BitsAppend(Number(front, w), |front| * w, x, w);
      OneMore(|front|, w);
    }
  }

  lemma OneMore(n: nat, w: nat)
    ensures (n + 1) * w == n * w + w
  {
  }

  /** Groups of one width, and zeros to fill up, are groups of another width when they spell the same number. */
  lemma SameNumber(d: Bytes, v: nat, fill: nat, e: Bytes, w: nat)
    requires Fits(d, v) && Fits(e, w)
    requires Shl(Number(d, v), fill) == Number(e, w) && |d| * v + fill == |e| * w
    ensures BitString(d, v) + Repeat(false, fill) == BitString(e, w)
  {
    BitStringNumber(d, v);
    BitStringNumber(e, w);
    BitsOfZero(fill);
    BitsAppend(Number(d, v), |d| * v, 0, fill);
  }

  function Groups(b: seq<bool>, w: nat): (g: Bytes)
    requires 1 <= w <= 8
    ensures Fits(g, w)
  {
    if |b| < w then []
    else
      Pow2Grows(w, 8);
      Pow2Values();
      [ValueOf(b[..w])] + Groups(b[w..], w)
  }

  function Leftover(b: seq<bool>, w: nat): (l: seq<bool>)
    requires w >= 1
    ensures |l| < w
  {
    if |b| < w then b else Leftover(b[w..], w)
  }

  lemma CutOne(x: u8, c: seq<bool>, rest: seq<bool>, w: nat)
    requires 1 <= w <= 8 && x < Pow2(w) && c == Bits(x, w)
    ensures Groups(c + rest, w) == [x] + Groups(rest, w)
    ensures Leftover(c + rest, w) == Leftover(rest, w)
  {
    ValueOfBits(x, w);
    assert (c + rest)[..w] == c && (c + rest)[w..] == rest;
  }

  lemma SpellCons(x: u8, c: seq<bool>, g: Bytes, l: seq<bool>, w: nat)
    requires c == Bits(x, w)
    ensures BitString([x] + g, w) + l == c + (BitString(g, w) + l)
  {
  }

  /** Cutting is exact: the groups and the leftover spell the whole bit string ... */
  lemma {:induction false} GroupsSpell(b: seq<bool>, w: nat)
    requires 1 <= w <= 8
    ensures BitString(Groups(b, w), w) + Leftover(b, w) == b
  {
    if |b| >= w {
      var c, rest := b[..w], b[w..];
      assert b == c + rest;
      GroupsSpell(rest, w);
      BitsOfValue(c);
      Pow2Grows(w, 8);
      Pow2Values();
      CutOne(ValueOf(c), c, rest, w);
      SpellCons(ValueOf(c), c, Groups(rest, w), Leftover(rest, w), w);
    }
  }

  /** ... and it is the only way to spell it. */
  lemma {:induction false} GroupsUnique(g: Bytes, l: seq<bool>, w: nat)
    requires 1 <= w <= 8 && Fits(g, w) && |l| < w
    ensures Groups(BitString(g, w) + l, w) == g
    ensures Leftover(BitString(g, w) + l, w) == l
  {
    if g == [] {
      assert BitString(g, w) + l == l;
    } else {
      var x, h := g[0], g[1..];
      var rest := BitString(h, w) + l;
      GroupsUnique(h, l, w);
      CutOne(x, Bits(x, w), rest, w);
      ConcatAssociates(Bits(x, w), BitString(h, w), l);
      assert g == [x] + h;
    }
  }

  /** Whole groups in front are cut off as they are. */
  lemma {:induction false} GroupsInFront(g: Bytes, rest: seq<bool>, w: nat)
    requires 1 <= w <= 8 && Fits(g, w)
    ensures Groups(BitString(g, w) + rest, w) == g + Groups(rest, w)
    ensures Leftover(BitString(g, w) + rest, w) == Leftover(rest, w)
  {
    if g == [] {
      assert BitString(g, w) + rest == rest;
    } else {
      var x, h := g[0], g[1..];
      var tail := BitString(h, w) + rest;
      GroupsInFront(h, rest, w);
      CutOne(x, Bits(x, w), tail, w);
      ConcatAssociates(Bits(x, w), BitString(h, w), rest);
      ConcatAssociates([x], h, Groups(rest, w));
      assert g == [x] + h;
    }
  }

  lemma {:induction false} BitStringAppend(a: Bytes, b: Bytes, w: nat)
    ensures BitString(a + b, w) == BitString(a, w) + BitString(b, w)
  {
    if a == [] {
      assert a + b == b;
    } else {
      BitStringAppend(a[1..], b, w);
      assert (a + b)[1..] == a[1..] + b;
      ConcatAssociates(Bits(a[0], w), BitString(a[1..], w), BitString(b, w));
    }
  }
}
