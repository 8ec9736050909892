/** `convert_bits` of src/crypto/bech32.rs, against the reading of `BitStreams`. */
module BitRegrouping {
  import opened Basics
  import opened BitStreams

  /** The zero bits that fill the last group. */
  function Filler(b: seq<bool>, w: nat): seq<bool>
    requires w >= 1
  {
    if Leftover(b, w) == [] then [] else Repeat(false, w - |Leftover(b, w)|)
  }

  /**
   What `convert_bits` computes: the same bits in groups of another width. With `pad` the last
   group is filled with zeros; without it the leftover must be shorter than an input group and
   all zeros.
   */
  function Regrouped(data: Bytes, from: nat, to: nat, pad: bool): (r: Option<Bytes>)
    requires 1 <= from <= 8 && 1 <= to <= 8
  {
    var b := BitString(data, from);
    if !Fits(data, from) then None
    else if pad then Some(Groups(b + Filler(b, to), to))
    else
      var l := Leftover(b, to);
      if |l| < from && l == Repeat(false, |l|) then Some(Groups(b, to)) else None
  }

  /** `(acc << f) | v` on 32-bit words, for `v < 2^f`; `Words.OrIsPush` says why adding will do. */
  function Push32(acc: u32, f: nat, v: nat): u32 {
    Pow2Word();
    Mask(Shl(acc, f) + v, 32)
  }

  lemma PushAppendsBits(acc: u32, bits: nat, f: nat, v: nat)
    requires v < Pow2(f) && bits + f <= 32
    ensures Bits(Push32(acc, f, v), bits + f) == Bits(acc, bits) + Bits(v, f)
  {
    BitsMask(Shl(acc, f) + v, 32, bits + f);
    BitsAppend(acc, bits, v, f);
  }

  /** What is pending never reaches a whole group, and everything consumed is accounted for. */
  ghost predicate Streaming(consumed: Bytes, from: nat, out: Bytes, to: nat, acc: u32, bits: nat) {
    && Fits(consumed, from)
    && Fits(out, to)
    && BitString(consumed, from) == BitString(out, to) + Bits(acc, bits)
  }

  method ConvertBits(data: Bytes, from: nat, to: nat, pad: bool) returns (r: Option<Bytes>)
    requires 1 <= from <= 8 && 1 <= to <= 8
    ensures r == Regrouped(data, from, to, pad)
  {
    var acc: u32 := 0;
    var bits: nat := 0;
    var out: Bytes := [];
    for k := 0 to |data|
      invariant bits < to
      invariant Streaming(data[..k], from, out, to, acc, bits)
    {
      var value := data[k];
      ShrZero(value, from);
      if Shr(value, from) != 0 {
        return None;
      }
      assert data[..k + 1] == data[..k] + [value];
      PushStreams(data[..k], from, out, to, acc, bits, value);
      acc := Push32(acc, from, value);
      bits := bits + from;
      out, bits := Drain(data[..k + 1], from, out, to, acc, bits);
    }
    assert data[..|data|] == data;
    r := Finish(data, from, out, to, acc, bits, pad);
  }

  /** The inner loop of `convert_bits`: emit groups while enough bits are pending. */
  method Drain(ghost consumed: Bytes, from: nat, emitted: Bytes, to: nat, acc: u32, pending: nat)
    returns (out: Bytes, bits: nat)
    requires 1 <= to <= 8
    requires Streaming(consumed, from, emitted, to, acc, pending)
    ensures bits < to && Streaming(consumed, from, out, to, acc, bits)
  {
    out, bits := emitted, pending;
    while bits >= to
      invariant Streaming(consumed, from, out, to, acc, bits)
    {
      bits := bits - to;
      var group := EmitGroup(acc, bits, to);
      EmitStreams(consumed, from, out, to, acc, bits, group);
      out := out + [group];
    }
  }

  /** The tail of `convert_bits`, after its loop. */
  method Finish(ghost data: Bytes, from: nat, out: Bytes, to: nat, acc: u32, bits: nat, pad: bool)
    returns (r: Option<Bytes>)
    requires 1 <= from <= 8 && 1 <= to <= 8 && bits < to
    requires Streaming(data, from, out, to, acc, bits)
    ensures r == Regrouped(data, from, to, pad)
  {
    GroupsUnique(out, Bits(acc, bits), to);
    var last := LastGroup(acc, bits, to);
    if pad {
      CompletedBy(BitString(data, from), out, to, acc, bits, last);
      return Some(if bits > 0 then out + [last] else out);
    }
    ZeroGroup(last, acc, bits, to);
    return if bits >= from || last != 0 then None else Some(out);
  }

  lemma PushStreams(consumed: Bytes, from: nat, out: Bytes, to: nat, acc: u32, bits: nat, value: u8)
    requires from <= 8 && bits < to <= 8 && value < Pow2(from)
    requires Streaming(consumed, from, out, to, acc, bits)
    ensures Streaming(consumed + [value], from, out, to, Push32(acc, from, value), bits + from)
  {
    BitStringSnoc(consumed, value, from);
    PushAppendsBits(acc, bits, from, value);
    ConcatAssociates(BitString(out, to), Bits(acc, bits), Bits(value, from));
  }

  lemma EmitStreams(consumed: Bytes, from: nat, out: Bytes, to: nat, acc: u32, bits: nat, group: u8)
    requires group == Mask(Shr(acc, bits), to)
    requires Streaming(consumed, from, out, to, acc, to + bits)
    ensures Streaming(consumed, from, out + [group], to, acc, bits)
  {
    BitsSplit(acc, to, bits);
    BitsMask(Shr(acc, bits), to, to);
    BitStringSnoc(out, group, to);
    ConcatAssociates(BitString(out, to), Bits(group, to), Bits(acc, bits));
  }

  /** The filled last group completes the stream to whole groups. */
  lemma CompletedBy(b: seq<bool>, out: Bytes, to: nat, acc: u32, bits: nat, last: u8)
    requires bits < to <= 8 && Fits(out, to) && last < Pow2(to)
    requires b == BitString(out, to) + Bits(acc, bits)
    requires Bits(last, to) == Bits(acc, bits) + Repeat(false, to - bits)
    ensures Groups(b + Filler(b, to), to) == if bits > 0 then out + [last] else out
  {
    GroupsUnique(out, Bits(acc, bits), to);
    var all := if bits > 0 then out + [last] else out;
    if bits > 0 {
      BitStringSnoc(out, last, to);
      ConcatAssociates(BitString(out, to), Bits(acc, bits), Repeat(false, to - bits));
    }
    assert b + Filler(b, to) == BitString(all, to) + [];
    GroupsUnique(all, [], to);
  }

  /** `(acc >> bits) & maxv` */
  method EmitGroup(acc: u32, bits: nat, to: nat) returns (group: u8)
    requires 1 <= to <= 8
    ensures group == Mask(Shr(acc, bits), to)
  {
    Pow2Grows(to, 8);
    Pow2Values();
    group := Mask(Shr(acc, bits), to);
  }

  /** `(acc << (to - bits)) & maxv`: the pending bits, then zeros. */
  method LastGroup(acc: u32, bits: nat, to: nat) returns (group: u8)
    requires bits < to <= 8
    ensures group < Pow2(to)
    ensures Bits(group, to) == Bits(acc, bits) + Repeat(false, to - bits)
  {
    Pow2Grows(to, 8);
    Pow2Values();
    var shifted := Push32(acc, to - bits, 0);
    group := Mask(shifted, to);
    PushAppendsBits(acc, bits, to - bits, 0);
    BitsOfZero(to - bits);
    BitsMask(shifted, to, to);
  }

  lemma ZeroGroup(group: nat, acc: nat, bits: nat, to: nat)
    requires bits < to && group < Pow2(to)
    requires Bits(group, to) == Bits(acc, bits) + Repeat(false, to - bits)
    ensures group == 0 <==> Bits(acc, bits) == Repeat(false, bits)
  {
    ValueOfBits(group, to);
    ValueOfBits(0, to);
    BitsOfZero(to);
    assert Repeat(false, to) == Repeat(false, bits) + Repeat(false, to - bits);
    if group == 0 {
      assert Bits(acc, bits) == Bits(group, to)[..bits];
    }
  }

  /** Regrouping bytes into narrower groups with padding never loses anything. */
  lemma NarrowThenWiden(data: Bytes, w: nat)
    requires 1 <= w <= 8
    ensures Regrouped(data, 8, w, true).Some?
    ensures Fits(Regrouped(data, 8, w, true).value, w)
    ensures Regrouped(Regrouped(data, 8, w, true).value, w, 8, false) == Some(data)
  {
    Pow2Values();
    var b := BitString(data, 8);
    var fill := Filler(b, w);
    var narrow := Groups(b + fill, w);
    GroupsSpell(b, w);
    GroupsSpell(b + fill, w);
    FillerFills(b, w);
    GroupsUnique(data, fill, 8);
    assert BitString(narrow, w) == b + fill;
  }

  lemma FillerFills(b: seq<bool>, w: nat)
    requires 1 <= w <= 8
    ensures Leftover(b + Filler(b, w), w) == []
    ensures |Filler(b, w)| < w
    ensures Filler(b, w) == Repeat(false, |Filler(b, w)|)
  {
    var l, fill := Leftover(b, w), Filler(b, w);
    GroupsSpell(b, w);
    if l == [] {
      assert b + fill == b;
    } else {
      WholeGroup(Groups(b, w), l + fill, w);
      assert b + fill == BitString(Groups(b, w), w) + (l + fill);
    }
  }

  lemma WholeGroup(g: Bytes, c: seq<bool>, w: nat)
    requires 1 <= w <= 8 && Fits(g, w) && |c| == w
    ensures Leftover(BitString(g, w) + c, w) == []
  {
    Pow2Grows(w, 8);
    Pow2Values();
    var last := ValueOf(c);
    BitsOfValue(c);
    BitStringSnoc(g, last, w);
    var s := BitString(g + [last], w);
    GroupsUnique(g + [last], [], w);
    assert s + [] == s;
  }

  /** Whatever the unpadded direction accepts is exactly what the padded one produces. */
  lemma WidenThenNarrow(groups: Bytes, w: nat)
    requires 1 <= w <= 8 && Regrouped(groups, w, 8, false).Some?
    ensures Regrouped(Regrouped(groups, w, 8, false).value, 8, w, true) == Some(groups)
  {
    Pow2Values();
    var b := BitString(groups, w);
    var data, l := Groups(b, 8), Leftover(b, 8);
    GroupsSpell(b, 8);
    var d := BitString(data, 8);
    var fill := Filler(d, w);
    FillerFills(d, w);
    GroupsSpell(d + fill, w);
    SameFiller(d, l, fill, groups, Groups(d + fill, w), w);
    GroupsUnique(groups, [], w);
    assert b == BitString(groups, w) + [];
  }

  lemma {:induction false} BitStringLength(g: Bytes, w: nat)
    ensures |BitString(g, w)| == |g| * w
  {
    if g != [] {
      BitStringLength(g[1..], w);
      assert |g| * w == w + |g[1..]| * w;
    }
  }

  lemma NonzeroMultiple(d: int, p: int)
    requires p >= 0
    ensures d == 0 || d * p >= p || d * p <= -p
  {
  }

  /** Two fillers shorter than a group that both complete `d` to whole groups have one length. */
  lemma SameFiller(d: seq<bool>, l: seq<bool>, fill: seq<bool>, g: Bytes, h: Bytes, w: nat)
    requires |l| < w && |fill| < w
    requires d + l == BitString(g, w) && d + fill == BitString(h, w)
    requires l == Repeat(false, |l|) && fill == Repeat(false, |fill|)
    ensures l == fill
  {
    BitStringLength(g, w);
    BitStringLength(h, w);
    assert |l| - |fill| == (|g| - |h|) * w by {
      assert |g| * w - |h| * w == (|g| - |h|) * w;
    }
    NonzeroMultiple(|g| - |h|, w);
  }
}
