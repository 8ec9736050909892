/** The length-hiding padding of src/crypto/nip44.rs. */
module Padding {
  import opened Basics

  const MIN_PADDED_LEN := 32
  const MAX_MESSAGE_LEN := 65535

  function Max(a: nat, b: nat): nat {
    if a < b then b else a
  }

  predicate IsPow2(p: nat)
    decreases p
  {
    p == 1 || (p >= 2 && p % 2 == 0 && IsPow2(p / 2))
  }

  /** `u32::next_power_of_two` */
  function NextPow2(n: nat): nat {
    if n <= 1 then 1 else 2 * NextPow2((n + 1) / 2)
  }

  /** The smallest multiple of `c` that is at least `n`. */
  function RoundUp(n: nat, c: nat): nat
    requires c >= 1
  {
    (n + c - 1) / c * c
  }

  function Chunk(n: nat): (c: nat)
    ensures c >= 32
  {
    Max(32, NextPow2(n) / 8)
  }

  /** The padded length, with the cap on the message length lifted. */
  function Bucket(n: nat): nat
    requires n >= 1
  {
    if n <= 32 then 32 else RoundUp(n, Chunk(n))
  }

  function CalcPaddedLen(n: nat): Result<nat> {
    if n == 0 then Err(Error.Padding("message too short"))
    else if n > MAX_MESSAGE_LEN then Err(Error.Padding("message too long"))
    else Ok(Bucket(n))
  }

  // ---- The arithmetic of buckets ----

  lemma {:induction false} NextPow2Bounds(n: nat)
    requires n >= 1
    ensures IsPow2(NextPow2(n)) && n <= NextPow2(n) < 2 * n
  {
    if n > 1 {
      NextPow2Bounds((n + 1) / 2);
      assert 2 * NextPow2((n + 1) / 2) / 2 == NextPow2((n + 1) / 2);
    }
  }

  /** The power of two between `n` and `2n` is unique. */
  lemma {:induction false} NextPow2Unique(n: nat, p: nat)
    requires IsPow2(p) && n <= p < 2 * n
    ensures NextPow2(n) == p
    decreases p
  {
    if p > 1 {
      NextPow2Unique((n + 1) / 2, p / 2);
    }
  }

  lemma {:induction false} Pow2Doubles(p: nat, q: nat)
    requires IsPow2(p) && IsPow2(q) && p < q
    ensures 2 * p <= q
    decreases q
  {
    if p > 1 {
      Pow2Doubles(p / 2, q / 2);
    }
  }

  /** `b` is the least multiple of `c` from `n` on. */
  lemma RoundUpExactly(n: nat, c: nat, q: nat)
    requires c >= 1 && n <= q * c < n + c
    ensures RoundUp(n, c) == q * c
  {
    var m := n + c - 1;
    var r := m - q * c;
    assert m == q * c + r && 0 <= r < c;
    QuotientUnique(m, c, q, r);
  }

  lemma QuotientUnique(m: nat, c: nat, q: nat, r: nat)
    requires m == q * c + r && r < c
    ensures m / c == q
  {
    DivideBack(m, c);
    MultiplesApart(q, m / c, c);
    MultiplesApart(m / c, q, c);
  }

  lemma DivideBack(m: nat, c: nat)
    requires c >= 1
    ensures m / c * c <= m < m / c * c + c
  {
  }

  lemma {:induction false} MultiplesApart(p: nat, q: nat, c: nat)
    ensures p < q ==> p * c + c <= q * c
    decreases q
  {
    if p < q {
      MultiplesApart(p, q - 1, c);
      assert q * c == (q - 1) * c + c;
    }
  }

  lemma RoundUpBounds(n: nat, c: nat) returns (q: nat)
    requires c >= 1
    ensures RoundUp(n, c) == q * c && n <= q * c < n + c
  {
    q := (n + c - 1) / c;
    DivideBack(n + c - 1, c);
  }

  lemma RoundUpMonotone(m: nat, n: nat, c: nat)
    requires c >= 1 && m <= n
    ensures RoundUp(m, c) <= RoundUp(n, c)
  {
    var p := RoundUpBounds(m, c);
    var q := RoundUpBounds(n, c);
    NearestInOrder(m, n, c, p, q);
  }

  lemma NearestInOrder(m: nat, n: nat, c: nat, p: nat, q: nat)
    requires m <= n && p * c < m + c && n <= q * c
    ensures p * c <= q * c
  {
    MultiplesApart(p, q, c);
    MultiplesApart(q, p, c);
  }

  /** Powers of two from 64 on are whole chunks. */
  lemma ChunksFill(n: nat) returns (q: nat)
    requires n > 32
    ensures NextPow2(n) == q * Chunk(n)
  {
    NextPow2Bounds(n);
    var p := NextPow2(n);
    if p < 256 {
      SmallPowers(p);
      q := p / 32;
    } else {
      LargePowers(p);
      q := 8;
    }
  }

  lemma SmallPowers(p: nat)
    requires IsPow2(p) && 32 < p < 256
    ensures p == 64 || p == 128
  {
    assert IsPow2(32) && IsPow2(64) && IsPow2(128) && IsPow2(256) by {
      assert IsPow2(4) && IsPow2(16);
    }
    Pow2Doubles(32, p);
    Pow2Doubles(p, 256);
    if 64 < p {
      Pow2Doubles(64, p);
    }
  }

  lemma LargePowers(p: nat)
    requires IsPow2(p) && p >= 256
    ensures p % 8 == 0
  {
    assert IsPow2(p / 2) && p == 2 * (p / 2);
    assert IsPow2(p / 2 / 2) && p / 2 == 2 * (p / 2 / 2);
    assert p / 2 / 2 == 2 * (p / 2 / 2 / 2);
  }

  /** A message fits its bucket, with little waste, and the bucket fits the next power of two. */
  lemma BucketBounds(n: nat)
    requires n >= 1
    ensures n <= Bucket(n) < n + Max(32, n / 4)
    ensures n > 32 ==> Bucket(n) <= NextPow2(n)
  {
    if n > 32 {
      var c := Chunk(n);
      var q := RoundUpBounds(n, c);
      var t := ChunksFill(n);
      NextPow2Bounds(n);
      NearestInOrder(n, NextPow2(n), c, q, t);
      ChunkSmall(n);
    }
  }

  lemma ChunkSmall(n: nat)
    requires n > 32
    ensures Chunk(n) <= Max(32, n / 4)
  {
    NextPow2Bounds(n);
  }

  /**
   The bucket of a message that fits the power of two `p`: 32 up to that length, then the next
   multiple of 32, or of an eighth of `p` once that is more.
   */
  lemma BucketExactly(n: nat, p: nat, b: nat)
    requires IsPow2(p) && n <= p < 2 * n
    ensures b == Bucket(n) <==>
            if n <= 32 then b == 32
            else
              var c := if p <= 256 then 32 else p / 8;
              b % c == 0 && n <= b < n + c
  {
    if n > 32 {
      NextPow2Unique(n, p);
      ChunkExactly(p);
      RoundUpMeans(n, if p <= 256 then 32 else p / 8, b);
    }
  }

  lemma RoundUpMeans(n: nat, c: nat, b: nat)
    requires c >= 1
    ensures b == RoundUp(n, c) <==> b % c == 0 && n <= b < n + c
  {
    var q := RoundUpBounds(n, c);
    MultipleOf(q, c);
    if b % c == 0 && n <= b < n + c {
      RoundUpExactly(n, c, b / c);
    }
  }

  lemma ChunkExactly(p: nat)
    requires IsPow2(p) && p > 32
    ensures Max(32, p / 8) == if p <= 256 then 32 else p / 8
  {
    if p > 256 {
      assert IsPow2(256) by {
        assert IsPow2(4) && IsPow2(16) && IsPow2(64);
      }
      Pow2Doubles(256, p);
    }
  }

  lemma MultipleOf(q: nat, c: nat)
    requires c >= 1
    ensures q * c % c == 0
  {
    QuotientUnique(q * c, c, q, 0);
    assert q * c % c == q * c - q * c / c * c;
  }

  lemma BucketMonotone(m: nat, n: nat)
    requires 1 <= m <= n
    ensures Bucket(m) <= Bucket(n)
  {
    BucketBounds(m);
    BucketBounds(n);
    if m > 32 {
      NextPow2Bounds(m);
      NextPow2Bounds(n);
      if NextPow2(m) == NextPow2(n) {
        RoundUpMonotone(m, n, Chunk(m));
      } else if NextPow2(m) < NextPow2(n) {
        Pow2Doubles(NextPow2(m), NextPow2(n));
      } else {
        Pow2Doubles(NextPow2(n), NextPow2(m));
      }
    }
  }

  /** Padding to a bucket stays in the bucket. */
  lemma BucketIdempotent(n: nat)
    requires n >= 1
    ensures Bucket(Bucket(n)) == Bucket(n)
  {
    BucketBounds(n);
    if n > 32 {
      NextPow2Bounds(n);
      NextPow2Unique(Bucket(n), NextPow2(n));
      var q := RoundUpBounds(n, Chunk(n));
      RoundUpExactly(Bucket(n), Chunk(n), q);
    }
  }

  // ---- The threshold that matters for gift wraps ----

  lemma PowersOfTwo()
    ensures IsPow2(65536)
  {
    assert IsPow2(4);
    assert IsPow2(16);
    assert IsPow2(64);
    assert IsPow2(256);
    assert IsPow2(1024);
    assert IsPow2(4096);
    assert IsPow2(16384);
  }

  lemma ChunkAround40960(n: nat)
    requires 32768 < n <= 65536
    ensures Chunk(n) == 8192
  {
    PowersOfTwo();
    NextPow2Unique(n, 65536);
  }

  lemma BucketsAround40960()
    ensures Bucket(40960) == 40960 && Bucket(40961) == 49152
  {
    ChunkAround40960(40960);
    ChunkAround40960(40961);
    RoundUpExactly(40960, 8192, 5);
    RoundUpExactly(40961, 8192, 6);
  }

  /** 40960 is the end of a bucket; the next one ends at 49152. */
  lemma BucketStep(n: nat)
    requires n >= 1
    ensures n <= 40960 ==> Bucket(n) <= 40960
    ensures n > 40960 ==> Bucket(n) >= 49152
  {
    BucketsAround40960();
    if n <= 40960 {
      BucketMonotone(n, 40960);
    } else {
      BucketMonotone(40961, n);
    }
  }

  // ---- Padding and unpadding messages ----

  /** `len(2B BE) || message || zero-pad` */
  function Padded(message: Bytes): Result<Bytes> {
    var n :- CalcPaddedLen(|message|);
    BucketBounds(|message|);
    Ok([|message| / 0x100, |message| % 0x100] + message + Repeat(0, n - |message|))
  }

  method CopyInto(dst: array<u8>, at: nat, src: Bytes)
    requires at + |src| <= dst.Length
    modifies dst
    ensures dst[..at] == old(dst[..at])
    ensures dst[at..at + |src|] == src
    ensures dst[at + |src|..] == old(dst[at + |src|..])
  {
    for i := 0 to |src|
      invariant dst[..at] == old(dst[..at])
      invariant dst[at..at + i] == src[..i]
      invariant dst[at + |src|..] == old(dst[at + |src|..])
    {
      dst[at + i] := src[i];
    }
  }

  lemma InThreeParts(s: Bytes, a: Bytes, m: Bytes, z: Bytes)
    requires |s| == |a| + |m| + |z|
    requires s[..|a|] == a && s[|a|..|a| + |m|] == m && s[|a| + |m|..] == z
    ensures s == a + m + z
  {
  }

  /** A zeroed buffer with the length in front. */
  method Blank(len: nat, paddedLen: nat) returns (out: array<u8>)
    requires len <= paddedLen && len <= MAX_MESSAGE_LEN
    ensures fresh(out) && out.Length == 2 + paddedLen
    ensures out[..2] == [len / 0x100, len % 0x100]
    ensures out[2 + len..] == Repeat(0, paddedLen - len)
  {
    out := new u8[2 + paddedLen](_ => 0);
    out[0] := len / 0x100 % 0x100;
    out[1] := len % 0x100;
  }

  method Pad(message: Bytes) returns (r: Result<Bytes>)
    ensures r == Padded(message)
  {
    var len := |message|;
    if len == 0 {
      return Err(Error.Padding("message too short"));
    }
    if len > MAX_MESSAGE_LEN {
      return Err(Error.Padding("message too long"));
    }
    var paddedLen := CalcPaddedLen(len).value; // both of its errors are excluded above
    BucketBounds(len);
    var out := Blank(len, paddedLen);
    CopyInto(out, 2, message);
    InThreeParts(out[..], [len / 0x100, len % 0x100], message, Repeat(0, paddedLen - len));
    return Ok(out[..]);
  }

  /** The big-endian length in front. */
  function Header(padded: Bytes): nat
    requires |padded| >= 2
  {
    padded[0] as int * 0x100 + padded[1] as int
  }

  function Unpad(padded: Bytes): Result<Bytes> {
    if |padded| < 2 + MIN_PADDED_LEN then Err(Error.Padding("padded message too short"))
    else
      var len := Header(padded);
      if len == 0 || len > MAX_MESSAGE_LEN then Err(Error.Padding("invalid message length"))
      else
        var expected :- CalcPaddedLen(len);
        BucketBounds(len);
        if |padded| != 2 + expected then Err(Error.Padding("invalid padding"))
        else Ok(padded[2..2 + len])
  }

  ghost predicate Frames(padded: Bytes, m: Bytes) {
    && 1 <= |m| <= MAX_MESSAGE_LEN
    && |padded| == 2 + Bucket(|m|)
    && padded[..2] == [|m| / 0x100, |m| % 0x100]
    && m <= padded[2..]
  }

  /** What unpads to `m`: its length, its bytes, and the right number of bytes of anything. */
  lemma UnpadExactly(padded: Bytes, m: Bytes)
    ensures Unpad(padded) == Ok(m) <==> Frames(padded, m)
  {
    if Frames(padded, m) {
      FramedUnpads(padded, m);
    }
    if Unpad(padded) == Ok(m) {
      UnpadsFramed(padded, m);
    }
  }

  lemma FramedUnpads(padded: Bytes, m: Bytes)
    requires Frames(padded, m)
    ensures Unpad(padded) == Ok(m)
  {
    BucketBounds(|m|);
    BucketAtLeast(|m|);
    assert padded[0] == padded[..2][0] && padded[1] == padded[..2][1];
    assert Header(padded) == |m|;
    assert padded[2..2 + |m|] == m;
  }

  lemma UnpadsFramed(padded: Bytes, m: Bytes)
    requires Unpad(padded) == Ok(m)
    ensures Frames(padded, m)
  {
    var len := Header(padded);
    BucketBounds(len);
    assert padded[..2] == [padded[0], padded[1]];
    assert |m| == len && m == padded[2..][..len];
    assert Header(padded) / 0x100 == padded[0] && Header(padded) % 0x100 == padded[1];
  }

  /** Why a frame is refused. */
  lemma UnpadErrors(padded: Bytes)
    ensures |padded| < 34 <==> Unpad(padded) == Err(Error.Padding("padded message too short"))
    ensures |padded| >= 34 ==>
              (Unpad(padded) == Err(Error.Padding("invalid message length")) <==> padded[0] == 0 && padded[1] == 0)
    ensures |padded| >= 34 && !(padded[0] == 0 && padded[1] == 0) ==>
              (Unpad(padded) == Err(Error.Padding("invalid padding")) <==>
               |padded| != 2 + Bucket(256 * (padded[0] as int) + padded[1]))
  {
    if |padded| >= 34 && Header(padded) > 0 {
      BucketBounds(Header(padded));
    }
  }

  /** The longest message fills the largest bucket exactly. */
  lemma BucketCapped(n: nat)
    requires 1 <= n <= MAX_MESSAGE_LEN
    ensures Bucket(n) <= 65536
  {
    PowersOfTwo();
    NextPow2Unique(65536, 65536);
    RoundUpExactly(65536, 8192, 8);
    BucketMonotone(n, 65536);
  }

  lemma BucketAtLeast(n: nat)
    requires n >= 1
    ensures Bucket(n) >= 32
  {
    BucketBounds(n);
  }

  /** Every byte of a padded message: the length in two bytes, the message, and zeros up to the bucket. */
  lemma PaddedExactly(m: Bytes, t: Bytes)
    ensures Padded(m) == Ok(t) <==>
            && 1 <= |m| <= 65535 && |t| == 2 + Bucket(|m|)
            && t[0] == |m| / 256 && t[1] == |m| % 256
            && (forall i :: 0 <= i < |m| ==> t[2 + i] == m[i])
            && (forall i :: 2 + |m| <= i < |t| ==> t[i] == 0)
    ensures m == [] ==> Padded(m) == Err(Error.Padding("message too short"))
    ensures |m| > 65535 ==> Padded(m) == Err(Error.Padding("message too long"))
  {
    if 1 <= |m| <= 65535 {
      BucketBounds(|m|);
      var z := Repeat(0, Bucket(|m|) - |m|);
      var p: Bytes := [|m| / 256, |m| % 256] + m + z;
      assert Padded(m) == Ok(p);
      if |t| == |p| && t[0] == p[0] && t[1] == p[1] && (forall i :: 0 <= i < |m| ==> t[2 + i] == m[i])
         && (forall i :: 2 + |m| <= i < |t| ==> t[i] == 0) {
        forall i | 0 <= i < |t|
          ensures t[i] == p[i]
        {
          if 2 <= i < 2 + |m| {
            assert t[2 + (i - 2)] == m[i - 2];
          }
        }
        assert t == p;
      }
    }
  }

  /** Padding succeeds for messages of 1 to 65535 bytes, and unpadding undoes it. */
  lemma UnpadInvertsPad(m: Bytes)
    ensures Padded(m).Ok? <==> 1 <= |m| <= MAX_MESSAGE_LEN
    ensures Padded(m).Ok? ==> |Padded(m).value| == 2 + Bucket(|m|) && Unpad(Padded(m).value) == Ok(m)
  {
  }
}
