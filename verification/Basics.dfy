/** Shared vocabulary: machine integers, byte strings, and the crate's error type. */
module Basics {
  type u8 = x: int | 0 <= x < 0x100
  type u32 = x: int | 0 <= x < 0x1_0000_0000
  type u64 = x: int | 0 <= x < 0x1_0000_0000_0000_0000
  type i64 = x: int | -0x8000_0000_0000_0000 <= x < 0x8000_0000_0000_0000

  type Bytes = seq<u8>

  /** A Rust string, as its UTF-8 bytes. Every length in this project is a length in bytes. */
  type Text = seq<u8>

  datatype Option<+T> = None | Some(value: T)

  /** The crate's error enumeration (src/error.rs); the payload is the static message. */
  datatype Error =
    | InvalidLength(what: string)
    | Secp(what: string)
    | Decrypt(what: string)
    | Padding(what: string)
    | Decode(what: string)
    | Malformed(what: string)

  datatype Result<+T> = Ok(value: T) | Err(error: Error) {
    predicate IsFailure() {
      Err?
    }

    function PropagateFailure<U>(): Result<U>
      requires Err?
    {
      Err(error)
    }

    function Extract(): T
      requires Ok?
    {
      value
    }
  }

  /** The bytes of an ASCII literal. */
  function Lit(s: string): (t: Text)
    ensures |t| == |s|
    ensures forall i :: 0 <= i < |s| ==> t[i] == s[i] as int % 0x100
  {
    seq(|s|, i requires 0 <= i < |s| => s[i] as int % 0x100)
  }

  /** ASCII lowercasing. */
  function LowerByte(c: u8): u8 {
    if 65 <= c <= 90 then c + 32 else c
  }

  function Lower(s: Text): (t: Text)
    ensures |t| == |s|
  {
    seq(|s|, i requires 0 <= i < |s| => LowerByte(s[i]))
  }

  predicate NoUppercase(s: Text) {
    forall i :: 0 <= i < |s| ==> !(65 <= s[i] <= 90)
  }

  lemma LowerFixes(s: Text)
    ensures NoUppercase(s) <==> Lower(s) == s
    ensures NoUppercase(Lower(s))
  {
  }

  function Repeat<T>(x: T, n: nat): (s: seq<T>)
    ensures |s| == n
    ensures forall i :: 0 <= i < n ==> s[i] == x
  {
    seq(n, _ => x)
  }

  lemma ConcatAssociates<T>(a: seq<T>, b: seq<T>, c: seq<T>)
    ensures (a + b) + c == a + (b + c)
  {
  }

  /** Everything `f` makes of the elements, in order. */
  function FlatMap<T, U>(f: T -> seq<U>, s: seq<T>): seq<U> {
    if s == [] then [] else FlatMap(f, s[..|s| - 1]) + f(s[|s| - 1])
  }

  lemma FlatMapSnoc<T, U>(f: T -> seq<U>, s: seq<T>, x: T)
    ensures FlatMap(f, s + [x]) == FlatMap(f, s) + f(x)
  {
  }

  lemma {:induction false} FlatMapAppend<T, U>(f: T -> seq<U>, a: seq<T>, b: seq<T>)
    ensures FlatMap(f, a + b) == FlatMap(f, a) + FlatMap(f, b)
  {
    if b == [] {
      assert a + b == a;
    } else {
      var m := |b| - 1;
      FlatMapAppend(f, a, b[..m]);
      FlatMapSnoc(f, a + b[..m], b[m]);
      assert a + b == (a + b[..m]) + [b[m]];
      ConcatAssociates(FlatMap(f, a), FlatMap(f, b[..m]), f(b[m]));
    }
  }
}
