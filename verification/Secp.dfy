/**
 Key agreement (src/crypto/secp.rs) over an abstract group: x-only keys are lifted to one of two
 opposite points, and only x coordinates are ever shared.
 */
module Secp {
  import opened Basics

  /** A commutative group, a base point of known order, x coordinates and the even-y lift. */
  datatype Curve<!P(!new)> = Curve(
    add: (P, P) -> P, neg: P -> P, zero: P, base: P, order: nat,
    xOf: P -> Bytes, liftEven: Bytes -> Option<P>)
  {
    /** `k` times `p`. */
    function Mul(k: nat, p: P): P {
      if k == 0 then zero else add(Mul(k - 1, p), p)
    }

    ghost predicate IsGroup() {
      && (forall a, b, c :: add(add(a, b), c) == add(a, add(b, c)))
      && (forall a, b :: add(a, b) == add(b, a))
      && (forall a :: add(a, zero) == a)
      && (forall a :: add(a, neg(a)) == zero)
    }

    ghost predicate Lawful() {
      && IsGroup()
      && Lifts()
      && (forall k :: 0 < k < order ==> Mul(k, base) != zero)
    }

    /** An x coordinate belongs to two opposite points, and the lift picks one of them. */
    ghost predicate Lifts() {
      && (forall p :: |xOf(p)| == 32)
      && (forall p :: xOf(neg(p)) == xOf(p))
      && (forall p {:trigger liftEven(xOf(p))} :: p != zero ==>
            liftEven(xOf(p)) == Some(p) || liftEven(xOf(p)) == Some(neg(p)))
    }

    /** `SecretKey::from_slice`: a scalar between 1 and the order. */
    function Scalar(secret: Bytes): (r: Option<nat>)
      ensures r.Some? ==> 0 < r.value < order
    {
      if |secret| == 32 && 0 < BigEndian(secret) < order then Some(BigEndian(secret)) else None
    }

    function XonlyPublicKey(secret: Bytes): Result<Bytes> {
      match Scalar(secret)
      case None => Err(Error.Secp("invalid secret key"))
      case Some(k) => Ok(xOf(Mul(k, base)))
    }

    function PeerPublicKey(peer: Bytes): Result<P> {
      match liftEven(peer)
      case None => Err(Error.Secp("invalid peer public key"))
      case Some(p) => Ok(p)
    }

    function EcdhX(secret: Bytes, peer: Bytes): Result<Bytes> {
      match Scalar(secret)
      case None => Err(Error.Secp("invalid secret key"))
      case Some(k) =>
        var p :- PeerPublicKey(peer);
        Ok(xOf(Mul(k, p)))
    }

    /** What the secrets and the keys of others are good for. */
    lemma KeysExactly(secret: Bytes, peer: Bytes)
      ensures var valid := |secret| == 32 && 0 < BigEndian(secret) < order;
              && (Scalar(secret) == if valid then Some(BigEndian(secret)) else None)
              && (XonlyPublicKey(secret) ==
                  if valid then Ok(xOf(Mul(BigEndian(secret), base))) else Err(Error.Secp("invalid secret key")))
              && (!valid ==> EcdhX(secret, peer) == Err(Error.Secp("invalid secret key")))
              && (valid && liftEven(peer).None? ==> EcdhX(secret, peer) == Err(Error.Secp("invalid peer public key")))
    {
    }

    // ---- Scalar multiplication in a commutative group ----

    lemma {:induction false} MulSum(k: nat, a: P, b: P)
      requires IsGroup()
      ensures Mul(k, add(a, b)) == add(Mul(k, a), Mul(k, b))
    {
      if k > 0 {
        MulSum(k - 1, a, b);
        var s, t := Mul(k - 1, a), Mul(k - 1, b);
        calc {
          add(add(s, t), add(a, b));
          add(s, add(t, add(a, b)));
          { assert add(t, add(a, b)) == add(a, add(t, b)); }
          add(s, add(a, add(t, b)));
          add(add(s, a), add(t, b));
        }
      }
    }

    lemma {:induction false} MulZero(k: nat)
      requires IsGroup()
      ensures Mul(k, zero) == zero
    {
      if k > 0 {
        MulZero(k - 1);
      }
    }

    lemma {:induction false} MulCommutes(j: nat, k: nat, p: P)
      requires IsGroup()
      ensures Mul(j, Mul(k, p)) == Mul(k, Mul(j, p))
    {
      if j == 0 {
        MulZero(k);
      } else {
        MulCommutes(j - 1, k, p);
        MulSum(k, Mul(j - 1, p), p);
      }
    }

    /** `Mul` counts: once is the point itself, and counts add up. */
    lemma {:induction false} MulAdds(j: nat, k: nat, p: P)
      requires IsGroup()
      ensures Mul(1, p) == p && Mul(j + k, p) == add(Mul(j, p), Mul(k, p))
    {
      assert Mul(1, p) == add(Mul(0, p), p);
      assert add(zero, p) == add(p, zero);
      if k > 0 {
        MulAdds(j, k - 1, p);
      }
    }

    lemma NegUnique(a: P, b: P)
      requires IsGroup() && add(a, b) == zero
      ensures b == neg(a)
    {
      calc {
        b;
        add(b, add(a, neg(a)));
        add(add(b, a), neg(a));
        add(neg(a), zero);
        neg(a);
      }
    }

    lemma MulNeg(k: nat, p: P)
      requires IsGroup()
      ensures Mul(k, neg(p)) == neg(Mul(k, p))
    {
      MulSum(k, p, neg(p));
      MulZero(k);
      NegUnique(Mul(k, p), Mul(k, neg(p)));
    }

    /** Whichever of the two opposite points the lift picks, the shared x coordinate is the same. */
    lemma LiftedX(secret: Bytes, p: P)
      requires Lifts() && p != zero && Scalar(secret).Some?
      requires Mul(Scalar(secret).value, neg(p)) == neg(Mul(Scalar(secret).value, p))
      ensures EcdhX(secret, xOf(p)) == Ok(xOf(Mul(Scalar(secret).value, p)))
    {
    }

    /** What of the group laws key agreement needs. */
    ghost predicate Scales() {
      && (forall k, p :: Mul(k, neg(p)) == neg(Mul(k, p)))
      && (forall j, k, p :: Mul(j, Mul(k, p)) == Mul(k, Mul(j, p)))
    }

    lemma GroupScales()
      requires IsGroup()
      ensures Scales()
    {
      forall k: nat, p
        ensures Mul(k, neg(p)) == neg(Mul(k, p))
      {
        MulNeg(k, p);
      }
      forall j: nat, k: nat, p
        ensures Mul(j, Mul(k, p)) == Mul(k, Mul(j, p))
      {
        MulCommutes(j, k, p);
      }
    }

    lemma SharedX(a: Bytes, b: Bytes)
      requires Scales() && Lifts() && Scalar(a).Some? && Scalar(b).Some?
      requires Mul(Scalar(a).value, base) != zero && Mul(Scalar(b).value, base) != zero
      ensures XonlyPublicKey(a).Ok? && XonlyPublicKey(b).Ok?
      ensures EcdhX(a, XonlyPublicKey(b).value).Ok?
      ensures EcdhX(a, XonlyPublicKey(b).value) == EcdhX(b, XonlyPublicKey(a).value)
    {
      LiftedX(a, Mul(Scalar(b).value, base));
      LiftedX(b, Mul(Scalar(a).value, base));
    }

    /** What is shared: the x coordinate of both secrets' multiple of the base point. */
    lemma SharedXIs(a: Bytes, b: Bytes)
      requires Lawful() && Scalar(a).Some? && Scalar(b).Some?
      ensures EcdhX(a, xOf(Mul(Scalar(b).value, base))) == Ok(xOf(Mul(Scalar(a).value, Mul(Scalar(b).value, base))))
    {
      GroupScales();
      SharedPoint(a, b);
    }

    lemma SharedPoint(a: Bytes, b: Bytes)
      requires Scales() && Lifts() && Scalar(a).Some? && Scalar(b).Some? && Mul(Scalar(b).value, base) != zero
      ensures EcdhX(a, xOf(Mul(Scalar(b).value, base))) == Ok(xOf(Mul(Scalar(a).value, Mul(Scalar(b).value, base))))
    {
      LiftedX(a, Mul(Scalar(b).value, base));
    }

    /** Both sides of an ECDH agree, whatever the parities of the two public points. */
    lemma EcdhSymmetric(a: Bytes, b: Bytes)
      requires Lawful() && XonlyPublicKey(a).Ok? && XonlyPublicKey(b).Ok?
      ensures EcdhX(a, XonlyPublicKey(b).value).Ok?
      ensures EcdhX(a, XonlyPublicKey(b).value) == EcdhX(b, XonlyPublicKey(a).value)
    {
      GroupScales();
      SharedX(a, b);
    }
  }

  /** The first byte weighs most. */
  lemma {:induction false} BigEndianWeighs(x: u8, rest: Bytes)
    ensures BigEndian([x] + rest) == x * Power256(|rest|) + BigEndian(rest)
  {
    if rest == [] {
      assert [x] + rest == [x];
    } else {
      var front, last := rest[..|rest| - 1], rest[|rest| - 1];
      assert [x] + rest == ([x] + front) + [last];
      BigEndianWeighs(x, front);
      assert ([x] + rest)[..|rest|] == [x] + front;
    }
  }

  function Power256(n: nat): nat {
    if n == 0 then 1 else 256 * Power256(n - 1)
  }

  function BigEndian(b: Bytes): nat {
    if b == [] then 0 else 256 * BigEndian(b[..|b| - 1]) + b[|b| - 1]
  }
}
