/**
 Where the five generator words come from: BIP-173 ("Checksum design") defines the checksum by the
 polynomial x^6 + {29}x^5 + {22}x^4 + {20}x^3 + {21}x^2 + {29}x + {18} over the field of 32 elements,
 in which 2^5 = 2^3 + 1. Shifting out the symbol `t` is subtracting `t` times that polynomial.
 */
module CheckPolynomial {
  import opened ShiftRegister
  import opened Bech32Checksum

  /** Twice `x`, reduced by 2^5 = 2^3 + 1. */
  function Twice(x: bv32): bv32 {
    if x & 16 == 16 then ((x << 1) & 31) ^ 9 else x << 1
  }

  /** `t` times `x`, a symbol times a symbol. */
  function Times(t: bv32, x: bv32): bv32 {
    (if t & 1 == 1 then x else 0)
    ^ (if t & 2 == 2 then Twice(x) else 0)
    ^ (if t & 4 == 4 then Twice(Twice(x)) else 0)
    ^ (if t & 8 == 8 then Twice(Twice(Twice(x))) else 0)
    ^ (if t & 16 == 16 then Twice(Twice(Twice(Twice(x)))) else 0)
  }

  /** The feedback of a symbol is that symbol times the six lower coefficients. */
  lemma FeedbackIsMultiple(t: bv32)
    requires Symbol(t)
    ensures Digit(Feedback(t), 0) == Times(t, 29)
    ensures Digit(Feedback(t), 1) == Times(t, 22)
    ensures Digit(Feedback(t), 2) == Times(t, 20)
    ensures Digit(Feedback(t), 3) == Times(t, 21)
    ensures Digit(Feedback(t), 4) == Times(t, 29)
    ensures Digit(Feedback(t), 5) == Times(t, 18)
  {
  }
}
