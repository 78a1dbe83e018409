/** Power-of-two arithmetic by shifts and masks: _ACPI_DIV, _ACPI_MUL, _ACPI_MOD,
    ACPI_ROUND_DOWN, ACPI_ROUND_UP, ACPI_ROUND_UP_TO and the ACPI_MASK_BITS macros, on words
    of any size `w` (32 and 64 are the sizes of ACPI_SIZE). */
module Rounding {
  import opened Bits

  /** The mask `~(boundary - 1)` of a boundary of 2^k. */
  function BoundaryMask(k: nat, w: nat): nat { Not(Pow2(k) - 1, w) }

  function RoundDown(v: nat, k: nat, w: nat): nat { And(v, BoundaryMask(k, w)) }

  /** The sum wraps as the word does. */
  function RoundUp(v: nat, k: nat, w: nat): nat {
    And(Low(v + (Pow2(k) - 1), w), BoundaryMask(k, w))
  }

  /** ACPI_ROUND_UP_TO, for any boundary: how many boundaries are needed. */
  function RoundUpTo(v: nat, boundary: nat, w: nat): nat
    requires boundary > 0
  {
    Low(v + (boundary - 1), w) / boundary
  }

  predicate Multiple(x: nat, m: nat)
    requires m > 0
  {
    x % m == 0
  }

  lemma MultipleOf(q: nat, m: nat)
    requires m > 0
    ensures Multiple(q * m, m) && q * m / m == q
  {
    DivModUnique(q * m, m, q, 0);
  }

  lemma DivModIdentity(v: nat, m: nat)
    requires m > 0
    ensures v == v / m * m + v % m
  {
  }

  /** Two different multiples are at least the boundary apart. */
  lemma MultiplesApart(x: nat, y: nat, m: nat)
    requires m > 0 && Multiple(x, m) && Multiple(y, m) && x < y
    ensures x + m <= y
  {
    DivModIdentity(x, m);
    DivModIdentity(y, m);
    var a, b := x / m, y / m;
    assert (b - a) * m == y - x;
    MulAtLeast(b - a, m);
  }

  lemma MaskIsShift(v: nat, k: nat, w: nat)
    requires k <= w && v < Pow2(w)
    ensures And(v, BoundaryMask(k, w)) == Shl(Shr(v, k), k)
  {
    var r := And(v, BoundaryMask(k, w));
    OnesBits(k);
    NotBits(Ones(k), w);
    AndBits(v, BoundaryMask(k, w));
    HighBits(v, w);
    ShrBits(v, k);
    ShlBits(Shr(v, k), k);
    forall i: nat ensures Bit(r, i) <==> Bit(Shl(Shr(v, k), k), i) {}
    SameBits(r, Shl(Shr(v, k), k));
  }

  /** Masking with the boundary mask removes the remainder. */
  lemma MaskRemovesRemainder(v: nat, k: nat, w: nat)
    requires k <= w && v < Pow2(w)
    ensures And(v, BoundaryMask(k, w)) == v - v % Pow2(k) == v / Pow2(k) * Pow2(k)
  {
    MaskIsShift(v, k, w);
    ShrIsDiv(v, k);
    ShlIsMul(Shr(v, k), k);
    DivModIdentity(v, Pow2(k));
  }

  /** ACPI_ROUND_DOWN yields the greatest multiple of the boundary not above the value. */
  lemma RoundDownIsGreatest(v: nat, k: nat, w: nat)
    requires k <= w && v < Pow2(w)
    ensures Multiple(RoundDown(v, k, w), Pow2(k)) && RoundDown(v, k, w) <= v
    ensures forall x: nat :: x <= v && Multiple(x, Pow2(k)) ==> x <= RoundDown(v, k, w)
  {
    var m := Pow2(k);
    MaskRemovesRemainder(v, k, w);
    MultipleOf(v / m, m);
    forall x: nat | x <= v && Multiple(x, m) ensures x <= RoundDown(v, k, w) {
      if x > RoundDown(v, k, w) {
        MultiplesApart(RoundDown(v, k, w), x, m);
      }
    }
  }

  /** ACPI_ROUND_UP as arithmetic; it is zero when the sum wraps. */
  lemma RoundUpValue(v: nat, k: nat, w: nat)
    requires k <= w && v < Pow2(w)
    ensures RoundUp(v, k, w)
         == if v + Pow2(k) - 1 < Pow2(w) then (v + Pow2(k) - 1) / Pow2(k) * Pow2(k) else 0
  {
    var m, sum := Pow2(k), v + (Pow2(k) - 1);
    if sum < Pow2(w) {
      LowIdentity(sum, w);
      MaskRemovesRemainder(sum, k, w);
    } else {
      Pow2Monotone(k, w);
      DivModUnique(sum, Pow2(w), 1, sum - Pow2(w));
      MaskRemovesRemainder(Low(sum, w), k, w);
      DivModUnique(Low(sum, w), m, 0, Low(sum, w));
    }
  }

  lemma CeilingIsLeast(v: nat, m: nat)
    requires m > 0
    ensures var c := (v + m - 1) / m * m;
            && Multiple(c, m) && v <= c
            && forall x: nat :: v <= x && Multiple(x, m) ==> c <= x
  {
    var q := (v + m - 1) / m;
    DivModIdentity(v + m - 1, m);
    MultipleOf(q, m);
    forall x: nat | v <= x && Multiple(x, m) ensures q * m <= x {
      if x < q * m {
        MultiplesApart(x, q * m, m);
      }
    }
  }

  /** ACPI_ROUND_UP yields the least multiple of the boundary not below the value exactly when
      the sum does not wrap. */
  lemma RoundUpIsLeast(v: nat, k: nat, w: nat)
    requires k <= w && v < Pow2(w)
    ensures (&& Multiple(RoundUp(v, k, w), Pow2(k)) && v <= RoundUp(v, k, w)
             && forall x: nat :: v <= x && Multiple(x, Pow2(k)) ==> RoundUp(v, k, w) <= x)
       <==> v + Pow2(k) - 1 < Pow2(w)
  {
    RoundUpValue(v, k, w);
    CeilingIsLeast(v, Pow2(k));
    if v + Pow2(k) - 1 >= Pow2(w) {
      Pow2Monotone(k, w);
      assert RoundUp(v, k, w) < v;
    }
  }

  /** The word size is a multiple of the boundary, so there is room above every multiple. */
  lemma MultipleFits(x: nat, k: nat, w: nat)
    requires k <= w && x < Pow2(w) && Multiple(x, Pow2(k))
    ensures x + Pow2(k) <= Pow2(w)
  {
    Pow2Add(w - k, k);
    MultipleOf(Pow2(w - k), Pow2(k));
    MultiplesApart(x, Pow2(w), Pow2(k));
  }

  /** Either rounding leaves a multiple alone. */
  lemma RoundingOfMultiple(x: nat, k: nat, w: nat)
    requires k <= w && x < Pow2(w) && Multiple(x, Pow2(k))
    ensures RoundDown(x, k, w) == x == RoundUp(x, k, w)
  {
    RoundDownIsGreatest(x, k, w);
    MultipleFits(x, k, w);
    RoundUpIsLeast(x, k, w);
  }

  /** Rounding twice changes nothing more, wrapped or not. */
  lemma RoundingIdempotent(v: nat, k: nat, w: nat)
    requires k <= w && v < Pow2(w)
    ensures RoundDown(RoundDown(v, k, w), k, w) == RoundDown(v, k, w)
    ensures RoundUp(RoundUp(v, k, w), k, w) == RoundUp(v, k, w)
  {
    RoundDownIsGreatest(v, k, w);
    RoundingOfMultiple(RoundDown(v, k, w), k, w);
    var sum := Low(v + (Pow2(k) - 1), w);
    RoundDownIsGreatest(sum, k, w);
    RoundingOfMultiple(RoundDown(sum, k, w), k, w);
  }

  /** ACPI_ROUND_UP agrees with the division form on every power-of-two boundary, wrapped or
      not. */
  lemma RoundUpAgreesWithRoundUpTo(v: nat, k: nat, w: nat)
    requires k <= w && v < Pow2(w)
    ensures RoundUp(v, k, w) == RoundUpTo(v, Pow2(k), w) * Pow2(k)
  {
    MaskRemovesRemainder(Low(v + (Pow2(k) - 1), w), k, w);
  }

  /** ACPI_ROUND_UP computes in ACPI_SIZE, ACPI_ROUND_UP_TO in the type of its operands. For a
      value of a narrower type, of `u` bits, they agree exactly when the sum does not wrap in
      the narrower type. */
  lemma NarrowOperandsAgree(v: nat, k: nat, u: nat, w: nat)
    requires k <= u < w && v < Pow2(u)
    ensures RoundUp(v, k, w) == RoundUpTo(v, Pow2(k), u) * Pow2(k) <==> v + Pow2(k) - 1 < Pow2(u)
  {
    var m, sum := Pow2(k), v + (Pow2(k) - 1);
    Pow2Monotone(k, u);
    Pow2Monotone(u + 1, w);
    assert Pow2(u + 1) == 2 * Pow2(u);
    RoundUpIsLeast(v, k, w);
    if sum < Pow2(u) {
      LowIdentity(sum, u);
      RoundUpValue(v, k, w);
    } else {
      DivModUnique(sum, Pow2(u), 1, sum - Pow2(u));
      DivModUnique(sum - Pow2(u), m, 0, sum - Pow2(u));
    }
  }

  /** The greatest 32-bit value, rounded up to 2 on a 64-bit host: one macro gives 2^32, the
      other 0. */
  lemma NarrowOperandsDisagree()
    ensures RoundUp(0xFFFF_FFFF, 1, 64) != RoundUpTo(0xFFFF_FFFF, 2, 32) * 2
  {
    Pow2Values();
    assert Pow2(1) == 2;
    NarrowOperandsAgree(0xFFFF_FFFF, 1, 32, 64);
  }

  // ---- _ACPI_DIV, _ACPI_MUL, _ACPI_MOD ----

  function AcpiDiv(v: nat, k: nat): nat { Low(Shr(v, k), 32) }

  /** The shift is done in the type of the value, of `w` bits, before the conversion. */
  function AcpiMul(v: nat, k: nat, w: nat): nat { Low(Low(Shl(v, k), w), 32) }

  function AcpiMod(v: nat, divisor: nat): nat
    requires divisor > 0
  {
    Low(And(v, divisor - 1), 32)
  }

  lemma LowExact(x: nat, w: nat)
    ensures Low(x, w) == x <==> x < Pow2(w)
  {
    if x < Pow2(w) {
      LowIdentity(x, w);
    }
  }

  /** The macros are division, multiplication and modulus exactly where the 32-bit result does
      not truncate. */
  lemma FastMathExact(v: nat, k: nat, w: nat)
    requires w >= 32
    ensures AcpiDiv(v, k) == v / Pow2(k) <==> v / Pow2(k) < Pow2(32)
    ensures AcpiMul(v, k, w) == v * Pow2(k) <==> v * Pow2(k) < Pow2(32)
    ensures AcpiMod(v, Pow2(k)) == v % Pow2(k) <==> v % Pow2(k) < Pow2(32)
  {
    FastDivExact(v, k);
    FastMulExact(v, k, w);
    FastModExact(v, k);
  }

  lemma FastDivExact(v: nat, k: nat)
    ensures AcpiDiv(v, k) == v / Pow2(k) <==> v / Pow2(k) < Pow2(32)
  {
    ShrIsDiv(v, k);
    LowExact(Shr(v, k), 32);
  }

  lemma FastMulExact(v: nat, k: nat, w: nat)
    requires w >= 32
    ensures AcpiMul(v, k, w) == v * Pow2(k) <==> v * Pow2(k) < Pow2(32)
  {
    ShlIsMul(v, k);
    LowTwice(Shl(v, k), 32, w);
    LowExact(Shl(v, k), 32);
  }

  lemma FastModExact(v: nat, k: nat)
    ensures AcpiMod(v, Pow2(k)) == v % Pow2(k) <==> v % Pow2(k) < Pow2(32)
  {
    AndOnes(v, k);
    LowExact(v % Pow2(k), 32);
  }

  lemma LowTwice(x: nat, a: nat, b: nat)
    requires a <= b
    ensures Low(Low(x, b), a) == Low(x, a)
  {
    LowBits(x, b);
    LowBits(Low(x, b), a);
    LowBits(x, a);
    SameBits(Low(Low(x, b), a), Low(x, a));
  }

  // ---- ACPI_MASK_BITS ----

  const UINT64_MAX: nat := Ones(64)

  /** ACPI_MASK_BITS_BELOW. */
  function MaskBitsBelow(position: nat): nat { Low(Shl(UINT64_MAX, position), 64) }

  /** ACPI_MASK_BITS_ABOVE. */
  function MaskBitsAbove(position: nat): nat { Not(MaskBitsBelow(position), 64) }

  lemma MaskBitsBelowBits(position: nat)
    ensures forall i: nat :: Bit(MaskBitsBelow(position), i) <==> position <= i < 64
  {
    OnesBits(64);
    ShlBits(UINT64_MAX, position);
    LowBits(Shl(UINT64_MAX, position), 64);
  }

  /** The two masks split a 64-bit value into its remainder modulo 2^position and the value
      rounded down to 2^position; each part is what the other macros compute, and together
      they make up the value. */
  lemma MaskDecomposition(v: nat, position: nat)
    requires v < Pow2(64) && position < 64
    ensures And(v, MaskBitsAbove(position)) == v % Pow2(position)
    ensures And(v, MaskBitsBelow(position)) == RoundDown(v, position, 64)
    ensures And(v, MaskBitsAbove(position)) + And(v, MaskBitsBelow(position)) == v
    ensures position <= 32 ==> AcpiMod(v, Pow2(position)) == And(v, MaskBitsAbove(position))
    ensures v / Pow2(position) < Pow2(32) ==>
              AcpiDiv(v, position) * Pow2(position) == And(v, MaskBitsBelow(position))
  {
    var above, below := MaskBitsAbove(position), MaskBitsBelow(position);
    MaskBitsBelowBits(position);
    NotBits(below, 64);
    OnesBits(position);
    SameBits(above, Ones(position));
    AndOnes(v, position);
    NotBits(Ones(position), 64);
    SameBits(below, BoundaryMask(position, 64));
    MaskRemovesRemainder(v, position, 64);
    FastMathExact(v, position, 64);
    if position <= 32 {
      Pow2Monotone(position, 32);
    }
  }
}
