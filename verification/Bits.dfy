/** Unsigned machine words of any width as natural numbers.

    The bitwise operators are defined digit by digit, and each one is characterised by
    what it does to every single bit (`AndBits`, `OrBits`, ...). Two words with the same
    bits are equal (`SameBits`), so facts about masks and shifts are proved bit by bit,
    for every width and every position at once. */
module Bits {

  function Pow2(n: nat): (p: nat)
    ensures p > 0
  {
    if n == 0 then 1 else 2 * Pow2(n - 1)
  }

  /** Bit `i` of `x`; bit 0 is the least significant one. */
  predicate Bit(x: nat, i: nat) {
    if i == 0 then x % 2 == 1 else Bit(x / 2, i - 1)
  }

  function Digit(b: bool): nat { if b then 1 else 0 }

  function And(x: nat, y: nat): nat {
    if x == 0 then 0 else Digit(x % 2 == 1 && y % 2 == 1) + 2 * And(x / 2, y / 2)
  }

  function Or(x: nat, y: nat): nat {
    if x == 0 then y else Digit(x % 2 == 1 || y % 2 == 1) + 2 * Or(x / 2, y / 2)
  }

  function Shl(x: nat, k: nat): nat { if k == 0 then x else 2 * Shl(x, k - 1) }

  function Shr(x: nat, k: nat): nat { if k == 0 then x else Shr(x / 2, k - 1) }

  /** Conversion to an unsigned type of `w` bits. */
  function Low(x: nat, w: nat): nat { x % Pow2(w) }

  /** The mask of `w` one bits. */
  function Ones(w: nat): nat { Pow2(w) - 1 }

  /** The C operator `~` on an operand of `w` bits. */
  function Not(x: nat, w: nat): (r: nat)
    ensures r < Pow2(w)
  {
    Pow2(w) - 1 - Low(x, w)
  }

  // ---- Arithmetic facts ----

  lemma MulAtLeast(a: int, m: nat)
    ensures a >= 1 ==> a * m >= m
    ensures a <= -1 ==> a * m + m <= 0
  {
  }

  lemma DivModUnique(x: nat, m: nat, q: nat, r: nat)
    requires r < m && x == q * m + r
    ensures x / m == q && x % m == r
  {
    var d := q - x / m;
    assert x == x / m * m + x % m;
    assert d * m == q * m - x / m * m;
    MulAtLeast(d, m);
  }

  lemma {:induction false} Pow2Add(a: nat, b: nat)
    ensures Pow2(a + b) == Pow2(a) * Pow2(b)
  {
    if a != 0 {
      Pow2Add(a - 1, b);
      assert Pow2(a + b) == 2 * Pow2(a - 1 + b);
    }
  }

  lemma Pow2Values()
    ensures Pow2(3) == 8 && Pow2(8) == 0x100 && Pow2(16) == 0x1_0000
    ensures Pow2(32) == 0x1_0000_0000 && Pow2(64) == 0x1_0000_0000_0000_0000
  {
    assert Pow2(8) == 0x100;
    Pow2Add(8, 8);
    Pow2Add(16, 16);
    Pow2Add(32, 32);
  }

  lemma {:induction false} Pow2Monotone(a: nat, b: nat)
    requires a <= b
    ensures Pow2(a) <= Pow2(b)
  {
    if a < b {
      Pow2Monotone(a, b - 1);
    }
  }

  /** A left shift multiplies by a power of two. */
  lemma {:induction false} ShlIsMul(x: nat, k: nat)
    ensures Shl(x, k) == x * Pow2(k)
  {
    if k != 0 {
      ShlIsMul(x, k - 1);
    }
  }

  /** A right shift divides by a power of two. */
  lemma {:induction false} ShrIsDiv(x: nat, k: nat)
    ensures Shr(x, k) == x / Pow2(k)
  {
    if k != 0 {
      ShrIsDiv(x / 2, k - 1);
      HalfDivMod(x, k);
    }
  }

  lemma HalfDivMod(x: nat, k: nat)
    requires k > 0
    ensures x / Pow2(k) == x / 2 / Pow2(k - 1)
    ensures x % Pow2(k) == x % 2 + 2 * (x / 2 % Pow2(k - 1))
  {
    var m := Pow2(k - 1);
    var q, r := x / 2 / m, x / 2 % m;
    assert x / 2 == q * m + r;
    assert x == q * (2 * m) + (2 * r + x % 2);
    DivModUnique(x, 2 * m, q, 2 * r + x % 2);
  }

  // ---- What each operator does to every bit ----

  lemma {:induction false} ZeroBit(i: nat)
    ensures !Bit(0, i)
  {
    if i != 0 {
      ZeroBit(i - 1);
    }
  }

  lemma ZeroBits()
    ensures forall i: nat :: !Bit(0, i)
  {
    forall i: nat ensures !Bit(0, i) { ZeroBit(i); }
  }

  lemma {:induction false} AndBit(x: nat, y: nat, i: nat)
    ensures Bit(And(x, y), i) <==> Bit(x, i) && Bit(y, i)
    decreases i
  {
    if x == 0 {
      ZeroBit(i);
    } else if i != 0 {
      AndBit(x / 2, y / 2, i - 1);
    }
  }

  lemma AndBits(x: nat, y: nat)
    ensures forall i: nat :: Bit(And(x, y), i) <==> Bit(x, i) && Bit(y, i)
  {
    forall i: nat ensures Bit(And(x, y), i) <==> Bit(x, i) && Bit(y, i) { AndBit(x, y, i); }
  }

  lemma {:induction false} OrBit(x: nat, y: nat, i: nat)
    ensures Bit(Or(x, y), i) <==> Bit(x, i) || Bit(y, i)
    decreases i
  {
    if x == 0 {
      ZeroBit(i);
    } else if i != 0 {
      OrBit(x / 2, y / 2, i - 1);
    }
  }

  lemma OrBits(x: nat, y: nat)
    ensures forall i: nat :: Bit(Or(x, y), i) <==> Bit(x, i) || Bit(y, i)
  {
    forall i: nat ensures Bit(Or(x, y), i) <==> Bit(x, i) || Bit(y, i) { OrBit(x, y, i); }
  }

  lemma {:induction false} ShlBit(x: nat, k: nat, i: nat)
    ensures Bit(Shl(x, k), i) <==> i >= k && Bit(x, i - k)
    decreases k
  {
    if k != 0 && i != 0 {
      ShlBit(x, k - 1, i - 1);
      assert Shl(x, k) / 2 == Shl(x, k - 1);
    }
  }

  lemma {:induction false} ShlBits(x: nat, k: nat)
    ensures forall i: nat :: Bit(Shl(x, k), i) <==> i >= k && Bit(x, i - k)
  {
    forall i: nat ensures Bit(Shl(x, k), i) <==> i >= k && Bit(x, i - k) { ShlBit(x, k, i); }
  }

  lemma {:induction false} ShrBit(x: nat, k: nat, i: nat)
    ensures Bit(Shr(x, k), i) <==> Bit(x, i + k)
    decreases k
  {
    if k != 0 {
      ShrBit(x / 2, k - 1, i);
    }
  }

  lemma {:induction false} ShrBits(x: nat, k: nat)
    ensures forall i: nat :: Bit(Shr(x, k), i) <==> Bit(x, i + k)
  {
    forall i: nat ensures Bit(Shr(x, k), i) <==> Bit(x, i + k) { ShrBit(x, k, i); }
  }

  lemma LowHalf(x: nat, w: nat)
    requires w > 0
    ensures Low(x, w) % 2 == x % 2 && Low(x, w) / 2 == Low(x / 2, w - 1)
  {
    HalfDivMod(x, w);
  }

  lemma {:induction false} LowBit(x: nat, w: nat, i: nat)
    ensures Bit(Low(x, w), i) <==> i < w && Bit(x, i)
    decreases i
  {
    if w == 0 {
      ZeroBit(i);
    } else {
      LowHalf(x, w);
      if i != 0 {
        LowBit(x / 2, w - 1, i - 1);
      }
    }
  }

  lemma LowBits(x: nat, w: nat)
    ensures forall i: nat :: Bit(Low(x, w), i) <==> i < w && Bit(x, i)
  {
    forall i: nat ensures Bit(Low(x, w), i) <==> i < w && Bit(x, i) { LowBit(x, w, i); }
  }

  lemma {:induction false} NotBit(x: nat, w: nat, i: nat)
    ensures Bit(Not(x, w), i) <==> i < w && !Bit(x, i)
    decreases i
  {
    if w == 0 {
      ZeroBit(i);
    } else {
      HalfDivMod(x, w);
      if i != 0 {
        NotBit(x / 2, w - 1, i - 1);
        assert Not(x, w) / 2 == Not(x / 2, w - 1);
      }
    }
  }

  lemma NotBits(x: nat, w: nat)
    ensures forall i: nat :: Bit(Not(x, w), i) <==> i < w && !Bit(x, i)
  {
    forall i: nat ensures Bit(Not(x, w), i) <==> i < w && !Bit(x, i) { NotBit(x, w, i); }
  }

  lemma OnesBits(w: nat)
    ensures forall i: nat :: Bit(Ones(w), i) <==> i < w
  {
    assert Ones(w) == Not(0, w);
    NotBits(0, w);
    ZeroBits();
  }

  lemma HighBits(x: nat, w: nat)
    requires x < Pow2(w)
    ensures forall i: nat :: i >= w ==> !Bit(x, i)
  {
    DivModUnique(x, Pow2(w), 0, x);
    LowBits(x, w);
  }

  // ---- From bits back to words ----

  lemma {:induction false} SameBits(x: nat, y: nat)
    requires forall i: nat :: Bit(x, i) <==> Bit(y, i)
    ensures x == y
    decreases x + y
  {
    assert Bit(x, 0) <==> Bit(y, 0);
    if x + y > 0 {
      forall i: nat ensures Bit(x / 2, i) <==> Bit(y / 2, i) {
        assert Bit(x, i + 1) <==> Bit(y, i + 1);
      }
      SameBits(x / 2, y / 2);
    }
  }

  lemma FitsFromBits(x: nat, w: nat)
    requires forall i: nat :: i >= w ==> !Bit(x, i)
    ensures x < Pow2(w)
  {
    LowBits(x, w);
    SameBits(x, Low(x, w));
  }

  lemma LowIdentity(x: nat, w: nat)
    requires x < Pow2(w)
    ensures Low(x, w) == x
  {
    DivModUnique(x, Pow2(w), 0, x);
  }

  /** Masking with `w` ones is reduction modulo 2^w. */
  lemma AndOnes(x: nat, w: nat)
    ensures And(x, Ones(w)) == Low(x, w)
  {
    AndBits(x, Ones(w));
    OnesBits(w);
    LowBits(x, w);
    SameBits(And(x, Ones(w)), Low(x, w));
  }
}
