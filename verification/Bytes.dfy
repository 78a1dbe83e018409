/** Bytes in memory, and the unsigned integers they spell on hosts of either byte order. */
module Bytes {
  import opened Bits

  type Byte = x: int | 0 <= x < 256

  datatype Host = LittleEndian | BigEndian

  /** The integer whose least significant byte comes first. */
  function ValueLE(b: seq<Byte>): nat {
    if b == [] then 0 else var first: nat := b[0]; first + 256 * ValueLE(b[1..])
  }

  function Reversed<T>(b: seq<T>): (r: seq<T>)
    ensures |r| == |b| && forall k :: 0 <= k < |b| ==> r[k] == b[|b| - 1 - k]
  {
    seq(|b|, k requires 0 <= k < |b| => b[|b| - 1 - k])
  }

  /** The integer a host loads from the bytes of a word. */
  function Load(b: seq<Byte>, host: Host): nat {
    if host == LittleEndian then ValueLE(b) else ValueLE(Reversed(b))
  }

  function BytesLE(x: nat, n: nat): (b: seq<Byte>)
    ensures |b| == n
    decreases n
  {
    if n == 0 then [] else [x % 256] + BytesLE(x / 256, n - 1)
  }

  /** The bytes a host stores for an integer assigned to a word of `n` bytes. */
  function Store(x: nat, n: nat, host: Host): (b: seq<Byte>)
    ensures |b| == n
  {
    if host == LittleEndian then BytesLE(x, n) else Reversed(BytesLE(x, n))
  }

  lemma {:induction false} ValueLEBound(b: seq<Byte>)
    ensures ValueLE(b) < Pow2(8 * |b|)
  {
    if b != [] {
      ValueLEBound(b[1..]);
      assert 8 * |b| == 8 + 8 * |b[1..]|;
      Pow2Add(8, 8 * |b[1..]|);
      Pow2Values();
    }
  }

  lemma ShiftMod(d: nat, v: nat, m: nat)
    requires d < 256 && m > 0
    ensures (d + 256 * v) % (256 * m) == d + 256 * (v % m)
  {
    var q, r := v / m, v % m;
    assert v == q * m + r;
    assert 256 * (q * m) == q * (256 * m);
    DivModUnique(d + 256 * v, 256 * m, q, d + 256 * r);
  }

  lemma LowShift8(d: nat, v: nat, w: nat)
    requires d < 256
    ensures Low(d + 256 * v, 8 + w) == d + 256 * Low(v, w)
  {
    Pow2Add(8, w);
    Pow2Values();
    ShiftMod(d, v, Pow2(w));
  }

  /** Storing and loading again reduces the value to the width of the word. */
  lemma {:induction false} BytesLEValue(x: nat, n: nat)
    ensures ValueLE(BytesLE(x, n)) == Low(x, 8 * n)
    decreases n
  {
    if n != 0 {
      BytesLEValue(x / 256, n - 1);
      LowShift8(x % 256, x / 256, 8 * (n - 1));
      assert x == x % 256 + 256 * (x / 256) && 8 * n == 8 + 8 * (n - 1);
      assert BytesLE(x, n)[1..] == BytesLE(x / 256, n - 1);
    }
  }

  lemma {:induction false} ValueLEBytes(b: seq<Byte>)
    ensures BytesLE(ValueLE(b), |b|) == b
  {
    if b != [] {
      ValueLEBytes(b[1..]);
      DivModUnique(ValueLE(b), 256, ValueLE(b[1..]), b[0]);
    }
  }

  function Zeros(n: nat): (z: seq<Byte>)
    ensures |z| == n && forall k :: 0 <= k < n ==> z[k] == 0
  {
    seq(n, _ => 0)
  }

  lemma {:induction false} ValueLEZeros(b: seq<Byte>, n: nat)
    ensures ValueLE(b + Zeros(n)) == ValueLE(b)
    decreases |b| + n
  {
    if b != [] {
      assert (b + Zeros(n))[1..] == b[1..] + Zeros(n);
      ValueLEZeros(b[1..], n);
    } else if n != 0 {
      assert (b + Zeros(n))[1..] == b + Zeros(n - 1);
      ValueLEZeros(b, n - 1);
    }
  }

  /** The first bytes of a little-endian integer spell its low-order part. */
  lemma {:induction false} ValueLEPrefix(b: seq<Byte>, k: nat)
    requires k <= |b|
    ensures ValueLE(b[..k]) == Low(ValueLE(b), 8 * k)
  {
    if k != 0 {
      assert b[..k][1..] == b[1..][..k - 1];
      ValueLEPrefix(b[1..], k - 1);
      LowShift8(b[0], ValueLE(b[1..]), 8 * (k - 1));
      assert 8 * k == 8 + 8 * (k - 1);
    } else {
      assert ValueLE(b) % 1 == 0;
    }
  }

  /** Or-ing a byte below a shifted byte is addition. */
  lemma JoinBytes(low: Byte, high: Byte)
    ensures Or(Shl(high, 8), low) == 256 * (high as int) + low == ValueLE([low, high])
  {
    var sum: nat := 256 * (high as int) + low;
    Pow2Values();
    DivModUnique(sum, 256, high, low);
    ShlBits(high, 8);
    HighBits(low, 8);
    OrBits(Shl(high, 8), low);
    LowBits(sum, 8);
    ShrIsDiv(sum, 8);
    ShrBits(sum, 8);
    forall i: nat ensures Bit(Or(Shl(high, 8), low), i) <==> Bit(sum, i) {
      if i < 8 {
        assert Bit(Low(sum, 8), i) <==> Bit(sum, i);
      } else {
        assert Bit(Shr(sum, 8), i - 8) <==> Bit(sum, i);
      }
    }
    SameBits(Or(Shl(high, 8), low), sum);
    assert [low, high][1..] == [high] && [high][1..] == [];
    assert ValueLE([high]) == high;
  }
}
