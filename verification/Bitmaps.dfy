/** The allocation bitmap of CommonLib, kept in an array of bytes. */
module Bitmaps {
  import opened Bits
  import opened Bytes
  import opened Options

  const MAX_DWORD: nat := 0xFFFF_FFFF
  const DWORD_VALUES: nat := 0x1_0000_0000

  // ---- Sequences of bits ----

  /** Bits i to i+n-1 exist and all equal `v`. */
  predicate RunAt(bits: seq<bool>, i: nat, n: nat, v: bool) {
    i + n <= |bits| && forall j :: i <= j < i + n ==> bits[j] == v
  }

  /** The first index from `start` on where `n` consecutive bits equal `v`. */
  function FirstFit(bits: seq<bool>, start: nat, n: nat, v: bool): Option<nat>
    decreases |bits| - start
  {
    if start + n > |bits| then None
    else if RunAt(bits, start, n, v) then Some(start)
    else FirstFit(bits, start + 1, n, v)
  }

  /** First fit finds a run iff there is one, and then the lowest. */
  lemma {:induction false} FirstFitFinds(bits: seq<bool>, start: nat, n: nat, v: bool)
    ensures FirstFit(bits, start, n, v).Some? ==>
              var r := FirstFit(bits, start, n, v).value;
              start <= r && RunAt(bits, r, n, v) && forall i :: start <= i < r ==> !RunAt(bits, i, n, v)
    ensures FirstFit(bits, start, n, v).None? ==> forall i :: start <= i ==> !RunAt(bits, i, n, v)
    decreases |bits| - start
  {
    if start + n <= |bits| && !RunAt(bits, start, n, v) {
      FirstFitFinds(bits, start + 1, n, v);
    }
  }

  function SetRange(bits: seq<bool>, start: nat, n: nat, v: bool): (r: seq<bool>)
    requires start + n <= |bits|
    ensures |r| == |bits|
    ensures forall j :: 0 <= j < |bits| ==> r[j] == if start <= j < start + n then v else bits[j]
  {
    bits[..start] + seq(n, _ => v) + bits[start + n..]
  }

  // ---- Bits in bytes ----

  predicate BitAt(buffer: seq<Byte>, i: nat)
    requires i / 8 < |buffer|
  {
    Bit(buffer[i / 8], i % 8)
  }

  predicate Holds(buffer: seq<Byte>, bitCount: nat) { |buffer| == (bitCount + 7) / 8 }

  function Unpacked(buffer: seq<Byte>, bitCount: nat): (bits: seq<bool>)
    requires Holds(buffer, bitCount)
    ensures |bits| == bitCount && forall i :: 0 <= i < bitCount ==> bits[i] == BitAt(buffer, i)
  {
    seq(bitCount, i requires 0 <= i < bitCount => BitAt(buffer, i))
  }

  /** `x |= 1 << b` or `x &= ~(1 << b)`, the complement taken on a 32-bit integer. */
  function ChangedByte(x: Byte, b: nat, on: bool): nat {
    if on then Or(x, Shl(1, b)) else And(x, Not(Shl(1, b), 32))
  }

  lemma OneBit(b: nat)
    ensures forall i: nat :: Bit(Shl(1, b), i) <==> i == b
  {
    assert Ones(1) == 1;
    OnesBits(1);
    ShlBits(1, b);
  }

  lemma ChangedByteBits(x: Byte, b: nat, on: bool)
    requires b < 8
    ensures ChangedByte(x, b, on) < 256
    ensures forall i: nat :: Bit(ChangedByte(x, b, on), i) <==> if i == b then on else Bit(x, i)
  {
    Pow2Values();
    HighBits(x, 8);
    OneBit(b);
    OrBits(x, Shl(1, b));
    NotBits(Shl(1, b), 32);
    AndBits(x, Not(Shl(1, b), 32));
    FitsFromBits(ChangedByte(x, b, on), 8);
  }

  /** The test `(1 << b) == (x & (1 << b))`. */
  lemma FlagTest(x: Byte, b: nat)
    ensures And(x, Shl(1, b)) == Shl(1, b) <==> Bit(x, b)
  {
    OneBit(b);
    AndBits(x, Shl(1, b));
    if Bit(x, b) {
      SameBits(And(x, Shl(1, b)), Shl(1, b));
    }
  }

  /** Changing any bit of the buffer changes that bit of the contents and no other; the bits
      that fill up the last byte are not part of the contents. */
  lemma ChangeOneBit(buffer: seq<Byte>, bitCount: nat, index: nat, on: bool)
    requires Holds(buffer, bitCount) && index / 8 < |buffer|
    ensures ChangedByte(buffer[index / 8], index % 8, on) < 256
    ensures Unpacked(buffer[index / 8 := ChangedByte(buffer[index / 8], index % 8, on)], bitCount)
         == Put(Unpacked(buffer, bitCount), index, on)
  {
    var k, b := index / 8, index % 8;
    ChangedByteBits(buffer[k], b, on);
    var changed := buffer[k := ChangedByte(buffer[k], b, on)];
    forall i | 0 <= i < bitCount
      ensures BitAt(changed, i) == if i == index then on else BitAt(buffer, i)
    {
      assert i == 8 * (i / 8) + i % 8 && index == 8 * k + b;
    }
  }

  function Put(bits: seq<bool>, index: nat, on: bool): seq<bool> {
    if index < |bits| then bits[index := on] else bits
  }

  // ---- The range assertion ----

  /** The indices that a range of `count` bits from `index` on visits, computed as 32-bit
      integers are. */
  function Visited(index: nat, i: nat): nat { (index + i) % DWORD_VALUES }

  /** What BitmapSetBitsValue asserts, its subtraction on unsigned 32-bit integers. */
  predicate RangeAsserted(bitCount: nat, index: nat, count: nat) {
    index < bitCount && (bitCount - count) % DWORD_VALUES >= index
  }

  /** Every bit changed is a bit of the bitmap. */
  predicate StaysInBitmap(bitCount: nat, index: nat, count: nat) {
    forall i :: 0 <= i < count ==> Visited(index, i) < bitCount
  }

  /** Every byte changed is a byte of the buffer. */
  predicate StaysInBuffer(bitCount: nat, index: nat, count: nat) {
    forall i :: 0 <= i < count ==> Visited(index, i) / 8 < (bitCount + 7) / 8
  }

  /** The number of bits the buffer has room for. */
  function Capacity(bitCount: nat): nat { (bitCount + 7) / 8 * 8 }

  /** Exactly which ranges pass: those that fit, and those longer than the whole bitmap for
      which the subtraction wraps around far enough. */
  lemma RangeAssertedExactly(bitCount: nat, index: nat, count: nat)
    requires bitCount <= MAX_DWORD && count <= MAX_DWORD
    ensures RangeAsserted(bitCount, index, count)
       <==> index < bitCount && (index + count <= bitCount || (count > bitCount && index + count <= bitCount + DWORD_VALUES))
  {
  }

  lemma StaysInBitmapExactly(bitCount: nat, index: nat, count: nat)
    requires index < bitCount <= MAX_DWORD
    ensures StaysInBitmap(bitCount, index, count) <==> index + count <= bitCount
  {
    if index + count > bitCount {
      assert Visited(index, bitCount - index) == bitCount;
    }
  }

  lemma StaysInBufferExactly(bitCount: nat, index: nat, count: nat)
    requires index < bitCount <= MAX_DWORD
    ensures StaysInBuffer(bitCount, index, count)
       <==> index + count <= Capacity(bitCount) || Capacity(bitCount) == DWORD_VALUES
  {
    var room := Capacity(bitCount);
    assert room <= DWORD_VALUES;
    if index + count > room && room < DWORD_VALUES {
      assert Visited(index, room - index) == room;
    }
  }

  /** The assertion protects the bitmap exactly when no more bits are asked for than there are:
      of the calls that pass it, those stay among the bits of the bitmap and no others do. They
      stay within the buffer a little longer, for the bits that fill up the last byte. */
  lemma AssertionProtects(bitCount: nat, index: nat, count: nat)
    requires bitCount <= MAX_DWORD && count <= MAX_DWORD && RangeAsserted(bitCount, index, count)
    ensures StaysInBitmap(bitCount, index, count) <==> count <= bitCount
    ensures StaysInBuffer(bitCount, index, count)
       <==> count <= bitCount || index + count <= Capacity(bitCount) || Capacity(bitCount) == DWORD_VALUES
  {
    RangeAssertedExactly(bitCount, index, count);
    StaysInBitmapExactly(bitCount, index, count);
    StaysInBufferExactly(bitCount, index, count);
  }

  /** A range of nine bits passes the assertion of a bitmap of eight and leaves its buffer. */
  lemma NineBitsOfEight()
    ensures RangeAsserted(8, 0, 9) && !StaysInBuffer(8, 0, 9)
  {
    StaysInBufferExactly(8, 0, 9);
  }

  /** The bits after a range has been changed, wherever its indices lie. */
  function Changed(bits: seq<bool>, index: nat, count: nat, on: bool): (r: seq<bool>)
    ensures |r| == |bits|
  {
    if count == 0 then bits else Put(Changed(bits, index, count - 1, on), Visited(index, count - 1), on)
  }

  /** Exactly the bits visited take the value. */
  lemma {:induction false} ChangedBits(bits: seq<bool>, index: nat, count: nat, on: bool, j: nat)
    requires j < |bits|
    ensures Changed(bits, index, count, on)[j] == if exists i :: 0 <= i < count && Visited(index, i) == j then on else bits[j]
  {
    if count > 0 {
      ChangedBits(bits, index, count - 1, on, j);
      assert Visited(index, count - 1) != j ==>
          ((exists i :: 0 <= i < count && Visited(index, i) == j) <==> (exists i :: 0 <= i < count - 1 && Visited(index, i) == j));
    }
  }

  lemma {:induction false} ChangedIsSetRange(bits: seq<bool>, index: nat, count: nat, on: bool)
    requires index + count <= |bits| <= MAX_DWORD
    ensures Changed(bits, index, count, on) == SetRange(bits, index, count, on)
  {
    if count > 0 {
      ChangedIsSetRange(bits, index, count - 1, on);
      assert Visited(index, count - 1) == index + (count - 1);
    }
  }

  /** How a guarded change ends: an assertion fails, a write leaves the buffer, or all is
      done. */
  datatype Outcome = Asserted | Overrun | Done

  class Bitmap {
    var buffer: array<Byte>
    var bitCount: nat

    ghost predicate Valid()
      reads this
    {
      0 < bitCount <= MAX_DWORD && buffer.Length == (bitCount + 7) / 8
    }

    ghost function Contents(): (bits: seq<bool>)
      requires Valid()
      reads this, buffer
      ensures |bits| == bitCount
    {
      Unpacked(buffer[..], bitCount)
    }

    /** BitmapPreinit and BitmapInitEx. */
    constructor (numberOfElements: nat, on: bool)
      requires 0 < numberOfElements <= MAX_DWORD
      ensures Valid() && fresh(buffer) && bitCount == numberOfElements
      ensures forall i :: 0 <= i < bitCount ==> Contents()[i] == on
    {
      bitCount := numberOfElements;
      buffer := new Byte[(numberOfElements + 7) / 8](_ => if on then 255 else 0);
      new;
      assert Ones(8) == 255;
      OnesBits(8);
      ZeroBits();
    }

    /** _BitmapChangeBit. */
    method ChangeBit(index: nat, on: bool)
      requires Valid() && index / 8 < buffer.Length
      modifies buffer
      ensures Contents() == Put(old(Contents()), index, on)
      ensures forall k :: 0 <= k < buffer.Length && k != index / 8 ==> buffer[k] == old(buffer[k])
      ensures forall i: nat :: Bit(buffer[index / 8], i) <==> if i == index % 8 then on else Bit(old(buffer[index / 8]), i)
    {
      ghost var before := buffer[..];
      ChangeOneBit(before, bitCount, index, on);
      ChangedByteBits(buffer[index / 8], index % 8, on);
      var byteIndex, bitIndex := index / 8, index % 8;
      if on {
        buffer[byteIndex] := Or(buffer[byteIndex], Shl(1, bitIndex));
      } else {
        buffer[byteIndex] := And(buffer[byteIndex], Not(Shl(1, bitIndex), 32));
      }
      assert buffer[..] == before[byteIndex := ChangedByte(before[byteIndex], bitIndex, on)];
    }

    /** _BitmapGetBit. */
    method GetBit(index: nat) returns (b: bool)
      requires Valid() && index < bitCount
      ensures b == Contents()[index]
    {
      var byteIndex, bitIndex := index / 8, index % 8;
      FlagTest(buffer[byteIndex], bitIndex);
      b := And(buffer[byteIndex], Shl(1, bitIndex)) == Shl(1, bitIndex);
    }

    /** _BitmapChangeBits, which looks at no bounds: `changed` bits are changed before the first
        write that would leave the buffer, all of them iff there is none. */
    method ChangeBits(index: nat, on: bool, count: nat) returns (changed: nat)
      requires Valid()
      modifies buffer
      ensures changed <= count && StaysInBuffer(bitCount, index, changed)
      ensures changed < count ==> !StaysInBuffer(bitCount, index, changed + 1)
      ensures changed == count <==> StaysInBuffer(bitCount, index, count)
      ensures Contents() == Changed(old(Contents()), index, changed, on)
    {
      changed := 0;
      while changed < count
        invariant changed <= count && StaysInBuffer(bitCount, index, changed)
        invariant Contents() == Changed(old(Contents()), index, changed, on)
      {
        var next := (index + changed) % DWORD_VALUES;
        assert next == Visited(index, changed);
        if next / 8 >= buffer.Length {
          return;
        }
        ChangeBit(next, on);
        changed := changed + 1;
      }
    }

    /** BitmapSetBitsValue: the range assertion, and then the change. A range within the bitmap
        takes the value and no other bit changes. */
    method SetBitsValue(index: nat, count: nat, on: bool) returns (o: Outcome)
      requires Valid() && count <= MAX_DWORD
      modifies buffer
      ensures o == Asserted <==> !RangeAsserted(bitCount, index, count)
      ensures o == Overrun <==> RangeAsserted(bitCount, index, count) && !StaysInBuffer(bitCount, index, count)
      ensures o == Asserted ==> Contents() == old(Contents())
      ensures o == Done ==> Contents() == Changed(old(Contents()), index, count, on)
      ensures index < bitCount && index + count <= bitCount ==>
                o == Done && Contents() == SetRange(old(Contents()), index, count, on)
    {
      RangeAssertedExactly(bitCount, index, count);
      if index >= bitCount {
        return Asserted;
      }
      if (bitCount - count) % DWORD_VALUES < index {
        return Asserted;
      }
      StaysInBufferExactly(bitCount, index, count);
      if index + count <= bitCount {
        ChangedIsSetRange(Contents(), index, count, on);
      }
      var changed := ChangeBits(index, on, count);
      o := if changed == count then Done else Overrun;
    }

    /** _BitmapScanInternal: the first run of `count` bits equal to `on` that lies between
        `start` and `end`, or MAX_DWORD. */
    method ScanInternal(start: nat, end: nat, count: nat, on: bool) returns (r: nat)
      requires Valid() && count > 0 && start <= end <= bitCount
      ensures match FirstFit(Contents()[..end], start, count, on)
              case None => r == MAX_DWORD
              case Some(i) => r == i < MAX_DWORD
    {
      ghost var bits := Contents()[..end];
      if end - start < count {
        return MAX_DWORD;
      }
      var lastIndex := end - count;
      var i := start;
      while i <= lastIndex
        invariant start <= i <= lastIndex + 1
        invariant FirstFit(bits, i, count, on) == FirstFit(bits, start, count, on)
      {
        var found := AllEqual(i, end, count, on);
        if found {
          return i;
        }
        i := i + 1;
      }
      return MAX_DWORD;
    }

    /** The inner loop of the scan. */
    method AllEqual(i: nat, end: nat, count: nat, on: bool) returns (found: bool)
      requires Valid() && i + count <= end <= bitCount
      ensures found <==> RunAt(Contents()[..end], i, count, on)
    {
      ghost var bits := Contents();
      for j := 0 to count
        invariant forall k :: i <= k < i + j ==> bits[k] == on
      {
        var b := GetBit(i + j);
        if on != b {
          assert bits[..end][i + j] != on;
          return false;
        }
      }
      return true;
    }

    /** BitmapScanFromTo: refuses an empty request and an improper interval. */
    method ScanFromTo(start: nat, end: nat, count: nat, on: bool) returns (r: nat)
      requires Valid()
      ensures r == Scanned(Contents(), start, end, count, on)
    {
      if count == 0 {
        return MAX_DWORD;
      }
      if start > end || end > bitCount {
        return MAX_DWORD;
      }
      r := ScanInternal(start, end, count, on);
    }

    /** BitmapScanFromToAndFlip. */
    method ScanFromToAndFlip(start: nat, end: nat, count: nat, on: bool) returns (r: nat)
      requires Valid()
      modifies buffer
      ensures r == Scanned(old(Contents()), start, end, count, on)
      ensures r == MAX_DWORD ==> Contents() == old(Contents())
      ensures r != MAX_DWORD ==> r + count <= |old(Contents())| && Contents() == SetRange(old(Contents()), r, count, !on)
    {
      r := ScanFromTo(start, end, count, on);
      if r == MAX_DWORD {
        return;
      }
      ScannedFits(Contents(), start, end, count, on);
      ChangedIsSetRange(Contents(), r, count, !on);
      StaysInBufferExactly(bitCount, r, count);
      var _ := ChangeBits(r, !on, count);
    }
  }

  /** What a scan answers. */
  function Scanned(bits: seq<bool>, start: nat, end: nat, count: nat, on: bool): nat {
    if count == 0 || start > end || end > |bits| then MAX_DWORD
    else match FirstFit(bits[..end], start, count, on)
      case None => MAX_DWORD
      case Some(i) => i
  }

  lemma ScannedFits(bits: seq<bool>, start: nat, end: nat, count: nat, on: bool)
    requires |bits| <= MAX_DWORD
    ensures var r := Scanned(bits, start, end, count, on);
            && (r != MAX_DWORD <==> count > 0 && end <= |bits| && exists i: nat :: start <= i && i + count <= end && RunAt(bits, i, count, on))
            && (r != MAX_DWORD ==>
                  && start <= r && r + count <= end && RunAt(bits, r, count, on)
                  && forall i :: start <= i < r ==> !RunAt(bits, i, count, on))
  {
    if count > 0 && start <= end <= |bits| {
      FirstFitFinds(bits[..end], start, count, on);
      forall i: nat | i + count <= end ensures RunAt(bits[..end], i, count, on) <==> RunAt(bits, i, count, on) {
        assert forall j :: i <= j < i + count ==> bits[..end][j] == bits[j];
      }
    }
  }
}
