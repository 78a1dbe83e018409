/** Packed argument lists: the 5-bit argument types of the AML opcode table (ARGP_LISTn,
    ARGI_LISTn), the 3-bit argument types of the predefined-method table (METHOD_nARGS), and
    the packed table entry written by PACKAGE_INFO. */
module ArgLists {
  import opened Bits
  import opened Fields
  import opened Bytes

  /** `t1 | (t2 << w) | (t3 << 2w) | ...`, grouped to the left, on integers of `size` bits. */
  function Pack(ts: seq<nat>, w: nat, size: nat): nat {
    if ts == [] then 0
    else var n := |ts| - 1; Or(Pack(ts[..n], w, size), Low(Shl(ts[n], n * w), size))
  }

  /** Every type fits in `w` bits, and the list fits in an integer of `size` bits. */
  predicate Packable(ts: seq<nat>, w: nat, size: nat) {
    w > 0 && |ts| * w <= size && forall k :: 0 <= k < |ts| ==> ts[k] < Pow2(w)
  }

  /** The k-th entry of a packed list. */
  function Entry(k: nat, w: nat): Field { Field(k * w, w) }

  lemma MulGap(k: nat, n: nat, w: nat)
    requires k < n
    ensures k * w + w <= n * w
  {
    assert n * w == (n - k) * w + k * w;
    MulAtLeast(n - k, w);
  }

  lemma Shifted(t: nat, w: nat, n: nat, k: nat, j: nat)
    requires t < Pow2(w) && j < w
    ensures Bit(Shl(t, n * w), k * w + j) <==> k == n && Bit(t, j)
  {
    ShlBit(t, n * w, k * w + j);
    HighBits(t, w);
    if k < n {
      MulGap(k, n, w);
    } else if k > n {
      MulGap(n, k, w);
    }
  }

  lemma {:induction false} PackBit(ts: seq<nat>, w: nat, size: nat, k: nat, j: nat)
    requires Packable(ts, w, size) && j < w
    ensures Bit(Pack(ts, w, size), k * w + j) <==> k < |ts| && Bit(ts[k], j)
    decreases |ts|
  {
    if ts == [] {
      ZeroBit(k * w + j);
    } else {
      var n := |ts| - 1;
      assert n * w + w == |ts| * w;
      PackBit(ts[..n], w, size, k, j);
      OrBit(Pack(ts[..n], w, size), Low(Shl(ts[n], n * w), size), k * w + j);
      LowBit(Shl(ts[n], n * w), size, k * w + j);
      Shifted(ts[n], w, n, k, j);
    }
  }

  /** Entry `k` of a packed list is its k-th type; entries past the end are zero. */
  lemma PackEntry(ts: seq<nat>, w: nat, size: nat, k: nat)
    requires Packable(ts, w, size)
    ensures GetBits(Pack(ts, w, size), Entry(k, w)) == if k < |ts| then ts[k] else 0
  {
    var x := Pack(ts, w, size);
    var expected := if k < |ts| then ts[k] else 0;
    GetBitsBits(x, Entry(k, w));
    ZeroBits();
    if k < |ts| {
      HighBits(ts[k], w);
    }
    forall i: nat ensures Bit(GetBits(x, Entry(k, w)), i) <==> Bit(expected, i) {
      if i < w {
        PackBit(ts, w, size, k, i);
      }
    }
    SameBits(GetBits(x, Entry(k, w)), expected);
  }

  // ---- Walking a list ----

  /** GET_CURRENT_ARG_TYPE and, for w = 3, METHOD_GET_ARG_COUNT. */
  function Current(list: nat, w: nat): nat { And(list, Ones(w)) }

  /** INCREMENT_ARG_LIST: the new value of the list. */
  function Advance(list: nat, w: nat): nat { Shr(list, w) }

  /** The first `n` types seen by repeatedly reading the current type and advancing. */
  function Walk(list: nat, w: nat, n: nat): (ts: seq<nat>)
    ensures |ts| == n
    decreases n
  {
    if n == 0 then [] else [Current(list, w)] + Walk(Advance(list, w), w, n - 1)
  }

  lemma AdvanceShiftsEntries(list: nat, w: nat, k: nat)
    ensures GetBits(Advance(list, w), Entry(k, w)) == GetBits(list, Entry(k + 1, w))
  {
    ShrBits(list, w);
    GetBitsBits(Advance(list, w), Entry(k, w));
    GetBitsBits(list, Entry(k + 1, w));
    assert (k + 1) * w == k * w + w;
    forall i: nat
      ensures Bit(GetBits(Advance(list, w), Entry(k, w)), i) <==> Bit(GetBits(list, Entry(k + 1, w)), i)
    {
      assert i + k * w + w == i + (k + 1) * w;
    }
    SameBits(GetBits(Advance(list, w), Entry(k, w)), GetBits(list, Entry(k + 1, w)));
  }

  lemma {:induction false} WalkReadsEntries(list: nat, w: nat, n: nat, k: nat)
    requires k < n
    ensures Walk(list, w, n)[k] == GetBits(list, Entry(k, w))
    decreases n
  {
    if k > 0 {
      WalkReadsEntries(Advance(list, w), w, n - 1, k - 1);
      AdvanceShiftsEntries(list, w, k - 1);
    } else {
      assert 0 * w == 0;
    }
  }

  // ---- The 5-bit lists of the opcode table ----

  const ARG_TYPE_WIDTH: nat := 5
  const MAX_ARGS: nat := 6

  predicate ArgTypes(ts: seq<nat>) {
    |ts| <= MAX_ARGS && forall k :: 0 <= k < |ts| ==> ts[k] < 32
  }

  /** ARGP_LISTn: the first argument in the low bits. */
  function ArgpList(ts: seq<nat>): nat { Pack(ts, ARG_TYPE_WIDTH, 32) }

  /** ARGI_LISTn: the last argument in the low bits. */
  function ArgiList(ts: seq<nat>): nat { Pack(Reversed(ts), ARG_TYPE_WIDTH, 32) }

  lemma ArgTypesPackable(ts: seq<nat>)
    requires ArgTypes(ts)
    ensures Packable(ts, ARG_TYPE_WIDTH, 32)
  {
  }

  /** Walking a parse list yields the arguments in order and then zeros, for any number of
      steps. */
  lemma ArgpWalk(ts: seq<nat>, n: nat, k: nat)
    requires ArgTypes(ts) && k < n
    ensures Walk(ArgpList(ts), ARG_TYPE_WIDTH, n)[k] == if k < |ts| then ts[k] else 0
  {
    ArgTypesPackable(ts);
    WalkReadsEntries(ArgpList(ts), ARG_TYPE_WIDTH, n, k);
    PackEntry(ts, ARG_TYPE_WIDTH, 32, k);
  }

  /** Walking a runtime list yields the arguments in reverse order and then zeros. */
  lemma ArgiWalk(ts: seq<nat>, n: nat, k: nat)
    requires ArgTypes(ts) && k < n
    ensures Walk(ArgiList(ts), ARG_TYPE_WIDTH, n)[k] == if k < |ts| then ts[|ts| - 1 - k] else 0
  {
    ArgpWalk(Reversed(ts), n, k);
  }

  /** `types` is what a walk that stops at the first zero type reads from `list`. */
  predicate ReadsAs(list: nat, types: seq<nat>) {
    && (forall k :: 0 <= k < |types| ==> types[k] == GetBits(list, Entry(k, ARG_TYPE_WIDTH)) != 0)
    && GetBits(list, Entry(|types|, ARG_TYPE_WIDTH)) == 0
  }

  /** Reads a list until the current type is zero, advancing the list in place. */
  method ReadTypes(argList: nat) returns (types: seq<nat>)
    ensures ReadsAs(argList, types)
  {
    var list := argList;
    types := [];
    while Current(list, ARG_TYPE_WIDTH) != 0
      invariant forall k :: 0 <= k < |types| ==> types[k] == GetBits(argList, Entry(k, ARG_TYPE_WIDTH)) != 0
      invariant forall k: nat :: GetBits(list, Entry(k, ARG_TYPE_WIDTH)) == GetBits(argList, Entry(|types| + k, ARG_TYPE_WIDTH))
      decreases list
    {
      ghost var before := list;
      assert GetBits(list, Entry(0, ARG_TYPE_WIDTH)) == Current(list, ARG_TYPE_WIDTH);
      types := types + [Current(list, ARG_TYPE_WIDTH)];
      ShrIsDiv(list, ARG_TYPE_WIDTH);
      ZeroAnd(list, ARG_TYPE_WIDTH);
      assert Pow2(5) == 32;
      list := Advance(list, ARG_TYPE_WIDTH);
      forall k: nat
        ensures GetBits(list, Entry(k, ARG_TYPE_WIDTH)) == GetBits(argList, Entry(|types| + k, ARG_TYPE_WIDTH))
      {
        AdvanceShiftsEntries(before, ARG_TYPE_WIDTH, k);
        assert |types| + k == |types| - 1 + (k + 1);
      }
    }
    assert GetBits(list, Entry(0, ARG_TYPE_WIDTH)) == Current(list, ARG_TYPE_WIDTH);
  }

  lemma ZeroAnd(x: nat, w: nat)
    ensures And(x, Ones(w)) != 0 ==> x > 0
  {
  }

  /** A walk that stops at the first zero reads exactly the arguments of a parse list, and so
      takes exactly as many steps as there are arguments, iff no argument has type zero. */
  lemma WalkEndsAfterArgs(ts: seq<nat>, types: seq<nat>)
    requires ArgTypes(ts)
    ensures ReadsAs(ArgpList(ts), ts) <==> 0 !in ts
    ensures ReadsAs(ArgpList(ts), types) ==> (types == ts <==> 0 !in ts)
  {
    ArgTypesPackable(ts);
    forall k: nat ensures GetBits(ArgpList(ts), Entry(k, ARG_TYPE_WIDTH)) == if k < |ts| then ts[k] else 0 {
      PackEntry(ts, ARG_TYPE_WIDTH, 32, k);
    }
    assert GetBits(ArgpList(ts), Entry(|ts|, ARG_TYPE_WIDTH)) == 0;
    if 0 !in ts {
      forall k | 0 <= k < |ts| ensures ts[k] != 0 {
        assert ts[k] in ts;
      }
    }
  }

  /** Different lists of nonzero types, of any lengths, are packed differently. */
  lemma ArgpInjective(ts: seq<nat>, us: seq<nat>)
    requires ArgTypes(ts) && ArgTypes(us) && 0 !in ts && 0 !in us && ArgpList(ts) == ArgpList(us)
    ensures ts == us
  {
    WalkEndsAfterArgs(ts, ts);
    WalkEndsAfterArgs(us, ts);
  }

  // ---- The 3-bit lists of the predefined-method table ----

  const METHOD_ARG_BIT_WIDTH: nat := 3
  const METHOD_PREDEF_ARGS_MAX: nat := 4
  const ARG_COUNT_IS_MINIMUM: nat := 0x8000

  predicate MethodTypes(ts: seq<nat>) {
    |ts| <= METHOD_PREDEF_ARGS_MAX && forall k :: 0 <= k < |ts| ==> ts[k] < 8
  }

  /** METHOD_nARGS: the count in the low bits, then the types. */
  function MethodArgs(ts: seq<nat>): nat { Pack([|ts|] + ts, METHOD_ARG_BIT_WIDTH, 32) }

  /** METHOD_GET_ARG_COUNT. */
  function ArgCount(list: nat): nat { Current(list, METHOD_ARG_BIT_WIDTH) }

  /** The result of the k-th use of METHOD_GET_NEXT_TYPE, which advances before it reads. */
  function NextType(list: nat, k: nat): nat
    requires k > 0
    decreases k
  {
    if k == 1 then Current(Advance(list, METHOD_ARG_BIT_WIDTH), METHOD_ARG_BIT_WIDTH)
    else NextType(Advance(list, METHOD_ARG_BIT_WIDTH), k - 1)
  }

  lemma {:induction false} NextTypeIsEntry(list: nat, k: nat)
    requires k > 0
    ensures NextType(list, k) == GetBits(list, Entry(k, METHOD_ARG_BIT_WIDTH))
    decreases k
  {
    var next := Advance(list, METHOD_ARG_BIT_WIDTH);
    if k > 1 {
      NextTypeIsEntry(next, k - 1);
    } else {
      assert GetBits(next, Entry(0, METHOD_ARG_BIT_WIDTH)) == Current(next, METHOD_ARG_BIT_WIDTH);
    }
    AdvanceShiftsEntries(list, METHOD_ARG_BIT_WIDTH, k - 1);
  }

  /** A method entry, with or without arguments, decodes to its argument count and then its
      types, in order, and zeros after them. */
  lemma MethodArgsDecode(ts: seq<nat>)
    requires MethodTypes(ts)
    ensures ArgCount(MethodArgs(ts)) == |ts|
    ensures forall k: nat :: k > 0 ==> NextType(MethodArgs(ts), k) == if k <= |ts| then ts[k - 1] else 0
  {
    var list := MethodArgs(ts);
    CountIsEntry(list);
    MethodArgsEntry(ts, 0);
    forall k: nat | k > 0 ensures NextType(list, k) == if k <= |ts| then ts[k - 1] else 0 {
      MethodArgsEntry(ts, k);
      NextTypeIsEntry(list, k);
    }
  }

  lemma CountIsEntry(list: nat)
    ensures ArgCount(list) == GetBits(list, Entry(0, METHOD_ARG_BIT_WIDTH))
  {
  }

  lemma MethodArgsEntry(ts: seq<nat>, k: nat)
    requires MethodTypes(ts)
    ensures GetBits(MethodArgs(ts), Entry(k, METHOD_ARG_BIT_WIDTH))
         == if k == 0 then |ts| else if k <= |ts| then ts[k - 1] else 0
  {
    var all := [|ts|] + ts;
    assert Pow2(3) == 8;
    PackEntry(all, METHOD_ARG_BIT_WIDTH, 32, k);
  }

  lemma PackHighBit(ts: seq<nat>, w: nat, size: nat, i: nat)
    requires Packable(ts, w, size) && i >= |ts| * w
    ensures !Bit(Pack(ts, w, size), i)
  {
    var k, j := i / w, i % w;
    assert i == k * w + j;
    if k < |ts| {
      MulGap(k, |ts|, w);
    }
    PackBit(ts, w, size, k, j);
  }

  lemma PackFits(ts: seq<nat>, w: nat, size: nat)
    requires Packable(ts, w, size)
    ensures Pack(ts, w, size) < Pow2(|ts| * w)
  {
    forall i: nat | i >= |ts| * w ensures !Bit(Pack(ts, w, size), i) {
      PackHighBit(ts, w, size, i);
    }
    FitsFromBits(Pack(ts, w, size), |ts| * w);
  }

  /** The entry fits the 16-bit ArgumentList member and leaves its top bit free. */
  lemma MethodArgsFit(ts: seq<nat>)
    requires MethodTypes(ts)
    ensures MethodArgs(ts) < ARG_COUNT_IS_MINIMUM
  {
    var all := [|ts|] + ts;
    assert Pow2(3) == 8 && Pow2(15) == 0x8000;
    PackFits(all, METHOD_ARG_BIT_WIDTH, 32);
    Pow2Monotone(|all| * 3, 15);
  }

  lemma MinimumFlagIsTopBit()
    ensures ARG_COUNT_IS_MINIMUM == Pow2(15) == Field(15, 1).Mask()
  {
    assert Pow2(15) == 0x8000 by {
      assert Pow2(7) == 0x80 && Pow2(8) == 0x100;
      Pow2Add(7, 8);
    }
    assert Ones(1) == 1;
    ShlIsMul(1, 15);
  }

  /** The minimum-count flag changes neither the count nor any of the types that an entry can
      hold; only a fifth read, past the four an entry can hold, would see it. */
  lemma MinimumFlagInvisible(list: nat, k: nat)
    requires list < ARG_COUNT_IS_MINIMUM && k > 0
    ensures ArgCount(Or(list, ARG_COUNT_IS_MINIMUM)) == ArgCount(list)
    ensures NextType(Or(list, ARG_COUNT_IS_MINIMUM), k) == NextType(list, k) <==> k != METHOD_PREDEF_ARGS_MAX + 1
  {
    var flagged := Or(list, ARG_COUNT_IS_MINIMUM);
    CountIsEntry(list);
    CountIsEntry(flagged);
    NextTypeIsEntry(list, k);
    NextTypeIsEntry(flagged, k);
    MinimumFlagEntry(list, 0);
    MinimumFlagEntry(list, k);
  }

  lemma MinimumFlagEntry(list: nat, k: nat)
    requires list < ARG_COUNT_IS_MINIMUM
    ensures GetBits(Or(list, ARG_COUNT_IS_MINIMUM), Entry(k, METHOD_ARG_BIT_WIDTH))
         == GetBits(list, Entry(k, METHOD_ARG_BIT_WIDTH))
       <==> k != METHOD_PREDEF_ARGS_MAX + 1
  {
    var flagged, e := Or(list, ARG_COUNT_IS_MINIMUM), Entry(k, METHOD_ARG_BIT_WIDTH);
    MinimumFlagIsTopBit();
    MaskBits(Field(15, 1));
    OrBits(list, ARG_COUNT_IS_MINIMUM);
    HighBits(list, 15);
    GetBitsBits(flagged, e);
    GetBitsBits(list, e);
    if k == 5 {
      assert Bit(GetBits(flagged, e), 0) && !Bit(GetBits(list, e), 0);
    } else {
      SameBits(GetBits(flagged, e), GetBits(list, e));
    }
  }

  // ---- PACKAGE_INFO ----

  /** The expression `(((UINT16) f) << 8) | e` converted to a 16-bit member. */
  function ArgumentListMember(e: Byte, f: Byte): nat { Low(Or(Shl(f, 8), e), 16) }

  lemma StoredMember(e: Byte, f: Byte, host: Host)
    ensures Store(ArgumentListMember(e, f), 2, host) == if host == LittleEndian then [e, f] else [f, e]
  {
    JoinBytes(e, f);
    Pow2Values();
    LowIdentity(ValueLE([e, f]), 16);
    ValueLEBytes([e, f]);
  }

  /** The seven packed bytes of the table entry, written through the name-info layout: four
      name characters, the argument list and the expected types. */
  function PackageInfo(a: Byte, b: Byte, c: Byte, d: Byte, e: Byte, f: Byte, host: Host): (bytes: seq<Byte>)
    ensures |bytes| == 7
  {
    [a, b, c, d] + Store(ArgumentListMember(e, f), 2, host) + [0]
  }

  datatype PackageInfo1 = PackageInfo1(kind: Byte, objectType1: Byte, count1: Byte, objectType2: Byte, count2: Byte, reserved: nat)
  datatype PackageInfo2 = PackageInfo2(kind: Byte, count: Byte, objectType: seq<Byte>, reserved: Byte)
  datatype PackageInfo3 = PackageInfo3(kind: Byte, count: Byte, objectType: seq<Byte>, tailObjectType: Byte, reserved: nat)

  function ReadInfo1(b: seq<Byte>, host: Host): PackageInfo1
    requires |b| == 7
  {
    PackageInfo1(b[0], b[1], b[2], b[3], b[4], Load(b[5..7], host))
  }

  function ReadInfo2(b: seq<Byte>): PackageInfo2
    requires |b| == 7
  {
    PackageInfo2(b[0], b[1], b[2..6], b[6])
  }

  function ReadInfo3(b: seq<Byte>, host: Host): PackageInfo3
    requires |b| == 7
  {
    PackageInfo3(b[0], b[1], b[2..4], b[4], Load(b[5..7], host))
  }

  /** The layouts give back the arguments of the macro, in order. */
  predicate Reads1(bytes: seq<Byte>, host: Host, a: Byte, b: Byte, c: Byte, d: Byte, e: Byte, f: Byte) {
    |bytes| == 7 && ReadInfo1(bytes, host) == PackageInfo1(a, b, c, d, e, f)
  }

  predicate Reads2(bytes: seq<Byte>, a: Byte, b: Byte, c: Byte, d: Byte, e: Byte, f: Byte) {
    |bytes| == 7 && ReadInfo2(bytes) == PackageInfo2(a, b, [c, d, e, f], 0)
  }

  predicate Reads3(bytes: seq<Byte>, host: Host, a: Byte, b: Byte, c: Byte, d: Byte, e: Byte, f: Byte) {
    |bytes| == 7 && ReadInfo3(bytes, host) == PackageInfo3(a, b, [c, d], e, f)
  }

  lemma PackedBytes(a: Byte, b: Byte, c: Byte, d: Byte, e: Byte, f: Byte, host: Host)
    ensures PackageInfo(a, b, c, d, e, f, host)
         == if host == LittleEndian then [a, b, c, d, e, f, 0] else [a, b, c, d, f, e, 0]
  {
    StoredMember(e, f, host);
  }

  lemma LoadLowByte(x: Byte, host: Host)
    ensures Load([x, 0], host) == if host == LittleEndian then x else 256 * x
  {
    assert [x, 0][1..] == [0] && [0][1..] == [];
    assert Reversed([x, 0]) == [0, x] && [0, x][1..] == [x] && [x][1..] == [];
    assert ValueLE([]) == 0 && ValueLE([x]) == x && ValueLE([0]) == 0;
  }

  /** On a little-endian host an entry written through the name-info layout reads back through
      each package-info layout as the arguments of the macro, in order. */
  lemma PackageInfoReadsBack(a: Byte, b: Byte, c: Byte, d: Byte, e: Byte, f: Byte)
    ensures var bytes := PackageInfo(a, b, c, d, e, f, LittleEndian);
            && ReadInfo1(bytes, LittleEndian) == PackageInfo1(a, b, c, d, e, f)
            && ReadInfo2(bytes) == PackageInfo2(a, b, [c, d, e, f], 0)
            && ReadInfo3(bytes, LittleEndian) == PackageInfo3(a, b, [c, d], e, f)
  {
    PackageInfoNeedsLittleEndian(a, b, c, d, e, f, LittleEndian);
  }

  /** The overlay needs a little-endian host: elsewhere the last two arguments change places,
      and the layouts that end in a 16-bit member load it from the wrong end. */
  lemma PackageInfoNeedsLittleEndian(a: Byte, b: Byte, c: Byte, d: Byte, e: Byte, f: Byte, host: Host)
    ensures var bytes := PackageInfo(a, b, c, d, e, f, host);
            && (Reads1(bytes, host, a, b, c, d, e, f) <==> host == LittleEndian || e == f == 0)
            && (Reads2(bytes, a, b, c, d, e, f) <==> host == LittleEndian || e == f)
            && (Reads3(bytes, host, a, b, c, d, e, f) <==> host == LittleEndian || e == f == 0)
  {
    PackedBytes(a, b, c, d, e, f, host);
    var x, y := if host == LittleEndian then e else f, if host == LittleEndian then f else e;
    var bytes: seq<Byte> := [a, b, c, d, x, y, 0];
    assert bytes[5..7] == [y, 0] && bytes[2..4] == [c, d] && bytes[2..6] == [c, d, x, y];
    LoadLowByte(y, host);
    assert [c, d, x, y] == [c, d, e, f] <==> x == e && y == f by {
      assert [c, d, x, y][2] == x && [c, d, x, y][3] == y && [c, d, e, f][2] == e && [c, d, e, f][3] == f;
    }
  }

  /** Equal arguments are not enough: with all six the same and nonzero, for example all one, a
      big-endian host reads the second layout rightly and the other two wrongly. */
  lemma EqualArgumentsMisread(x: Byte)
    requires x > 0
    ensures var bytes := PackageInfo(x, x, x, x, x, x, BigEndian);
            && Reads2(bytes, x, x, x, x, x, x)
            && !Reads1(bytes, BigEndian, x, x, x, x, x, x) && !Reads3(bytes, BigEndian, x, x, x, x, x, x)
  {
    PackageInfoNeedsLittleEndian(x, x, x, x, x, x, BigEndian);
  }
}
