/** Framing of ACPI resource descriptors: the AML byte stream of small and large descriptors
    ended by an end tag, and the walk over the internal resource list. */
module Resources {
  import opened Bits
  import opened Bytes

  // ---- The AML byte stream ----

  const ACPI_RESOURCE_NAME_LARGE: nat := 0x80
  const ACPI_RESOURCE_NAME_SMALL_MASK: nat := 0x78
  const ACPI_RESOURCE_NAME_SMALL_LENGTH_MASK: nat := 0x07
  const ACPI_RESOURCE_NAME_END_TAG: nat := 0x78

  /** A descriptor by its name: for a small one the type bits 6:3 in place, for a large one
      the whole tag byte, including the large bit. */
  datatype Descriptor = Small(name: nat, data: seq<Byte>) | Large(name: nat, data: seq<Byte>)

  predicate Valid(d: Descriptor) {
    match d
    case Small(name, data) => name <= 0x78 && name % 8 == 0 && |data| <= 7
    case Large(name, data) => 0x80 <= name < 0x100 && |data| < 0x1_0000
  }

  predicate IsEndTag(d: Descriptor) { d.Small? && d.name == ACPI_RESOURCE_NAME_END_TAG }

  /** A resource template: valid descriptors of which the last, and only the last, is an end
      tag. */
  predicate IsTemplate(ds: seq<Descriptor>) {
    && ds != []
    && (forall k :: 0 <= k < |ds| ==> Valid(ds[k]))
    && (forall k :: 0 <= k < |ds| ==> (IsEndTag(ds[k]) <==> k == |ds| - 1))
  }

  function EncodeOne(d: Descriptor): seq<Byte>
    requires Valid(d)
  {
    match d
    case Small(name, data) => [name + |data|] + data
    case Large(name, data) => [name] + BytesLE(|data|, 2) + data
  }

  function Encode(ds: seq<Descriptor>): seq<Byte>
    requires forall k :: 0 <= k < |ds| ==> Valid(ds[k])
  {
    if ds == [] then [] else EncodeOne(ds[0]) + Encode(ds[1..])
  }

  datatype Parse<T> = Parsed(value: T, size: nat) | Truncated

  /** Reads one descriptor off the front, by the masks on the tag byte. */
  function DecodeOne(b: seq<Byte>): Parse<Descriptor> {
    if b == [] then Truncated
    else if And(b[0], ACPI_RESOURCE_NAME_LARGE) != 0 then ReadLarge(b)
    else ReadSmall(b, And(b[0], ACPI_RESOURCE_NAME_SMALL_MASK), And(b[0], ACPI_RESOURCE_NAME_SMALL_LENGTH_MASK))
  }

  function ReadSmall(b: seq<Byte>, name: nat, length: nat): Parse<Descriptor> {
    if |b| < 1 + length then Truncated else Parsed(Small(name, b[1..1 + length]), 1 + length)
  }

  function ReadLarge(b: seq<Byte>): Parse<Descriptor>
    requires b != []
  {
    if |b| < 3 then Truncated
    else
      var length := Or(Shl(b[2], 8), b[1]);
      if |b| < 3 + length then Truncated else Parsed(Large(b[0], b[3..3 + length]), 3 + length)
  }

  /** Reads descriptors up to and including the first end tag. */
  function Decode(b: seq<Byte>): Parse<seq<Descriptor>>
    decreases |b|
  {
    DecodeOneInBounds(b);
    match DecodeOne(b)
    case Truncated => Truncated
    case Parsed(d, size) =>
      if IsEndTag(d) then Parsed([d], size)
      else
        match Decode(b[size..])
        case Truncated => Truncated
        case Parsed(ds, rest) => Parsed([d] + ds, size + rest)
  }

  // ---- The tag byte ----

  lemma AndShifted(x: nat, m: nat, k: nat)
    ensures And(x, Shl(m, k)) == Shl(And(Shr(x, k), m), k)
  {
  }

  lemma LargeMask(tag: Byte)
    ensures And(tag, ACPI_RESOURCE_NAME_LARGE) == 0 <==> tag < 0x80
  {
    assert Ones(1) == 1 && Pow2(7) == 128 && Shl(1, 7) == 0x80;
    AndShifted(tag, 1, 7);
    ShrIsDiv(tag, 7);
    AndOnes(Shr(tag, 7), 1);
    ShlIsMul(And(Shr(tag, 7), 1), 7);
  }

  lemma LengthMask(tag: Byte)
    ensures And(tag, ACPI_RESOURCE_NAME_SMALL_LENGTH_MASK) == tag % 8
  {
    assert Ones(3) == 7 && Pow2(3) == 8;
    AndOnes(tag, 3);
  }

  lemma NameMask(tag: Byte)
    requires tag < 0x80
    ensures And(tag, ACPI_RESOURCE_NAME_SMALL_MASK) == tag - tag % 8
  {
    assert Pow2(3) == 8 && Shl(15, 3) == 0x78;
    AndShifted(tag, 15, 3);
    ShrIsDiv(tag, 3);
    LowNibble(Shr(tag, 3));
    ShlIsMul(Shr(tag, 3), 3);
  }

  lemma LowNibble(x: nat)
    requires x < 16
    ensures And(x, 15) == x
  {
    assert Ones(4) == 15 && Pow2(4) == 16;
    AndOnes(x, 4);
  }

  /** The bytes of a descriptor, one kind at a time, with what the masks and the two length
      bytes mean written out. */
  lemma DecodeSmall(b: seq<Byte>)
    requires b != [] && b[0] < 0x80
    ensures DecodeOne(b) == ReadSmall(b, b[0] - b[0] % 8, b[0] % 8)
  {
    LargeMask(b[0]);
    LengthMask(b[0]);
    NameMask(b[0]);
  }

  lemma DecodeLarge(b: seq<Byte>)
    requires b != [] && b[0] >= 0x80
    ensures |b| < 3 ==> DecodeOne(b) == Truncated
    ensures |b| >= 3 ==>
              var length := ValueLE([b[1], b[2]]);
              length < 0x1_0000 && DecodeOne(b) == if |b| < 3 + length then Truncated else Parsed(Large(b[0], b[3..3 + length]), 3 + length)
  {
    LargeMask(b[0]);
    if |b| >= 3 {
      JoinBytes(b[1], b[2]);
      assert ValueLE([b[1], b[2]]) < 0x1_0000 by {
        ValueLEBound([b[1], b[2]]);
        Pow2Values();
      }
    }
  }

  /** How a descriptor is read, in arithmetic: a tag byte below 128 has the length in its low
      three bits and the name in the others; any other one is the name, and two bytes follow
      with the length, the low one first. */
  lemma DecodeOneMeans(b: seq<Byte>)
    ensures b == [] ==> DecodeOne(b) == Truncated
    ensures b != [] && b[0] < 0x80 ==>
              var length := b[0] % 8;
              DecodeOne(b) == if |b| < 1 + length then Truncated else Parsed(Small(b[0] - length, b[1..1 + length]), 1 + length)
    ensures b != [] && b[0] >= 0x80 && |b| < 3 ==> DecodeOne(b) == Truncated
    ensures |b| >= 3 && b[0] >= 0x80 ==>
              var length: nat := b[1] + 256 * (b[2] as int);
              DecodeOne(b) == if |b| < 3 + length then Truncated else Parsed(Large(b[0], b[3..3 + length]), 3 + length)
  {
    if b == [] {
    } else if b[0] < 0x80 {
      DecodeSmall(b);
    } else {
      DecodeLarge(b);
      if |b| >= 3 {
        JoinBytes(b[1], b[2]);
      }
    }
  }

  /** The end tag is the byte 0x79 and a checksum byte. */
  lemma EndTagBytes(checksum: Byte, rest: seq<Byte>)
    ensures Decode([0x79, checksum] + rest) == Parsed([Small(0x78, [checksum])], 2)
  {
    var b: seq<Byte> := [0x79, checksum] + rest;
    DecodeSmall(b);
    assert b[1..2] == [checksum];
    DecodeStops(b, Small(0x78, [checksum]), 2);
  }

  lemma DecodeStops(b: seq<Byte>, d: Descriptor, size: nat)
    requires DecodeOne(b) == Parsed(d, size) && IsEndTag(d)
    ensures Decode(b) == Parsed([d], size)
  {
  }

  /** A descriptor read off any bytes lies within them, is valid, and encodes to exactly the
      bytes it was read from. */
  lemma DecodeOneInBounds(b: seq<Byte>)
    ensures DecodeOne(b).Parsed? ==>
              && 0 < DecodeOne(b).size <= |b|
              && Valid(DecodeOne(b).value)
              && EncodeOne(DecodeOne(b).value) == b[..DecodeOne(b).size]
  {
    if b == [] {
    } else if b[0] < 0x80 {
      DecodeSmall(b);
      SmallEncodes(b, b[0] % 8);
    } else {
      DecodeLarge(b);
      if |b| >= 3 {
        var length := ValueLE([b[1], b[2]]);
        LargeEncodes(b, length);
      }
    }
  }

  lemma SmallEncodes(b: seq<Byte>, length: nat)
    requires b != [] && b[0] < 0x80 && length == b[0] % 8
    ensures 1 + length <= |b| ==>
              && Valid(Small(b[0] - length, b[1..1 + length]))
              && EncodeOne(Small(b[0] - length, b[1..1 + length])) == b[..1 + length]
  {
  }

  lemma LargeEncodes(b: seq<Byte>, length: nat)
    requires |b| >= 3 && b[0] >= 0x80 && length == ValueLE([b[1], b[2]]) < 0x1_0000
    ensures 3 + length <= |b| ==> EncodeOne(Large(b[0], b[3..3 + length])) == b[..3 + length]
  {
  }

  lemma EncodeOneDecodes(d: Descriptor, rest: seq<Byte>)
    requires Valid(d)
    ensures DecodeOne(EncodeOne(d) + rest) == Parsed(d, |EncodeOne(d)|)
  {
    match d
    case Small(name, data) => EncodeSmallDecodes(name, data, rest);
    case Large(name, data) => EncodeLargeDecodes(name, data, rest);
  }

  lemma EncodeSmallDecodes(name: nat, data: seq<Byte>, rest: seq<Byte>)
    requires Valid(Small(name, data))
    ensures DecodeOne(EncodeOne(Small(name, data)) + rest) == Parsed(Small(name, data), 1 + |data|)
  {
    var b := EncodeOne(Small(name, data)) + rest;
    DecodeSmall(b);
    DivModUnique(name + |data|, 8, name / 8, |data|);
    assert b[1..1 + |data|] == data;
  }

  lemma EncodeLargeDecodes(name: nat, data: seq<Byte>, rest: seq<Byte>)
    requires Valid(Large(name, data))
    ensures DecodeOne(EncodeOne(Large(name, data)) + rest) == Parsed(Large(name, data), 3 + |data|)
  {
    var b := EncodeOne(Large(name, data)) + rest;
    DecodeLarge(b);
    assert [b[1], b[2]] == BytesLE(|data|, 2);
    assert ValueLE(BytesLE(|data|, 2)) == |data| by {
      Pow2Values();
      BytesLEValue(|data|, 2);
      LowIdentity(|data|, 16);
    }
    assert b[3..3 + |data|] == data;
  }

  // ---- The stream ----

  lemma EndTagTemplate(d: Descriptor)
    requires Valid(d) && IsEndTag(d)
    ensures IsTemplate([d]) && Encode([d]) == EncodeOne(d)
  {
  }

  lemma DecodeCons(d: Descriptor, tail: seq<Byte>, ds: seq<Descriptor>, n: nat)
    requires Valid(d) && !IsEndTag(d) && Decode(tail) == Parsed(ds, n)
    ensures Decode(EncodeOne(d) + tail) == Parsed([d] + ds, |EncodeOne(d)| + n)
  {
    var b := EncodeOne(d) + tail;
    EncodeOneDecodes(d, tail);
    assert b[|EncodeOne(d)|..] == tail;
  }

  /** Encoding a template and decoding it, whatever bytes follow, returns the template and
      consumes exactly its bytes. */
  lemma {:induction false} EncodeDecodes(ds: seq<Descriptor>, rest: seq<Byte>)
    requires IsTemplate(ds)
    ensures Decode(Encode(ds) + rest) == Parsed(ds, |Encode(ds)|)
    decreases |ds|
  {
    if |ds| == 1 {
      assert ds == [ds[0]];
      EndTagTemplate(ds[0]);
      EncodeOneDecodes(ds[0], rest);
    } else {
      TemplateTail(ds);
      EncodeDecodes(ds[1..], rest);
      DecodeCons(ds[0], Encode(ds[1..]) + rest, ds[1..], |Encode(ds[1..])|);
      Reassociate(EncodeOne(ds[0]), Encode(ds[1..]), rest);
    }
  }

  lemma Reassociate(a: seq<Byte>, b: seq<Byte>, c: seq<Byte>)
    ensures a + b + c == a + (b + c)
  {
  }

  lemma TemplateTail(ds: seq<Descriptor>)
    requires IsTemplate(ds) && |ds| > 1
    ensures ds == [ds[0]] + ds[1..] && IsTemplate(ds[1..])
  {
  }

  lemma ConsDecoded(b: seq<Byte>, d: Descriptor, size: nat, ds: seq<Descriptor>, n: nat)
    requires Valid(d) && !IsEndTag(d) && IsTemplate(ds) && size + n <= |b|
    requires EncodeOne(d) == b[..size] && Encode(ds) == b[size..][..n]
    ensures IsTemplate([d] + ds) && Encode([d] + ds) == b[..size + n]
  {
  }

  /** Whatever bytes are decoded, a success stays within the buffer, yields a template, and the
      bytes consumed are exactly the encoding of that template. */
  lemma {:induction false} DecodeEncodes(b: seq<Byte>)
    requires Decode(b).Parsed?
    ensures IsTemplate(Decode(b).value) && Decode(b).size <= |b|
    ensures Encode(Decode(b).value) == b[..Decode(b).size]
    decreases |b|
  {
    DecodeOneInBounds(b);
    var Parsed(d, size) := DecodeOne(b);
    if IsEndTag(d) {
      EndTagTemplate(d);
    } else {
      DecodeEncodes(b[size..]);
      var Parsed(ds, n) := Decode(b[size..]);
      assert Decode(b) == Parsed([d] + ds, size + n);
      ConsDecoded(b, d, size, ds, n);
    }
  }

  /** Decoding succeeds with a template iff the buffer begins with its encoding; so it fails
      iff the buffer begins with no complete template at all. */
  lemma DecodeExact(b: seq<Byte>, ds: seq<Descriptor>)
    requires IsTemplate(ds)
    ensures Decode(b) == Parsed(ds, |Encode(ds)|) <==> Encode(ds) <= b
    ensures Decode(b) == Truncated ==> !(Encode(ds) <= b)
  {
    var e := Encode(ds);
    if e <= b {
      assert b == e + b[|e|..];
      EncodeDecodes(ds, b[|e|..]);
    } else if Decode(b) == Parsed(ds, |e|) {
      DecodeEncodes(b);
    }
  }

  // ---- The internal resource list ----

  const ACPI_RESOURCE_TYPE_END_TAG: nat := 7

  /** One ACPI_RESOURCE: a 32-bit type, a 32-bit length that counts the whole structure, and
      the data. */
  datatype Resource = Resource(kind: nat, data: seq<Byte>) {
    function Length(): nat { 8 + |data| }

    predicate Valid() { kind < 0x1_0000_0000 && Length() < 0x1_0000_0000 }

    function InMemory(): (b: seq<Byte>)
      ensures |b| == Length()
    {
      BytesLE(kind, 4) + BytesLE(Length(), 4) + data
    }
  }

  /** Resources one after the other; the last, and only the last, is an end tag. */
  predicate IsList(rs: seq<Resource>) {
    && rs != []
    && (forall k :: 0 <= k < |rs| ==> rs[k].Valid())
    && (forall k :: 0 <= k < |rs| ==> (rs[k].kind == ACPI_RESOURCE_TYPE_END_TAG <==> k == |rs| - 1))
  }

  function Images(rs: seq<Resource>): (bs: seq<seq<Byte>>)
    ensures |bs| == |rs| && forall k :: 0 <= k < |rs| ==> bs[k] == rs[k].InMemory()
  {
    seq(|rs|, k requires 0 <= k < |rs| => rs[k].InMemory())
  }

  function Joined<T>(bs: seq<seq<T>>): seq<T> { if bs == [] then [] else bs[0] + Joined(bs[1..]) }

  function Concatenated(rs: seq<Resource>): seq<Byte> { Joined(Images(rs)) }

  /** Where each resource starts when the first one is at address `at`. */
  function Starts(at: nat, rs: seq<Resource>): seq<nat>
    decreases |rs|
  {
    if rs == [] then [] else [at] + Starts(at + rs[0].Length(), rs[1..])
  }

  function Load32(memory: seq<Byte>, at: nat): nat
    requires at + 4 <= |memory|
  {
    ValueLE(memory[at..at + 4])
  }

  /** ACPI_NEXT_RESOURCE. */
  function NextResource(memory: seq<Byte>, res: nat): nat
    requires res + 8 <= |memory|
  {
    res + Load32(memory, res + 4)
  }

  datatype Visit = Visited(starts: seq<nat>) | LeftMemory | Stuck

  /** Follows ACPI_NEXT_RESOURCE from `res` to the end tag. Memory that is no resource list may
      lead the walk out of the buffer, or to a resource whose length is zero. */
  function Walk(memory: seq<Byte>, res: nat): Visit
    decreases |memory| - res
  {
    if res + 8 > |memory| then LeftMemory
    else if Load32(memory, res) == ACPI_RESOURCE_TYPE_END_TAG then Visited([res])
    else if NextResource(memory, res) == res then Stuck
    else
      match Walk(memory, NextResource(memory, res))
      case Visited(starts) => Visited([res] + starts)
      case v => v
  }

  /** Memory holds the bytes `b` from `at` on. */
  predicate HeldAt<T(==)>(memory: seq<T>, at: nat, b: seq<T>) {
    at + |b| <= |memory| && memory[at..at + |b|] == b
  }

  lemma HeldSplit<T>(memory: seq<T>, at: nat, a: seq<T>, b: seq<T>)
    requires HeldAt(memory, at, a + b)
    ensures HeldAt(memory, at, a) && HeldAt(memory, at + |a|, b)
  {
    assert memory[at..at + |a|] == (a + b)[..|a|] == a;
    assert memory[at + |a|..at + |a + b|] == (a + b)[|a|..] == b;
  }

  lemma Load32ReadsBack(memory: seq<Byte>, at: nat, v: nat)
    requires v < 0x1_0000_0000 && HeldAt(memory, at, BytesLE(v, 4))
    ensures Load32(memory, at) == v
  {
    BytesLEValue(v, 4);
    Pow2Values();
    LowIdentity(v, 32);
  }

  /** Memory holds the header of `r` at `res`. */
  predicate HeaderAt(memory: seq<Byte>, res: nat, r: Resource) {
    res + 8 <= |memory| && Load32(memory, res) == r.kind && Load32(memory, res + 4) == r.Length()
  }

  lemma HeaderReadsBack(memory: seq<Byte>, at: nat, r: Resource)
    requires r.Valid() && HeldAt(memory, at, r.InMemory())
    ensures HeaderAt(memory, at, r)
  {
    HeldSplit(memory, at, BytesLE(r.kind, 4) + BytesLE(r.Length(), 4), r.data);
    HeldSplit(memory, at, BytesLE(r.kind, 4), BytesLE(r.Length(), 4));
    Load32ReadsBack(memory, at, r.kind);
    Load32ReadsBack(memory, at + 4, r.Length());
  }

  /** In memory a resource is its type, its length and its data, four bytes, four bytes, and the
      rest, and a list ends at type 7. */
  lemma ResourceImage(r: Resource)
    requires r.Valid()
    ensures |r.InMemory()| == 8 + |r.data| && r.InMemory()[8..] == r.data
    ensures ValueLE(r.InMemory()[..4]) == r.kind && ValueLE(r.InMemory()[4..8]) == 8 + |r.data|
    ensures r.kind == 7 ==> Walk(r.InMemory(), 0) == Visited([0])
  {
    var b := r.InMemory();
    assert b[..4] == BytesLE(r.kind, 4) && b[4..8] == BytesLE(r.Length(), 4);
    assert HeldAt(b, 0, b);
    HeaderReadsBack(b, 0, r);
    assert b[0..4] == b[..4];
  }

  lemma WalkStops(memory: seq<Byte>, res: nat)
    requires res + 8 <= |memory| && Load32(memory, res) == ACPI_RESOURCE_TYPE_END_TAG
    ensures Walk(memory, res) == Visited([res])
  {
  }

  lemma WalkSteps(memory: seq<Byte>, res: nat, starts: seq<nat>)
    requires res + 8 <= |memory| && Load32(memory, res) != ACPI_RESOURCE_TYPE_END_TAG
    requires NextResource(memory, res) > res && Walk(memory, NextResource(memory, res)) == Visited(starts)
    ensures Walk(memory, res) == Visited([res] + starts)
  {
  }

  lemma ListTail(rs: seq<Resource>)
    requires IsList(rs)
    ensures |rs| == 1 <==> rs[0].kind == ACPI_RESOURCE_TYPE_END_TAG
    ensures |rs| > 1 ==> IsList(rs[1..])
  {
  }

  /** Memory holds the headers of the resources `rs`, one after the other, from `res` on. */
  predicate ListAt(memory: seq<Byte>, res: nat, rs: seq<Resource>)
    decreases |rs|
  {
    rs == [] || (HeaderAt(memory, res, rs[0]) && ListAt(memory, res + rs[0].Length(), rs[1..]))
  }

  lemma ListAtCons(memory: seq<Byte>, res: nat, rs: seq<Resource>)
    requires rs != [] && HeaderAt(memory, res, rs[0]) && ListAt(memory, res + rs[0].Length(), rs[1..])
    ensures ListAt(memory, res, rs)
  {
  }

  /** Memory holds the pieces one after the other. */
  predicate PiecesAt<T(==)>(memory: seq<T>, at: nat, bs: seq<seq<T>>)
    decreases |bs|
  {
    bs == [] || (HeldAt(memory, at, bs[0]) && PiecesAt(memory, at + |bs[0]|, bs[1..]))
  }

  lemma {:induction false} JoinedPiecesAt<T>(memory: seq<T>, at: nat, bs: seq<seq<T>>)
    requires HeldAt(memory, at, Joined(bs))
    ensures PiecesAt(memory, at, bs)
    decreases |bs|
  {
    if bs != [] {
      HeldSplit(memory, at, bs[0], Joined(bs[1..]));
      JoinedPiecesAt(memory, at + |bs[0]|, bs[1..]);
    }
  }

  lemma PiecesTail(memory: seq<Byte>, at: nat, rs: seq<Resource>)
    requires rs != [] && PiecesAt(memory, at, Images(rs))
    ensures HeldAt(memory, at, rs[0].InMemory()) && PiecesAt(memory, at + rs[0].Length(), Images(rs[1..]))
  {
    assert Images(rs)[1..] == Images(rs[1..]);
  }

  lemma {:induction false} PiecesListAt(memory: seq<Byte>, at: nat, rs: seq<Resource>)
    requires (forall r :: r in rs ==> r.Valid()) && PiecesAt(memory, at, Images(rs))
    ensures ListAt(memory, at, rs)
    decreases |rs|
  {
    if rs != [] {
      PiecesTail(memory, at, rs);
      HeaderReadsBack(memory, at, rs[0]);
      PiecesListAt(memory, at + rs[0].Length(), rs[1..]);
      ListAtCons(memory, at, rs);
    }
  }

  lemma {:induction false} ListAtWalk(memory: seq<Byte>, res: nat, rs: seq<Resource>)
    requires IsList(rs) && ListAt(memory, res, rs)
    ensures Walk(memory, res) == Visited(Starts(res, rs))
    decreases |rs|
  {
    ListTail(rs);
    if |rs| == 1 {
      WalkStops(memory, res);
      assert Starts(res + rs[0].Length(), rs[1..]) == [];
    } else {
      ListAtWalk(memory, res + rs[0].Length(), rs[1..]);
      WalkSteps(memory, res, Starts(res + rs[0].Length(), rs[1..]));
    }
  }

  /** For every resource list, wherever it lies in memory, iterating ACPI_NEXT_RESOURCE visits
      exactly the starts of the resources, in order, and ends at the end tag. */
  lemma WalkVisitsAll(before: seq<Byte>, rs: seq<Resource>, rest: seq<Byte>)
    requires IsList(rs)
    ensures Walk(before + Concatenated(rs) + rest, |before|) == Visited(Starts(|before|, rs))
  {
    var memory := before + Concatenated(rs) + rest;
    JoinedPiecesAt(memory, |before|, Images(rs));
    PiecesListAt(memory, |before|, rs);
    ListAtWalk(memory, |before|, rs);
  }

  /** Conversely, on any memory a completed walk has started at `res`, moved from each resource
      to the next one by its length, stayed in bounds, and met no end tag before the last. */
  lemma {:induction false} WalkFollowsLengths(memory: seq<Byte>, res: nat)
    requires Walk(memory, res).Visited?
    ensures var s := Walk(memory, res).starts;
            && s != [] && s[0] == res
            && (forall k :: 0 <= k < |s| ==> s[k] + 8 <= |memory|)
            && (forall k :: 0 <= k < |s| ==> (Load32(memory, s[k]) == ACPI_RESOURCE_TYPE_END_TAG <==> k == |s| - 1))
            && (forall k :: 0 <= k < |s| - 1 ==> s[k] < s[k + 1] == NextResource(memory, s[k]))
    decreases |memory| - res
  {
    if Load32(memory, res) != ACPI_RESOURCE_TYPE_END_TAG {
      WalkFollowsLengths(memory, NextResource(memory, res));
      var s, t := Walk(memory, res).starts, Walk(memory, NextResource(memory, res)).starts;
      assert s == [res] + t;
      forall k | 0 < k < |s| ensures s[k] == t[k - 1] {}
    }
  }

  /** The resource at `at` is an end tag: its first four bytes spell 7. */
  predicate EndsAt(memory: seq<Byte>, at: nat)
    requires at + 8 <= |memory|
  {
    ValueLE(memory[at..at + 4]) == 7
  }

  /** The resource at `at` leads on to `next`, as far as its second four bytes spell. */
  predicate Leads(memory: seq<Byte>, at: nat, next: nat)
    requires at + 8 <= |memory|
  {
    at < next == at + ValueLE(memory[at + 4..at + 8])
  }

  /** A chain of resources from `res` to the first end tag. */
  predicate Chain(memory: seq<Byte>, res: nat, starts: seq<nat>) {
    && starts != [] && starts[0] == res
    && (forall k :: 0 <= k < |starts| ==> starts[k] + 8 <= |memory|)
    && (forall k :: 0 <= k < |starts| ==> (EndsAt(memory, starts[k]) <==> k == |starts| - 1))
    && (forall k :: 0 <= k < |starts| - 1 ==> Leads(memory, starts[k], starts[k + 1]))
  }

  /** On any memory the walk ends at an end tag iff there is such a chain, and visits it. */
  lemma WalkIsChain(memory: seq<Byte>, res: nat, starts: seq<nat>)
    ensures Walk(memory, res) == Visited(starts) <==> Chain(memory, res, starts)
  {
    if Walk(memory, res) == Visited(starts) {
      WalkFollowsLengths(memory, res);
    }
    if Chain(memory, res, starts) {
      ChainWalked(memory, res, starts);
    }
  }

  lemma {:induction false} ChainWalked(memory: seq<Byte>, res: nat, starts: seq<nat>)
    requires Chain(memory, res, starts)
    ensures Walk(memory, res) == Visited(starts)
    decreases |starts|
  {
    if |starts| == 1 {
      WalkStops(memory, res);
    } else {
      ChainTail(memory, res, starts);
      ChainWalked(memory, starts[1], starts[1..]);
      ChainHead(memory, res, starts[1]);
      WalkSteps(memory, res, starts[1..]);
    }
  }

  lemma ChainHead(memory: seq<Byte>, res: nat, next: nat)
    requires res + 8 <= |memory| && !EndsAt(memory, res) && Leads(memory, res, next)
    ensures Load32(memory, res) != ACPI_RESOURCE_TYPE_END_TAG && res < NextResource(memory, res) == next
  {
  }

  lemma ChainTail(memory: seq<Byte>, res: nat, starts: seq<nat>)
    requires Chain(memory, res, starts) && |starts| > 1
    ensures Chain(memory, starts[1], starts[1..]) && starts == [res] + starts[1..]
    ensures res + 8 <= |memory| && !EndsAt(memory, res) && Leads(memory, res, starts[1])
  {
    assert starts[0] == res;
    forall k | 0 <= k < |starts[1..]| ensures starts[1..][k] == starts[k + 1] {}
  }

  /** Given an aligned first resource, every resource of a list is aligned iff the length of
      every resource but the last is a multiple of the alignment. */
  lemma {:induction false} WalkAligned(at: nat, rs: seq<Resource>, word: nat)
    requires word > 0 && at % word == 0 && rs != []
    ensures (forall k :: 0 <= k < |Starts(at, rs)| ==> Starts(at, rs)[k] % word == 0)
       <==> (forall k :: 0 <= k < |rs| - 1 ==> rs[k].Length() % word == 0)
    decreases |rs|
  {
    var s := Starts(at, rs);
    if |rs| > 1 {
      var next := at + rs[0].Length();
      var t := Starts(next, rs[1..]);
      assert s == [at] + t && t[0] == next;
      AddMultiple(at, rs[0].Length(), word);
      if next % word == 0 {
        WalkAligned(next, rs[1..], word);
        assert (forall k :: 0 <= k < |s| ==> s[k] % word == 0) <==> (forall k :: 0 <= k < |t| ==> t[k] % word == 0) by {
          forall k | 0 <= k < |t| ensures t[k] == s[k + 1] {}
        }
        assert (forall k :: 0 <= k < |rs| - 1 ==> rs[k].Length() % word == 0)
          <==> (forall k :: 0 <= k < |rs[1..]| - 1 ==> rs[1..][k].Length() % word == 0) by {
          forall k | 0 <= k < |rs[1..]| ensures rs[1..][k] == rs[k + 1] {}
        }
      } else {
        assert s[1] % word != 0 && rs[0].Length() % word != 0;
      }
    } else {
      assert rs[1..] == [];
    }
  }

  lemma AddMultiple(a: nat, b: nat, m: nat)
    requires m > 0 && a % m == 0
    ensures (a + b) % m == b % m
  {
    var q := a / m;
    assert a == q * m;
    assert b == b / m * m + b % m;
    assert a + b == (q + b / m) * m + b % m;
    DivModUnique(a + b, m, q + b / m, b % m);
  }
}
