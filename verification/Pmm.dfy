/** The physical memory manager of HAL9000: frames of 4 KB handed out first fit from the
    allocation bitmap, in which a set bit means a reserved frame. */
module Pmm {
  import opened Bitmaps
  import opened Options

  const PAGE_SIZE: nat := 0x1000
  const MB_SIZE: nat := 0x10_0000

  // ---- One request ----

  /** The frame at which a request is placed, if it is granted. */
  function Placement(bits: seq<bool>, noOfFrames: nat, minPhysAddr: nat): Option<nat> {
    if noOfFrames == 0 || minPhysAddr % PAGE_SIZE != 0 then None
    else FirstFit(bits, minPhysAddr / PAGE_SIZE, noOfFrames, false)
  }

  /** Some frame of the `n` frames from `i` on is reserved. */
  predicate Taken(bits: seq<bool>, i: nat, n: nat) { exists f :: i <= f < i + n && f < |bits| && bits[f] }

  /** A request for something at a frame boundary, for which there are free frames enough in a
      row from there on. */
  predicate RoomFor(bits: seq<bool>, noOfFrames: nat, minPhysAddr: nat) {
    && noOfFrames > 0 && minPhysAddr % 0x1000 == 0
    && exists i :: minPhysAddr / 0x1000 <= i <= |bits| - noOfFrames && !Taken(bits, i, noOfFrames)
  }

  /** The frames at address `addr` are the lowest ones that will do. */
  predicate IsLowest(bits: seq<bool>, noOfFrames: nat, minPhysAddr: nat, addr: nat) {
    && addr % 0x1000 == 0 && minPhysAddr <= addr && addr / 0x1000 + noOfFrames <= |bits|
    && !Taken(bits, addr / 0x1000, noOfFrames)
    && forall i :: minPhysAddr / 0x1000 <= i < addr / 0x1000 ==> Taken(bits, i, noOfFrames)
  }

  /** A request is granted iff there is room for it, and then it gets the lowest place. */
  lemma PlacementIsLowest(bits: seq<bool>, noOfFrames: nat, minPhysAddr: nat)
    ensures match Placement(bits, noOfFrames, minPhysAddr)
            case None => !RoomFor(bits, noOfFrames, minPhysAddr)
            case Some(r) => RoomFor(bits, noOfFrames, minPhysAddr) && IsLowest(bits, noOfFrames, minPhysAddr, r * PAGE_SIZE)
  {
    FirstFitFinds(bits, minPhysAddr / PAGE_SIZE, noOfFrames, false);
    forall i: nat | i + noOfFrames <= |bits| ensures RunAt(bits, i, noOfFrames, false) <==> !Taken(bits, i, noOfFrames) {}
  }

  // ---- The memory map ----

  /** An entry of the memory map: where it begins, how long it is, and whether it is a valid
      entry that describes usable memory. */
  datatype Region = Region(base: nat, length: nat, usable: bool)

  /** The first frame at or above the base, and the number of frames, that initialisation
      releases for a region. */
  function ReleasedFrames(r: Region): Block {
    Block((r.base + PAGE_SIZE - 1) / PAGE_SIZE, r.length / PAGE_SIZE)
  }

  /** Frame `f` lies entirely within the region. */
  predicate Inside(r: Region, f: nat) {
    r.base <= f * PAGE_SIZE && (f + 1) * PAGE_SIZE <= r.base + r.length
  }

  /** Distance from the base of a region to the next frame boundary. */
  function Padding(r: Region): nat { (r.base + PAGE_SIZE - 1) / PAGE_SIZE * PAGE_SIZE - r.base }

  /** Initialisation means to free exactly the frames inside usable memory. It does so for a
      region exactly when the region is shorter than a frame or the bytes left over by the
      division of its length cover the distance to its first frame boundary; otherwise it also
      frees the frame that straddles the end of the region. */
  lemma ReleasesExactlyInside(r: Region)
    ensures (forall f: nat :: ReleasedFrames(r).Has(f) <==> Inside(r, f))
       <==> r.length < PAGE_SIZE || Padding(r) <= r.length % PAGE_SIZE
  {
    var b := ReleasedFrames(r);
    var last := b.start + b.count - 1;
    if b.count > 0 && Padding(r) > r.length % PAGE_SIZE {
      assert b.Has(last) && !Inside(r, last);
    } else {
      forall f: nat ensures b.Has(f) <==> Inside(r, f) {}
    }
  }

  /** No region yields fewer frames than lie inside it. */
  lemma ReleasesAllInside(r: Region, f: nat)
    requires Inside(r, f)
    ensures ReleasedFrames(r).Has(f)
  {
  }

  /** A region of one page that begins in the middle of a page: the frame released for it lies
      half outside. */
  lemma StraddlingRegion()
    ensures var r := Region(0x10_0800, 0x1000, true);
            ReleasedFrames(r) == Block(0x101, 1) && !Inside(r, 0x101)
  {
  }

  /** Initialisation frees usable memory above 1 MB only. */
  predicate Considered(r: Region) { r.usable && r.base >= MB_SIZE }

  predicate Frees(r: Region, f: nat) { Considered(r) && ReleasedFrames(r).Has(f) }

  predicate Freed(regions: seq<Region>, f: nat) {
    exists k :: 0 <= k < |regions| && Frees(regions[k], f)
  }

  /** The frame and the region have a byte in common. */
  predicate Overlaps(r: Region, f: nat) { f * PAGE_SIZE < r.base + r.length && r.base < (f + 1) * PAGE_SIZE }

  /** The bitmap that initialisation is for: a free frame overlaps a valid usable region above
      1 MB, and every frame that lies within one is free. */
  ghost predicate FreesUsable(regions: seq<Region>, bits: seq<bool>) {
    && (forall f :: 0 <= f < |bits| && !bits[f] ==>
          exists k :: 0 <= k < |regions| && regions[k].usable && regions[k].base >= 0x10_0000 && Overlaps(regions[k], f))
    && (forall f, k :: 0 <= f < |bits| && 0 <= k < |regions| && regions[k].usable && regions[k].base >= 0x10_0000 ==>
          (Inside(regions[k], f) ==> !bits[f]))
  }

  lemma FreedIsUsable(regions: seq<Region>, bits: seq<bool>)
    requires forall f :: 0 <= f < |bits| ==> (bits[f] <==> !Freed(regions, f))
    ensures FreesUsable(regions, bits)
  {
    forall f | 0 <= f < |bits| && !bits[f]
      ensures exists k :: 0 <= k < |regions| && regions[k].usable && regions[k].base >= 0x10_0000 && Overlaps(regions[k], f)
    {
      var k :| 0 <= k < |regions| && Frees(regions[k], f);
      assert Overlaps(regions[k], f);
    }
    forall f, k | 0 <= f < |bits| && 0 <= k < |regions| && regions[k].usable && regions[k].base >= 0x10_0000 && Inside(regions[k], f)
      ensures !bits[f]
    {
      ReleasesAllInside(regions[k], f);
      assert Frees(regions[k], f);
    }
  }

  // ---- The size of memory ----

  function End(r: Region): nat { r.base + r.length }

  /** The end of the highest region of the map, of whatever kind. */
  function Highest(regions: seq<Region>): (h: nat)
    ensures forall r :: r in regions ==> End(r) <= h
    ensures h == 0 || exists r :: r in regions && End(r) == h
  {
    if regions == [] then 0
    else
      var rest, last := Highest(regions[..|regions| - 1]), regions[|regions| - 1];
      assert regions == regions[..|regions| - 1] + [last];
      if End(last) > rest then End(last) else rest
  }

  /** _PmmDetermineMemoryLimits, as far as the highest address present is concerned. */
  method DetermineHighest(regions: seq<Region>) returns (highest: nat)
    ensures highest == Highest(regions)
  {
    highest := 0;
    for i := 0 to |regions|
      invariant highest == Highest(regions[..i])
    {
      assert regions[..i + 1][..i] == regions[..i];
      if regions[i].base + regions[i].length > highest {
        highest := regions[i].base + regions[i].length;
      }
    }
    assert regions[..|regions|] == regions;
  }

  function FrameCount(regions: seq<Region>): nat { Highest(regions) / PAGE_SIZE }

  /** The assertions met when the frames of a region are released hold, in a memory of `n`
      frames. */
  predicate FitsMemory(r: Region, n: nat) {
    Considered(r) ==> ReleasedFrames(r).start < n && ReleasedFrames(r).start + ReleasedFrames(r).count <= n
  }

  /** Since the size of memory comes from the same map, no region has more frames than memory:
      the range assertion of the bitmap then demands exactly that the released frames exist. */
  lemma NoMoreFramesThanMemory(regions: seq<Region>, r: Region)
    requires r in regions && FrameCount(regions) <= MAX_DWORD
    ensures var b, n := ReleasedFrames(r), FrameCount(regions);
            b.count <= n && (RangeAsserted(n, b.start, b.count) <==> b.start < n && b.start + b.count <= n)
  {
    assert r.length <= End(r) <= Highest(regions);
    RangeAssertedExactly(FrameCount(regions), ReleasedFrames(r).start, ReleasedFrames(r).count);
  }

  /** End of the last frame released for a region, or of its first one if there is none. */
  function Needed(r: Region): nat {
    var b := ReleasedFrames(r);
    (b.start + if b.count == 0 then 1 else b.count) * PAGE_SIZE
  }

  /** Which maps initialisation accepts: for every usable region above 1 MB, some region of the
      map reaches as far as the last frame released for it. */
  lemma MapsThatFit(regions: seq<Region>, r: Region)
    requires r in regions && Considered(r)
    ensures FitsMemory(r, FrameCount(regions)) <==> exists u :: u in regions && Needed(r) <= End(u)
  {
    var h, b := Highest(regions), ReleasedFrames(r);
    var last := b.start + if b.count == 0 then 1 else b.count;
    assert FitsMemory(r, FrameCount(regions)) <==> last <= h / PAGE_SIZE;
    assert last <= h / PAGE_SIZE <==> last * PAGE_SIZE <= h;
  }

  /** The region at the top of memory fits iff it holds a page and releases only frames that
      lie inside it. */
  lemma TopmostFits(regions: seq<Region>, r: Region)
    requires r in regions && Considered(r) && End(r) == Highest(regions)
    ensures FitsMemory(r, FrameCount(regions)) <==> r.length >= PAGE_SIZE && Padding(r) <= r.length % PAGE_SIZE
  {
  }

  /** A region that holds a page and releases only frames inside it fits in any map. */
  lemma WholeRegionsFit(regions: seq<Region>, r: Region)
    requires r in regions && r.length >= PAGE_SIZE && Padding(r) <= r.length % PAGE_SIZE
    ensures FitsMemory(r, FrameCount(regions))
  {
    assert End(r) <= Highest(regions);
  }

  /** Half a page of memory at the top of the map stops initialisation. */
  lemma HalfAPageStops()
    ensures var r := Region(0x10_0000, 0x800, true); !FitsMemory(r, FrameCount([r]))
  {
    var r := Region(0x10_0000, 0x800, true);
    assert r in [r] && Highest([r]) == End(r);
    TopmostFits([r], r);
  }

  /** The map passes every assertion of initialisation. */
  predicate Boots(regions: seq<Region>) {
    0 < FrameCount(regions) <= MAX_DWORD && forall r :: r in regions ==> FitsMemory(r, FrameCount(regions))
  }

  /** Which maps boot: those with at least one frame, and no more than 32 bits count, in which
      some region reaches as far as is needed for each usable region above 1 MB. */
  lemma MapsThatBoot(regions: seq<Region>)
    ensures Boots(regions) <==>
              && 0x1000 <= Highest(regions) < 0x1000 * 0x1_0000_0000
              && forall r :: r in regions && r.usable && r.base >= 0x10_0000 ==> exists u :: u in regions && Needed(r) <= End(u)
  {
    forall r | r in regions && r.usable && r.base >= 0x10_0000
      ensures FitsMemory(r, FrameCount(regions)) <==> exists u :: u in regions && Needed(r) <= End(u)
    {
      MapsThatFit(regions, r);
    }
  }

  lemma FreedStep(regions: seq<Region>, i: nat, f: nat)
    requires i < |regions|
    ensures Freed(regions[..i + 1], f) <==> Freed(regions[..i], f) || Frees(regions[i], f)
  {
    var before, now := regions[..i], regions[..i + 1];
    if k :| 0 <= k < |now| && Frees(now[k], f) {
      assert k == i || Frees(before[k], f);
    }
    if k :| 0 <= k < |before| && Frees(before[k], f) {
      assert Frees(now[k], f);
    }
    assert now[i] == regions[i];
  }

  class Manager {
    var bitmap: Bitmap

    ghost predicate Valid()
      reads this, bitmap
    {
      bitmap.Valid()
    }

    ghost function Frames(): (bits: seq<bool>)
      requires Valid()
      reads this, bitmap, bitmap.buffer
    {
      bitmap.Contents()
    }

    constructor (noOfPhysicalFrames: nat)
      requires 0 < noOfPhysicalFrames <= MAX_DWORD
      ensures Valid() && fresh(bitmap) && fresh(bitmap.buffer) && |Frames()| == noOfPhysicalFrames
      ensures forall f :: 0 <= f < noOfPhysicalFrames ==> !Frames()[f]
    {
      bitmap := new Bitmap(noOfPhysicalFrames, false);
    }

    /** PmmReserveMemoryEx: the lowest run of free frames from `minPhysAddr` on becomes reserved
        and its address is returned. The answer is 0 when there is none, and also when the run
        begins at frame 0. */
    method Reserve(noOfFrames: nat, minPhysAddr: nat) returns (addr: nat)
      requires Valid() && noOfFrames <= MAX_DWORD
      modifies bitmap.buffer
      ensures Valid() && bitmap == old(bitmap)
      ensures match Placement(old(Frames()), noOfFrames, minPhysAddr)
              case None => addr == 0 && Frames() == old(Frames())
              case Some(i) =>
                && addr == i * PAGE_SIZE && i + noOfFrames <= |old(Frames())|
                && Frames() == SetRange(old(Frames()), i, noOfFrames, true)
      ensures if RoomFor(old(Frames()), noOfFrames, minPhysAddr) then
                && IsLowest(old(Frames()), noOfFrames, minPhysAddr, addr)
                && Frames() == SetRange(old(Frames()), addr / 0x1000, noOfFrames, true)
              else
                addr == 0 && Frames() == old(Frames())
    {
      PlacementIsLowest(Frames(), noOfFrames, minPhysAddr);
      ghost var bits := Frames();
      if noOfFrames == 0 {
        return 0;
      }
      if minPhysAddr % PAGE_SIZE != 0 {
        return 0;
      }
      var startIdx := minPhysAddr / PAGE_SIZE;
      FirstFitFinds(bits, startIdx, noOfFrames, false);
      if startIdx > MAX_DWORD {
        return 0;
      }
      assert bits[..|bits|] == bits;
      ScannedFits(bits, startIdx, |bits|, noOfFrames, false);
      var idx := bitmap.ScanFromToAndFlip(startIdx, bitmap.bitCount, noOfFrames, false);
      if idx == MAX_DWORD {
        return 0;
      }
      return idx * PAGE_SIZE;
    }

    /** PmmReleaseMemory: its own assertions, then the guarded change of the bitmap. Frames that
        exist become free and no others change. */
    method Release(physicalAddr: nat, noOfFrames: nat) returns (o: Outcome)
      requires Valid() && noOfFrames <= MAX_DWORD
      modifies bitmap.buffer
      ensures Valid() && bitmap == old(bitmap)
      ensures var index := physicalAddr / PAGE_SIZE;
              && (o == Asserted <==> physicalAddr % PAGE_SIZE != 0 || !RangeAsserted(|Frames()|, index, noOfFrames))
              && (o == Asserted ==> Frames() == old(Frames()))
              && (o == Overrun ==> noOfFrames > |Frames()| && !StaysInBuffer(|Frames()|, index, noOfFrames))
              && (o == Done ==> StaysInBuffer(|Frames()|, index, noOfFrames))
              && (o == Done ==> Frames() == Changed(old(Frames()), index, noOfFrames, false))
              && (o == Done && index + noOfFrames <= |Frames()| ==>
                    Frames() == SetRange(old(Frames()), index, noOfFrames, false))
    {
      if physicalAddr % PAGE_SIZE != 0 {
        return Asserted;
      }
      var index := physicalAddr / PAGE_SIZE;
      if index > MAX_DWORD {
        return Asserted;
      }
      if RangeAsserted(bitmap.bitCount, index, noOfFrames) {
        AssertionProtects(bitmap.bitCount, index, noOfFrames);
      }
      o := bitmap.SetBitsValue(index, noOfFrames, false);
    }

    /** Releases the frames of one region: not at all, or all of them and no others. */
    method ReleaseRegion(r: Region) returns (released: bool)
      requires Valid() && ReleasedFrames(r).count <= |Frames()|
      modifies bitmap.buffer
      ensures Valid() && bitmap == old(bitmap) && |Frames()| == |old(Frames())|
      ensures var b := ReleasedFrames(r); released <==> b.start < |Frames()| && b.start + b.count <= |Frames()|
      ensures released ==> forall f :: 0 <= f < |Frames()| ==> (Frames()[f] <==> old(Frames()[f]) && !ReleasedFrames(r).Has(f))
    {
      var physAddr := (r.base + PAGE_SIZE - 1) / PAGE_SIZE * PAGE_SIZE;
      RangeAssertedExactly(bitmap.bitCount, physAddr / PAGE_SIZE, r.length / PAGE_SIZE);
      var o := Release(physAddr, r.length / PAGE_SIZE);
      released := o == Done;
    }

    /** _PmmInitializeAllocationBitmap, on a bitmap of the size that the map gives: everything is
        reserved and then the usable memory above 1 MB is released, region by region. It passes
        all assertions iff every region fits. */
    method Initialize(regions: seq<Region>) returns (completed: bool)
      requires Valid() && |Frames()| == FrameCount(regions) && forall f :: 0 <= f < |Frames()| ==> !Frames()[f]
      modifies bitmap.buffer
      ensures Valid() && bitmap == old(bitmap) && |Frames()| == |old(Frames())|
      ensures completed <==> forall r :: r in regions ==> FitsMemory(r, FrameCount(regions))
      ensures completed ==> forall f :: 0 <= f < |Frames()| ==> (Frames()[f] <==> !Freed(regions, f))
      ensures completed ==> forall f :: 0 <= f < |Frames()| && f < MB_SIZE / PAGE_SIZE ==> Frames()[f]
      ensures completed ==> FreesUsable(regions, Frames())
    {
      ghost var n := |Frames()|;
      assert FirstFit(Frames(), 0, n, false) == Some(0);
      var _ := Reserve(bitmap.bitCount, 0);
      for i := 0 to |regions|
        invariant Valid() && |Frames()| == n
        invariant forall k :: 0 <= k < i ==> FitsMemory(regions[k], n)
        invariant forall f :: 0 <= f < n ==> (Frames()[f] <==> !Freed(regions[..i], f))
      {
        var r := regions[i];
        assert r in regions;
        forall f | 0 <= f < n ensures Freed(regions[..i + 1], f) <==> Freed(regions[..i], f) || Frees(r, f) {
          FreedStep(regions, i, f);
        }
        if r.usable && r.base >= MB_SIZE {
          NoMoreFramesThanMemory(regions, r);
          var released := ReleaseRegion(r);
          if !released {
            return false;
          }
        }
      }
      assert regions[..|regions|] == regions;
      FreedIsUsable(regions, Frames());
      return true;
    }
  }

  /** PmmInitSystem on a memory map; `null` stands for an assertion that fails. */
  method Boot(regions: seq<Region>) returns (m: Manager?)
    ensures m != null <==> Boots(regions)
    ensures m != null ==>
              && fresh(m) && m.Valid() && |m.Frames()| == FrameCount(regions)
              && (forall f :: 0 <= f < |m.Frames()| ==> (m.Frames()[f] <==> !Freed(regions, f)))
              && FreesUsable(regions, m.Frames()) && m.Frames()[0]
  {
    var highest := DetermineHighest(regions);
    if highest / PAGE_SIZE > MAX_DWORD || highest / PAGE_SIZE == 0 {
      return null;
    }
    m := new Manager(highest / PAGE_SIZE);
    var completed := m.Initialize(regions);
    if !completed {
      m := null;
    }
  }

  // ---- Runs of requests ----

  datatype Block = Block(start: nat, count: nat) {
    predicate Has(f: nat) { start <= f < start + count }
  }

  /** A release may cover any frames: all of a reservation, part of one, or parts of several. */
  datatype Request = Reserve(count: nat, minPhysAddr: nat) | Release(start: nat, count: nat)

  /** The bitmap, and the frames handed out and not yet released. */
  datatype State = State(bits: seq<bool>, held: set<nat>)

  function Range(start: nat, count: nat): (r: set<nat>)
    ensures forall f :: f in r <==> start <= f < start + count
  {
    if count == 0 then {} else Range(start, count - 1) + {start + count - 1}
  }

  /** A release stays within a memory of `n` frames, as its assertion demands. */
  predicate Legal(n: nat, r: Request) { r.Release? ==> r.start < n && r.start + r.count <= n }

  predicate IsRun(n: nat, rs: seq<Request>) { forall k :: 0 <= k < |rs| ==> Legal(n, rs[k]) }

  function Step(s: State, r: Request): (t: State)
    requires Legal(|s.bits|, r)
    ensures |t.bits| == |s.bits|
  {
    match r
    case Reserve(count, minPhysAddr) =>
      FirstFitFinds(s.bits, minPhysAddr / PAGE_SIZE, count, false);
      (match Placement(s.bits, count, minPhysAddr)
       case None => s
       case Some(i) => State(SetRange(s.bits, i, count, true), s.held + Range(i, count)))
    case Release(start, count) =>
      State(SetRange(s.bits, start, count, false), s.held - Range(start, count))
  }

  function Final(s: State, rs: seq<Request>): (t: State)
    requires IsRun(|s.bits|, rs)
    ensures |t.bits| == |s.bits|
    decreases |rs|
  {
    if rs == [] then s else Final(Step(s, rs[0]), rs[1..])
  }

  /** Relative to the frames `initial` reserved at the start: a frame is reserved iff it was
      then or is held, and never both. */
  predicate Invariant(initial: seq<bool>, s: State) {
    && |s.bits| == |initial|
    && (forall f :: f in s.held ==> f < |initial| && !initial[f])
    && (forall f :: 0 <= f < |initial| ==> (s.bits[f] <==> initial[f] || f in s.held))
  }

  /** The release covers no frame that was reserved at the start. In particular this is so when
      every frame it covers is held. */
  predicate Spares(initial: seq<bool>, r: Request) {
    r.Release? ==> forall f :: r.start <= f < r.start + r.count && f < |initial| ==> !initial[f]
  }

  predicate AllSpare(initial: seq<bool>, rs: seq<Request>) {
    forall k :: 0 <= k < |rs| ==> Spares(initial, rs[k])
  }

  lemma HeldIsSpared(initial: seq<bool>, s: State, start: nat, count: nat)
    requires Invariant(initial, s) && Range(start, count) <= s.held
    ensures Spares(initial, Release(start, count)) && (count > 0 ==> Legal(|initial|, Release(start, count)))
  {
    forall f | start <= f < start + count ensures f in s.held {
      assert f in Range(start, count);
    }
    if count > 0 {
      assert start + count - 1 in s.held;
    }
  }

  /** A granted request gets frames that exist and that nobody holds. */
  lemma GrantIsFresh(initial: seq<bool>, s: State, count: nat, minPhysAddr: nat)
    requires Invariant(initial, s) && Placement(s.bits, count, minPhysAddr).Some?
    ensures var i := Placement(s.bits, count, minPhysAddr).value;
            && minPhysAddr <= i * PAGE_SIZE && count > 0 && i + count <= |initial|
            && Range(i, count) !! s.held && forall f :: i <= f < i + count ==> !initial[f] && !s.bits[f]
  {
    FirstFitFinds(s.bits, minPhysAddr / PAGE_SIZE, count, false);
  }

  lemma ReserveKeeps(initial: seq<bool>, s: State, count: nat, minPhysAddr: nat)
    requires Invariant(initial, s)
    ensures Invariant(initial, Step(s, Reserve(count, minPhysAddr)))
  {
    if Placement(s.bits, count, minPhysAddr).Some? {
      GrantIsFresh(initial, s, count, minPhysAddr);
    }
  }

  /** A release keeps the account straight exactly when it covers no frame that was reserved at
      the start. */
  lemma ReleaseKeepsExactly(initial: seq<bool>, s: State, start: nat, count: nat)
    requires Invariant(initial, s) && Legal(|initial|, Release(start, count))
    ensures Invariant(initial, Step(s, Release(start, count))) <==> Spares(initial, Release(start, count))
  {
    var t := Step(s, Release(start, count));
    if f :| start <= f < start + count && f < |initial| && initial[f] {
      assert !t.bits[f];
    }
  }

  lemma {:induction false} RunKeeps(initial: seq<bool>, s: State, rs: seq<Request>)
    requires Invariant(initial, s) && IsRun(|initial|, rs) && AllSpare(initial, rs)
    ensures Invariant(initial, Final(s, rs))
    decreases |rs|
  {
    if rs != [] {
      match rs[0] {
        case Reserve(count, minPhysAddr) => ReserveKeeps(initial, s, count, minPhysAddr);
        case Release(start, count) => ReleaseKeepsExactly(initial, s, start, count);
      }
      RunKeeps(initial, Step(s, rs[0]), rs[1..]);
    }
  }

  /** Nothing has been handed out yet. */
  function Start(initial: seq<bool>): (s: State)
    ensures Invariant(initial, s)
  {
    State(initial, {})
  }

  /** Over every run of reservations and releases, starting from any bitmap, in which no release
      covers a frame reserved at the start: the reserved frames are at all times exactly those
      reserved at the start and those held, never both, and so once nothing is held the bitmap
      is as it was. */
  lemma FramesConserved(initial: seq<bool>, rs: seq<Request>)
    requires IsRun(|initial|, rs) && AllSpare(initial, rs)
    ensures Invariant(initial, Final(Start(initial), rs))
    ensures Final(Start(initial), rs).held == {} ==> Final(Start(initial), rs).bits == initial
  {
    RunKeeps(initial, Start(initial), rs);
  }

  /** After any such run, what a request is granted overlaps nothing that is held. */
  lemma GrantsNeverOverlap(initial: seq<bool>, rs: seq<Request>, count: nat, minPhysAddr: nat)
    requires IsRun(|initial|, rs) && AllSpare(initial, rs)
    requires Placement(Final(Start(initial), rs).bits, count, minPhysAddr).Some?
    ensures var s := Final(Start(initial), rs);
            var i := Placement(s.bits, count, minPhysAddr).value;
            && minPhysAddr <= i * PAGE_SIZE && i + count <= |initial|
            && Range(i, count) !! s.held && forall f :: i <= f < i + count ==> !initial[f]
  {
    FramesConserved(initial, rs);
    GrantIsFresh(initial, Final(Start(initial), rs), count, minPhysAddr);
  }

  /** With frame 0 reserved at the start, as initialisation leaves it, the address 0 that a
      request is answered with always means refusal. */
  lemma ZeroMeansRefused(initial: seq<bool>, rs: seq<Request>, count: nat, minPhysAddr: nat)
    requires IsRun(|initial|, rs) && AllSpare(initial, rs) && |initial| > 0 && initial[0]
    ensures Placement(Final(Start(initial), rs).bits, count, minPhysAddr) != Some(0)
  {
    var s := Final(Start(initial), rs);
    FramesConserved(initial, rs);
    FirstFitFinds(s.bits, minPhysAddr / PAGE_SIZE, count, false);
  }

  /** After any such run a request is refused iff there is no room for it: every place for it,
      from the requested address on, covers a frame reserved at the start or held. */
  lemma RefusedOnlyWhenFull(initial: seq<bool>, rs: seq<Request>, count: nat, minPhysAddr: nat)
    requires IsRun(|initial|, rs) && AllSpare(initial, rs) && count > 0 && minPhysAddr % PAGE_SIZE == 0
    ensures var s := Final(Start(initial), rs);
            Placement(s.bits, count, minPhysAddr).None? <==>
              forall i :: minPhysAddr / PAGE_SIZE <= i && i + count <= |initial| ==> Obstructed(initial, s.held, i, count)
  {
    var s := Final(Start(initial), rs);
    FramesConserved(initial, rs);
    FirstFitFinds(s.bits, minPhysAddr / PAGE_SIZE, count, false);
    forall i: nat | i + count <= |initial| ensures RunAt(s.bits, i, count, false) <==> !Obstructed(initial, s.held, i, count) {
      if !RunAt(s.bits, i, count, false) {
        var f :| i <= f < i + count && s.bits[f];
        assert initial[f] || f in s.held;
      }
    }
  }

  predicate Obstructed(initial: seq<bool>, held: set<nat>, i: nat, count: nat)
    requires i + count <= |initial|
  {
    exists f :: i <= f < i + count && (initial[f] || f in held)
  }

  /** First fit: after any such run a granted request gets the lowest place there is; every place
      before it, from the requested address on, covers a frame reserved at the start or held. */
  lemma GrantsAreLowest(initial: seq<bool>, rs: seq<Request>, count: nat, minPhysAddr: nat)
    requires IsRun(|initial|, rs) && AllSpare(initial, rs)
    requires Placement(Final(Start(initial), rs).bits, count, minPhysAddr).Some?
    ensures var s := Final(Start(initial), rs);
            var r := Placement(s.bits, count, minPhysAddr).value;
            && minPhysAddr % 0x1000 == 0 && count > 0 && r + count <= |initial|
            && forall i :: minPhysAddr / 0x1000 <= i < r ==> Obstructed(initial, s.held, i, count)
  {
    var s := Final(Start(initial), rs);
    FramesConserved(initial, rs);
    PlacementIsLowest(s.bits, count, minPhysAddr);
    var r := Placement(s.bits, count, minPhysAddr).value;
    forall i | minPhysAddr / 0x1000 <= i < r ensures Obstructed(initial, s.held, i, count) {
      assert Taken(s.bits, i, count);
      var f :| i <= f < i + count && f < |s.bits| && s.bits[f];
      assert initial[f] || f in s.held;
    }
  }

  // ---- The life of an allocation ----

  /** Frames given back one at a time, as unmapping does. */
  function OneByOne(start: nat, count: nat): (rs: seq<Request>)
    ensures |rs| == count && forall k :: 0 <= k < count ==> rs[k] == Release(start + k, 1)
  {
    seq(count, k requires 0 <= k < count => Release(start + k, 1))
  }

  /** Frames given back one at a time are given back as if at once. */
  lemma {:induction false} OneByOneIsAtOnce(s: State, start: nat, count: nat)
    requires start + count <= |s.bits|
    ensures IsRun(|s.bits|, OneByOne(start, count))
    ensures Final(s, OneByOne(start, count)) == State(SetRange(s.bits, start, count, false), s.held - Range(start, count))
    decreases count
  {
    if count == 0 {
      assert SetRange(s.bits, start, 0, false) == s.bits && s.held - Range(start, 0) == s.held;
    } else {
      var t := Step(s, Release(start, 1));
      assert OneByOne(start, count)[1..] == OneByOne(start + 1, count - 1);
      OneByOneIsAtOnce(t, start + 1, count - 1);
      assert SetRange(t.bits, start + 1, count - 1, false) == SetRange(s.bits, start, count, false);
      assert t.held - Range(start + 1, count - 1) == s.held - Range(start, count);
    }
  }

  /** An allocation that is reserved at once and given back frame by frame leaves no trace. */
  lemma AllocationLeavesNoTrace(initial: seq<bool>, s: State, count: nat, minPhysAddr: nat)
    requires Invariant(initial, s) && Placement(s.bits, count, minPhysAddr).Some?
    ensures var t := Step(s, Reserve(count, minPhysAddr));
            var i := Placement(s.bits, count, minPhysAddr).value;
            IsRun(|s.bits|, OneByOne(i, count)) && AllSpare(initial, OneByOne(i, count)) && Final(t, OneByOne(i, count)) == s
  {
    var t := Step(s, Reserve(count, minPhysAddr));
    var i := Placement(s.bits, count, minPhysAddr).value;
    GrantIsFresh(initial, s, count, minPhysAddr);
    OneByOneIsAtOnce(t, i, count);
    assert SetRange(t.bits, i, count, false) == s.bits;
    assert t.held - Range(i, count) == s.held;
  }

  /** The class performs exactly these runs. */
  method Perform(m: Manager, rs: seq<Request>)
    requires m.Valid() && IsRun(|m.Frames()|, rs) && forall k :: 0 <= k < |rs| ==> rs[k].count <= MAX_DWORD
    modifies m.bitmap.buffer
    ensures m.Valid() && m.bitmap == old(m.bitmap)
    ensures m.Frames() == Final(Start(old(m.Frames())), rs).bits
  {
    ghost var n := |m.Frames()|;
    ghost var start := Start(m.Frames());
    ghost var now := start;
    for k := 0 to |rs|
      invariant m.Valid() && m.bitmap == old(m.bitmap) && m.Frames() == now.bits && |now.bits| == n
      invariant IsRun(n, rs[k..]) && Final(now, rs[k..]) == Final(start, rs)
    {
      assert rs[k..][0] == rs[k] && rs[k..][1..] == rs[k + 1..];
      PerformOne(m, rs[k], now);
      now := Step(now, rs[k]);
    }
  }

  method PerformOne(m: Manager, r: Request, ghost s: State)
    requires m.Valid() && Legal(|m.Frames()|, r) && r.count <= MAX_DWORD && s.bits == m.Frames()
    modifies m.bitmap.buffer
    ensures m.Valid() && m.bitmap == old(m.bitmap) && m.Frames() == Step(s, r).bits
  {
    match r {
      case Reserve(count, minPhysAddr) =>
        var _ := m.Reserve(count, minPhysAddr);
      case Release(start, count) =>
        RangeAssertedExactly(m.bitmap.bitCount, start, count);
        StaysInBufferExactly(m.bitmap.bitCount, start, count);
        var _ := m.Release(start * PAGE_SIZE, count);
    }
  }
}
