/** The _PLD (physical location of device) codec: ACPI_PLD_GET_* and ACPI_PLD_SET_* over the
    five 32-bit words of a revision 2 buffer. */
module Pld {
  import opened Bits
  import opened Fields

  datatype Slot = Slot(word: nat, field: Field)

  const WORDS: nat := 5

  /** One slot per macro pair, in the order of the header. */
  const LAYOUT: seq<Slot> := [
    Slot(0, Field(0, 7)),    // REVISION
    Slot(0, Field(7, 1)),    // IGNORE_COLOR
    Slot(0, Field(8, 24)),   // COLOR
    Slot(1, Field(0, 16)),   // WIDTH
    Slot(1, Field(16, 16)),  // HEIGHT
    Slot(2, Field(0, 1)),    // USER_VISIBLE
    Slot(2, Field(1, 1)),    // DOCK
    Slot(2, Field(2, 1)),    // LID
    Slot(2, Field(3, 3)),    // PANEL
    Slot(2, Field(6, 2)),    // VERTICAL
    Slot(2, Field(8, 2)),    // HORIZONTAL
    Slot(2, Field(10, 4)),   // SHAPE
    Slot(2, Field(14, 1)),   // ORIENTATION
    Slot(2, Field(15, 8)),   // TOKEN
    Slot(2, Field(23, 8)),   // POSITION
    Slot(2, Field(31, 1)),   // BAY
    Slot(3, Field(0, 1)),    // EJECTABLE
    Slot(3, Field(1, 1)),    // OSPM_EJECT
    Slot(3, Field(2, 8)),    // CABINET
    Slot(3, Field(10, 8)),   // CARD_CAGE
    Slot(3, Field(18, 1)),   // REFERENCE
    Slot(3, Field(19, 4)),   // ROTATION
    Slot(3, Field(23, 5)),   // ORDER
    Slot(4, Field(0, 16)),   // VERT_OFFSET
    Slot(4, Field(16, 16))]  // HORIZ_OFFSET

  type Buffer = b: seq<nat> | |b| == 5 witness [0, 0, 0, 0, 0]

  const ZEROED: Buffer := [0, 0, 0, 0, 0]

  type Layout = seq<Slot>

  predicate Apart(s: Slot, t: Slot) { s.word != t.word || s.field.Disjoint(t.field) }

  /** Every slot lies within a word and no two slots share a bit. */
  predicate WellFormed(layout: Layout) {
    && (forall k :: 0 <= k < |layout| ==> layout[k].word < WORDS && layout[k].field.Fits(32))
    && (forall j, k :: 0 <= j < |layout| && 0 <= k < |layout| && j != k ==> Apart(layout[j], layout[k]))
  }

  /** The GET macro of a slot. */
  function Get(b: Buffer, s: Slot): nat
    requires s.word < WORDS
  {
    GetBits(b[s.word], s.field)
  }

  /** The buffer after the SET macro of a slot. */
  function Set(b: Buffer, s: Slot, v: nat): Buffer
    requires s.word < WORDS
  {
    b[s.word := SetBits(b[s.word], s.field, v, 32)]
  }

  predicate IsOrder(layout: Layout, order: seq<nat>) {
    forall j :: 0 <= j < |order| ==> order[j] < |layout|
  }

  /** Applies the SET macros in the given order, slot `k` receiving `values[k]`. */
  function SetAll(layout: Layout, b: Buffer, order: seq<nat>, values: seq<nat>): Buffer
    requires WellFormed(layout) && IsOrder(layout, order) && |values| == |layout|
    decreases |order|
  {
    if order == [] then b
    else SetAll(layout, Set(b, layout[order[0]], values[order[0]]), order[1..], values)
  }

  function GetAll(layout: Layout, b: Buffer): (values: seq<nat>)
    requires WellFormed(layout)
    ensures |values| == |layout|
  {
    seq(|layout|, k requires 0 <= k < |layout| => Get(b, layout[k]))
  }

  // ---- Round trips, for any layout ----

  /** Setting slot `s` to `v` puts a one on bit `i` of word `w`. */
  predicate Puts(s: Slot, v: nat, w: nat, i: nat) { s.word == w && Hits(Write(s.field, v), i) }

  lemma SetBit(b: Buffer, s: Slot, v: nat, w: nat, i: nat)
    requires s.word < WORDS && s.field.Fits(32) && w < WORDS
    ensures Bit(Set(b, s, v)[w], i) <==> Bit(b[w], i) || Puts(s, v, w, i)
  {
    SetBitsBits(b[s.word], s.field, v, 32);
  }

  lemma {:induction false} SetAllBits(layout: Layout, b: Buffer, order: seq<nat>, values: seq<nat>, w: nat, i: nat)
    requires WellFormed(layout) && IsOrder(layout, order) && |values| == |layout| && w < WORDS
    ensures Bit(SetAll(layout, b, order, values)[w], i)
       <==> Bit(b[w], i) || exists j :: 0 <= j < |order| && Puts(layout[order[j]], values[order[j]], w, i)
    decreases |order|
  {
    if order != [] {
      var k, rest := order[0], order[1..];
      var b' := Set(b, layout[k], values[k]);
      SetAllBits(layout, b', rest, values, w, i);
      SetBit(b, layout[k], values[k], w, i);
      if j :| 0 <= j < |order| && Puts(layout[order[j]], values[order[j]], w, i) {
        assert j == 0 || Puts(layout[rest[j - 1]], values[rest[j - 1]], w, i);
      }
      if j :| 0 <= j < |rest| && Puts(layout[rest[j]], values[rest[j]], w, i) {
        assert Puts(layout[order[j + 1]], values[order[j + 1]], w, i);
      }
    }
  }

  predicate Zeroed(b: Buffer) { forall w :: 0 <= w < WORDS ==> b[w] == 0 }

  /** Within slot `k`, only the SET of slot `k` itself can put a bit. */
  lemma OnlyOwnSlotPuts(layout: Layout, j: nat, k: nat, v: nat, i: nat)
    requires WellFormed(layout) && j < |layout| && k < |layout| && i < layout[k].field.width
    ensures Puts(layout[j], v, layout[k].word, i + layout[k].field.pos) <==> j == k && Bit(v, i)
  {
    assert j == k || Apart(layout[j], layout[k]);
  }

  lemma SomeonePuts(layout: Layout, order: seq<nat>, values: seq<nat>, k: nat, i: nat)
    requires WellFormed(layout) && IsOrder(layout, order) && |values| == |layout| && k < |layout| && i < layout[k].field.width
    ensures (exists j :: 0 <= j < |order| && Puts(layout[order[j]], values[order[j]], layout[k].word, i + layout[k].field.pos))
       <==> k in order && Bit(values[k], i)
  {
    forall j | 0 <= j < |order|
      ensures Puts(layout[order[j]], values[order[j]], layout[k].word, i + layout[k].field.pos) <==> order[j] == k && Bit(values[k], i)
    {
      OnlyOwnSlotPuts(layout, order[j], k, values[order[j]], i);
    }
  }

  lemma SetThenGetBit(layout: Layout, b: Buffer, order: seq<nat>, values: seq<nat>, k: nat, i: nat)
    requires WellFormed(layout) && IsOrder(layout, order) && |values| == |layout| && k < |layout|
    requires i < layout[k].field.width && Zeroed(b)
    ensures Bit(SetAll(layout, b, order, values)[layout[k].word], i + layout[k].field.pos)
       <==> k in order && Bit(values[k], i)
  {
    var w, p := layout[k].word, i + layout[k].field.pos;
    SetAllBits(layout, b, order, values, w, p);
    ZeroBit(p);
    SomeonePuts(layout, order, values, k, i);
  }

  /** What slot `k` is asked to hold. */
  function Asked(order: seq<nat>, values: seq<nat>, k: nat): nat
    requires k < |values|
  {
    if k in order then values[k] else 0
  }

  lemma SetThenGetBits(layout: Layout, b: Buffer, order: seq<nat>, values: seq<nat>, k: nat)
    requires WellFormed(layout) && IsOrder(layout, order) && |values| == |layout| && k < |layout| && Zeroed(b)
    ensures forall i: nat :: i < layout[k].field.width ==>
              (Bit(SetAll(layout, b, order, values)[layout[k].word], i + layout[k].field.pos) <==> Bit(Asked(order, values, k), i))
  {
    ZeroBits();
    forall i: nat | i < layout[k].field.width
      ensures Bit(SetAll(layout, b, order, values)[layout[k].word], i + layout[k].field.pos) <==> Bit(Asked(order, values, k), i)
    {
      SetThenGetBit(layout, b, order, values, k, i);
    }
  }

  /** From a zeroed buffer, any sequence of SETs, with repetitions and in any order, makes each
      slot that was set read back as its value reduced to the width of the slot, and leaves
      every other slot zero. */
  lemma SetThenGetAll(layout: Layout, b: Buffer, order: seq<nat>, values: seq<nat>, k: nat)
    requires WellFormed(layout) && IsOrder(layout, order) && |values| == |layout| && k < |layout| && Zeroed(b)
    ensures Get(SetAll(layout, b, order, values), layout[k])
         == if k in order then Low(values[k], layout[k].field.width) else 0
  {
    SetThenGetBits(layout, b, order, values, k);
    FieldReads(SetAll(layout, b, order, values)[layout[k].word], layout[k].field, Asked(order, values, k));
    LowIdentity(0, layout[k].field.width);
  }

  /** Some slot of the layout covers bit `i` of word `w`. */
  predicate Covered(layout: Layout, w: nat, i: nat) {
    exists k :: 0 <= k < |layout| && layout[k].word == w && layout[k].field.Covers(i)
  }

  predicate CoversLayout(layout: Layout, order: seq<nat>) {
    IsOrder(layout, order) && forall k :: 0 <= k < |layout| ==> k in order
  }

  /** GET-all followed by SET-all, in any order that visits every slot, keeps exactly the bits
      that belong to some slot. */
  lemma RebuiltBit(layout: Layout, b: Buffer, order: seq<nat>, w: nat, i: nat)
    requires WellFormed(layout) && CoversLayout(layout, order) && w < WORDS
    ensures Bit(SetAll(layout, ZEROED, order, GetAll(layout, b))[w], i) <==> Covered(layout, w, i) && Bit(b[w], i)
  {
    var values := GetAll(layout, b);
    SetAllBits(layout, ZEROED, order, values, w, i);
    ZeroBit(i);
    if j :| 0 <= j < |order| && Puts(layout[order[j]], values[order[j]], w, i) {
      PutsWhatItGot(layout, b, order[j], w, i);
    }
    if Covered(layout, w, i) && Bit(b[w], i) {
      var k :| 0 <= k < |layout| && layout[k].word == w && layout[k].field.Covers(i);
      assert k in order;
      PutsWhatItGot(layout, b, k, w, i);
    }
  }

  lemma PutsWhatItGot(layout: Layout, b: Buffer, k: nat, w: nat, i: nat)
    requires WellFormed(layout) && k < |layout| && w < WORDS
    ensures Puts(layout[k], GetAll(layout, b)[k], w, i)
       <==> layout[k].word == w && layout[k].field.Covers(i) && Bit(b[w], i)
  {
    GetBitsBits(b[layout[k].word], layout[k].field);
  }

  // ---- The layout of the header ----

  /** Bits of word `w` that belong to some slot: all of them, except in the fourth word. */
  function WordEnd(w: nat): nat { if w == 3 then 28 else 32 }

  /** Each slot begins where the one before it ends, word by word. */
  lemma Tiling(k: nat)
    requires k < |LAYOUT|
    ensures var s := LAYOUT[k];
            && s.word < WORDS && s.field.Fits(WordEnd(s.word)) && s.field.width > 0
            && (s.field.pos + s.field.width < WordEnd(s.word) ==>
                  && k + 1 < |LAYOUT|
                  && LAYOUT[k + 1].word == s.word
                  && LAYOUT[k + 1].field.pos == s.field.pos + s.field.width)
            && (s.field.pos + s.field.width == WordEnd(s.word) && k + 1 < |LAYOUT| ==>
                  LAYOUT[k + 1].word == s.word + 1 && LAYOUT[k + 1].field.pos == 0)
  {
  }

  lemma {:induction false} SlotsAscend(j: nat, k: nat)
    requires j < k < |LAYOUT|
    ensures LAYOUT[j].word < LAYOUT[k].word
         || (LAYOUT[j].word == LAYOUT[k].word && LAYOUT[j].field.pos + LAYOUT[j].field.width <= LAYOUT[k].field.pos)
    decreases k - j
  {
    Tiling(k - 1);
    if j < k - 1 {
      SlotsAscend(j, k - 1);
      Tiling(j);
    }
  }

  lemma LayoutWellFormed()
    ensures WellFormed(LAYOUT)
  {
    forall k | 0 <= k < |LAYOUT| ensures LAYOUT[k].word < WORDS && LAYOUT[k].field.Fits(32) {
      Tiling(k);
    }
    forall j, k | 0 <= j < |LAYOUT| && 0 <= k < |LAYOUT| && j != k ensures Apart(LAYOUT[j], LAYOUT[k]) {
      SlotsAscend(if j < k then j else k, if j < k then k else j);
    }
  }

  lemma {:induction false} SlotAt(k: nat, w: nat, i: nat)
    requires k < |LAYOUT| && LAYOUT[k].word == w && LAYOUT[k].field.pos <= i < WordEnd(w)
    ensures Covered(LAYOUT, w, i)
    decreases |LAYOUT| - k
  {
    Tiling(k);
    if !LAYOUT[k].field.Covers(i) {
      SlotAt(k + 1, w, i);
    }
  }

  lemma LayoutCovers(w: nat, i: nat)
    requires w < WORDS
    ensures Covered(LAYOUT, w, i) <==> i < WordEnd(w)
  {
    if i < WordEnd(w) {
      SlotAt(if w == 0 then 0 else if w == 1 then 3 else if w == 2 then 5 else if w == 3 then 16 else 23, w, i);
    } else {
      forall k | 0 <= k < |LAYOUT| && LAYOUT[k].word == w ensures !LAYOUT[k].field.Covers(i) {
        Tiling(k);
      }
    }
  }

  /** The 25 SET macros on a zeroed buffer, in any order, then the 25 GET macros. */
  lemma PldSetThenGet(order: seq<nat>, values: seq<nat>, k: nat)
    requires IsOrder(LAYOUT, order) && |values| == |LAYOUT| && k < |LAYOUT|
    ensures WellFormed(LAYOUT)
    ensures Get(SetAll(LAYOUT, ZEROED, order, values), LAYOUT[k])
         == if k in order then Low(values[k], LAYOUT[k].field.width) else 0
  {
    LayoutWellFormed();
    SetThenGetAll(LAYOUT, ZEROED, order, values, k);
  }

  lemma RebuiltWord(x: nat, y: nat, w: nat)
    requires y < Pow2(32) && forall i: nat :: Bit(x, i) <==> i < WordEnd(w) && Bit(y, i)
    ensures x == y <==> (w == 3 ==> GetBits(y, Field(28, 4)) == 0)
  {
    var top := GetBits(y, Field(28, 4));
    GetBitsBits(y, Field(28, 4));
    HighBits(y, 32);
    ZeroBits();
    if w == 3 && x == y {
      SameBits(top, 0);
    }
    if w == 3 ==> top == 0 {
      forall i: nat ensures Bit(x, i) <==> Bit(y, i) {
        if w == 3 && 28 <= i < 32 {
          assert !Bit(top, i - 28);
        }
      }
      SameBits(x, y);
    }
  }

  /** GET-all then SET-all rebuilds a buffer of 32-bit words exactly when the four bits that no
      macro covers, bits 28 to 31 of the fourth word, are zero. */
  lemma PldGetThenSet(b: Buffer, order: seq<nat>)
    requires CoversLayout(LAYOUT, order) && forall w :: 0 <= w < WORDS ==> b[w] < Pow2(32)
    ensures WellFormed(LAYOUT)
    ensures SetAll(LAYOUT, ZEROED, order, GetAll(LAYOUT, b)) == b <==> GetBits(b[3], Field(28, 4)) == 0
  {
    LayoutWellFormed();
    var r := SetAll(LAYOUT, ZEROED, order, GetAll(LAYOUT, b));
    forall w | 0 <= w < WORDS ensures r[w] == b[w] <==> (w == 3 ==> GetBits(b[3], Field(28, 4)) == 0) {
      forall i: nat ensures Bit(r[w], i) <==> i < WordEnd(w) && Bit(b[w], i) {
        RebuiltBit(LAYOUT, b, order, w, i);
        LayoutCovers(w, i);
      }
      RebuiltWord(r[w], b[w], w);
    }
    assert r == b <==> forall w :: 0 <= w < WORDS ==> r[w] == b[w];
  }

  /** A SET macro on a buffer in memory: the slot becomes the disjunction of its old contents
      and the value, and no slot apart from it changes. */
  method SetInPlace(dwords: array<nat>, s: Slot, value: nat)
    requires dwords.Length == WORDS && s.word < WORDS && s.field.Fits(32)
    modifies dwords
    ensures dwords[..] == Set(old(dwords[..]), s, value)
    ensures Get(dwords[..], s) == Or(old(Get(dwords[..], s)), Low(value, s.field.width))
    ensures forall t: Slot :: t.word < WORDS && t.field.Fits(32) && Apart(s, t) ==>
              Get(dwords[..], t) == old(Get(dwords[..], t))
  {
    ghost var b := dwords[..];
    dwords[s.word] := SetBits(dwords[s.word], s.field, value, 32);
    assert dwords[..] == Set(b, s, value);
    SetThenGet(b[s.word], s.field, value, 32);
    forall t: Slot | t.word < WORDS && t.field.Fits(32) && Apart(s, t) ensures Get(dwords[..], t) == Get(b, t) {
      SetKeepsOthers(b, s, value, t);
    }
  }

  lemma SetKeepsOthers(b: Buffer, s: Slot, value: nat, t: Slot)
    requires s.word < WORDS && s.field.Fits(32) && t.word < WORDS && t.field.Fits(32) && Apart(s, t)
    ensures Get(Set(b, s, value), t) == Get(b, t)
  {
    GetBitsBits(b[t.word], t.field);
    GetBitsBits(Set(b, s, value)[t.word], t.field);
    forall i: nat ensures Bit(Get(Set(b, s, value), t), i) <==> Bit(Get(b, t), i) {
      SetBit(b, s, value, t.word, i + t.field.pos);
    }
    SameBits(Get(Set(b, s, value), t), Get(b, t));
  }

  // ---- The buffer as one number ----

  /** Bit offset in the whole buffer and length of each field, as the header documents them next
      to its SET macros. */
  const DOCUMENTED: seq<(nat, nat)> := [
    (0, 7), (7, 1), (8, 24),
    (32, 16), (48, 16),
    (64, 1), (65, 1), (66, 1), (67, 3), (70, 2), (72, 2), (74, 4), (78, 1), (79, 8), (87, 8), (95, 1),
    (96, 1), (97, 1), (98, 8), (106, 8), (114, 1), (115, 4), (119, 5),
    (128, 16), (144, 16)]

  /** The number whose least significant 32 bits are the first word. */
  function Whole(words: seq<nat>): nat {
    if words == [] then 0 else words[0] + Pow2(32) * Whole(words[1..])
  }

  lemma JoinedBit(low: nat, high: nat, w: nat, i: nat)
    requires low < Pow2(w)
    ensures Bit(low + Pow2(w) * high, i) <==> if i < w then Bit(low, i) else Bit(high, i - w)
  {
    var x := low + Pow2(w) * high;
    DivModUnique(x, Pow2(w), high, low);
    if i < w {
      LowBit(x, w, i);
    } else {
      ShrIsDiv(x, w);
      ShrBit(x, w, i - w);
    }
  }

  lemma {:induction false} WholeBit(words: seq<nat>, w: nat, i: nat)
    requires w < |words| && i < 32 && forall k :: 0 <= k < |words| ==> words[k] < Pow2(32)
    ensures Bit(Whole(words), 32 * w + i) <==> Bit(words[w], i)
    decreases w
  {
    JoinedBit(words[0], Whole(words[1..]), 32, 32 * w + i);
    if w > 0 {
      WholeBit(words[1..], w - 1, i);
      assert 32 * w + i - 32 == 32 * (w - 1) + i;
    }
  }

  lemma DocumentedSlot(k: nat)
    requires k < |LAYOUT|
    ensures |DOCUMENTED| == |LAYOUT|
    ensures DOCUMENTED[k] == (32 * LAYOUT[k].word + LAYOUT[k].field.pos, LAYOUT[k].field.width)
  {
  }

  lemma SlotInWhole(b: Buffer, s: Slot)
    requires s.word < WORDS && s.field.Fits(32) && forall w :: 0 <= w < WORDS ==> b[w] < Pow2(32)
    ensures Get(b, s) == GetBits(Whole(b), Field(32 * s.word + s.field.pos, s.field.width))
  {
    var f := Field(32 * s.word + s.field.pos, s.field.width);
    forall i: nat ensures Bit(GetBits(Whole(b), f), i) <==> Bit(Get(b, s), i) {
      SlotBitInWhole(b, s, i);
    }
    SameBits(GetBits(Whole(b), f), Get(b, s));
  }

  lemma SlotBitInWhole(b: Buffer, s: Slot, i: nat)
    requires s.word < WORDS && s.field.Fits(32) && forall w :: 0 <= w < WORDS ==> b[w] < Pow2(32)
    ensures Bit(GetBits(Whole(b), Field(32 * s.word + s.field.pos, s.field.width)), i) <==> Bit(Get(b, s), i)
  {
    GetBitsBits(Whole(b), Field(32 * s.word + s.field.pos, s.field.width));
    GetBitsBits(b[s.word], s.field);
    if i < s.field.width {
      WholeBit(b, s.word, s.field.pos + i);
    }
  }

  /** Every GET macro reads the documented number of bits at the documented offset of the buffer
      taken as one number. */
  lemma GetsAtDocumentedOffset(b: Buffer, k: nat)
    requires k < |LAYOUT| && forall w :: 0 <= w < WORDS ==> b[w] < Pow2(32)
    ensures |DOCUMENTED| == |LAYOUT| && LAYOUT[k].word < WORDS
    ensures Get(b, LAYOUT[k]) == Whole(b) / Pow2(DOCUMENTED[k].0) % Pow2(DOCUMENTED[k].1)
  {
    Tiling(k);
    var s := LAYOUT[k];
    SlotInWhole(b, s);
    GetBitsIsDivMod(Whole(b), Field(32 * s.word + s.field.pos, s.field.width));
    DocumentedSlot(k);
  }
}
