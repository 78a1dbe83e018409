/** Field updates of the ACPI power-management registers: ACPI_REGISTER_INSERT_VALUE,
    ACPI_INSERT_BITS, the bit-register tables, and the bits that must be preserved. */
module Registers {
  import opened Bits
  import opened Fields

  /** The new value of a register of `w` bits after ACPI_REGISTER_INSERT_VALUE. */
  function InsertValue(reg: nat, pos: nat, mask: nat, val: nat, w: nat): nat {
    Or(And(reg, Not(mask, w)), And(Low(Shl(val, pos), w), mask))
  }

  /** The new value of a target of `w` bits after ACPI_INSERT_BITS. */
  function InsertBits(target: nat, mask: nat, source: nat, w: nat): nat {
    Or(And(target, Not(mask, w)), And(source, mask))
  }

  lemma InsertValueBits(reg: nat, f: Field, val: nat, w: nat)
    requires f.Fits(w)
    ensures forall i: nat :: Bit(InsertValue(reg, f.pos, f.Mask(), val, w), i)
                        <==> if f.Covers(i) then Bit(val, i - f.pos) else i < w && Bit(reg, i)
  {
    var kept, put := And(reg, Not(f.Mask(), w)), And(Low(Shl(val, f.pos), w), f.Mask());
    MaskBits(f);
    NotBits(f.Mask(), w);
    AndBits(reg, Not(f.Mask(), w));
    ShlBits(val, f.pos);
    LowBits(Shl(val, f.pos), w);
    AndBits(Low(Shl(val, f.pos), w), f.Mask());
    OrBits(kept, put);
  }

  lemma InsertBitsBits(target: nat, mask: nat, source: nat, w: nat)
    requires mask < Pow2(w)
    ensures forall i: nat :: Bit(InsertBits(target, mask, source, w), i)
                        <==> i < w && if Bit(mask, i) then Bit(source, i) else Bit(target, i)
  {
    HighBits(mask, w);
    NotBits(mask, w);
    AndBits(target, Not(mask, w));
    AndBits(source, mask);
    OrBits(And(target, Not(mask, w)), And(source, mask));
  }

  // ---- Runs of register updates ----

  /** A register is changed by inserting one field into the value read from it, or by
      supplying a whole new value. */
  datatype Update = InsertField(f: Field, v: nat) | NewValue(v: nat)

  /** One update: the value read is changed as asked, and then the preserved bits of the
      value read are merged back into what is written. */
  function Apply(reg: nat, u: Update, preserved: nat, w: nat): nat {
    var target := match u
      case InsertField(f, v) => InsertValue(reg, f.pos, f.Mask(), v, w)
      case NewValue(v) => v;
    InsertBits(target, preserved, reg, w)
  }

  predicate Legal(us: seq<Update>, w: nat) {
    forall k :: 0 <= k < |us| ==> us[k].InsertField? ==> us[k].f.Fits(w)
  }

  function UpdateRun(reg: nat, us: seq<Update>, preserved: nat, w: nat): nat
    decreases |us|
  {
    if us == [] then reg else UpdateRun(Apply(reg, us[0], preserved, w), us[1..], preserved, w)
  }

  lemma ApplyBits(reg: nat, u: Update, preserved: nat, w: nat, i: nat)
    requires preserved < Pow2(w) && (u.InsertField? ==> u.f.Fits(w))
    ensures Bit(Apply(reg, u, preserved, w), i) <==>
            i < w &&
            if Bit(preserved, i) then Bit(reg, i)
            else if u.NewValue? then Bit(u.v, i)
            else if u.f.Covers(i) then Bit(u.v, i - u.f.pos)
            else Bit(reg, i)
  {
    match u
    case InsertField(f, v) =>
      InsertValueBits(reg, f, v, w);
      InsertBitsBits(InsertValue(reg, f.pos, f.Mask(), v, w), preserved, reg, w);
    case NewValue(v) =>
      InsertBitsBits(v, preserved, reg, w);
  }

  /** Update `u` may change bit `i`. */
  predicate Touches(u: Update, i: nat) { u.NewValue? || u.f.Covers(i) }

  /** A bit of the register survives every run in which it is preserved or never touched. */
  lemma {:induction false} UntouchedBit(reg: nat, us: seq<Update>, preserved: nat, w: nat, i: nat)
    requires preserved < Pow2(w) && Legal(us, w) && i < w
    requires Bit(preserved, i) || forall k :: 0 <= k < |us| ==> !Touches(us[k], i)
    ensures Bit(UpdateRun(reg, us, preserved, w), i) <==> Bit(reg, i)
    decreases |us|
  {
    if us != [] {
      ApplyBits(reg, us[0], preserved, w, i);
      UntouchedBit(Apply(reg, us[0], preserved, w), us[1..], preserved, w, i);
    }
  }

  /** No run of updates, of either kind, ever changes a preserved bit. */
  lemma PreservedOverRuns(reg: nat, us: seq<Update>, preserved: nat, w: nat)
    requires preserved < Pow2(w) && Legal(us, w)
    ensures And(UpdateRun(reg, us, preserved, w), preserved) == And(reg, preserved)
  {
    var after := UpdateRun(reg, us, preserved, w);
    AndBits(after, preserved);
    AndBits(reg, preserved);
    HighBits(preserved, w);
    forall i: nat ensures Bit(And(after, preserved), i) <==> Bit(And(reg, preserved), i) {
      if Bit(preserved, i) {
        UntouchedBit(reg, us, preserved, w, i);
      }
    }
    SameBits(And(after, preserved), And(reg, preserved));
  }

  predicate Misses(us: seq<Update>, f: Field) {
    forall k :: 0 <= k < |us| ==> us[k].InsertField? && us[k].f.Disjoint(f)
  }

  lemma {:induction false} UpdateRunAppend(reg: nat, first: seq<Update>, second: seq<Update>, preserved: nat, w: nat)
    ensures UpdateRun(reg, first + second, preserved, w)
         == UpdateRun(UpdateRun(reg, first, preserved, w), second, preserved, w)
    decreases |first|
  {
    if first == [] {
      assert first + second == second;
    } else {
      assert (first + second)[1..] == first[1..] + second;
      UpdateRunAppend(Apply(reg, first[0], preserved, w), first[1..], second, preserved, w);
    }
  }

  /** A field that a run does not touch keeps its value. */
  lemma UntouchedField(reg: nat, us: seq<Update>, f: Field, preserved: nat, w: nat)
    requires preserved < Pow2(w) && Legal(us, w) && f.Fits(w) && Misses(us, f)
    ensures GetBits(UpdateRun(reg, us, preserved, w), f) == GetBits(reg, f)
  {
    var after := UpdateRun(reg, us, preserved, w);
    GetBitsBits(after, f);
    GetBitsBits(reg, f);
    forall i: nat ensures Bit(GetBits(after, f), i) <==> Bit(GetBits(reg, f), i) {
      if i < f.width {
        UntouchedBit(reg, us, preserved, w, i + f.pos);
      }
    }
    SameBits(GetBits(after, f), GetBits(reg, f));
  }

  /** In every run, a field reads back as the last value inserted into it, reduced to its
      width, whatever came before and whatever is done to other fields afterwards. */
  lemma LastInsertWins(reg: nat, before: seq<Update>, f: Field, v: nat, later: seq<Update>, preserved: nat, w: nat)
    requires preserved < Pow2(w) && f.Fits(w) && And(preserved, f.Mask()) == 0
    requires Legal(later, w) && Misses(later, f)
    ensures GetBits(UpdateRun(reg, before + [InsertField(f, v)] + later, preserved, w), f) == Low(v, f.width)
  {
    var u := InsertField(f, v);
    var r0 := UpdateRun(reg, before, preserved, w);
    var r1 := Apply(r0, u, preserved, w);
    UpdateRunAppend(reg, before + [u], later, preserved, w);
    UpdateRunAppend(reg, before, [u], preserved, w);
    assert [u][1..] == [];
    assert UpdateRun(r0, [u], preserved, w) == r1;
    UntouchedField(r1, later, f, preserved, w);
    GetBitsBits(r1, f);
    LowBits(v, f.width);
    MaskBits(f);
    AndBits(preserved, f.Mask());
    ZeroBits();
    forall i: nat ensures Bit(GetBits(r1, f), i) <==> Bit(Low(v, f.width), i) {
      ApplyBits(r0, u, preserved, w, i + f.pos);
      assert !Bit(And(preserved, f.Mask()), i + f.pos);
    }
    SameBits(GetBits(r1, f), Low(v, f.width));
  }

  // ---- The bit-register tables ----

  datatype BitRegister = BitRegister(position: nat, mask: nat, width: nat) {
    function AsField(): Field { Field(position, width) }
  }

  const PM1_STATUS: seq<BitRegister> := [
    BitRegister(0x00, 0x0001, 1), BitRegister(0x04, 0x0010, 1), BitRegister(0x05, 0x0020, 1),
    BitRegister(0x08, 0x0100, 1), BitRegister(0x09, 0x0200, 1), BitRegister(0x0A, 0x0400, 1),
    BitRegister(0x0E, 0x4000, 1), BitRegister(0x0F, 0x8000, 1)]

  const PM1_ENABLE: seq<BitRegister> := [
    BitRegister(0x00, 0x0001, 1), BitRegister(0x05, 0x0020, 1), BitRegister(0x08, 0x0100, 1),
    BitRegister(0x09, 0x0200, 1), BitRegister(0x0A, 0x0400, 1), BitRegister(0x0E, 0x4000, 1)]

  /** SCI_ENABLE, BUS_MASTER_RLD, GLOBAL_LOCK_RELEASE, SLEEP_TYPE, SLEEP_ENABLE. */
  const PM1_CONTROL: seq<BitRegister> := [
    BitRegister(0x00, 0x0001, 1), BitRegister(0x01, 0x0002, 1), BitRegister(0x02, 0x0004, 1),
    BitRegister(0x0A, 0x1C00, 3), BitRegister(0x0D, 0x2000, 1)]

  const PM2_CONTROL: seq<BitRegister> := [BitRegister(0x00, 0x0001, 1)]

  const PM1_STATUS_PRESERVED_BITS: nat := 0x0800
  const PM1_CONTROL_IGNORED_BITS: nat := 0x0200
  const PM1_CONTROL_RESERVED_BITS: nat := 0xC1F8
  const PM1_CONTROL_PRESERVED_BITS: nat := Or(PM1_CONTROL_IGNORED_BITS, PM1_CONTROL_RESERVED_BITS)
  const PM2_CONTROL_PRESERVED_BITS: nat := 0xFFFF_FFFE

  /** Every mask of the table is a contiguous field that starts at its position, and the
      fields lie apart, in order, within `w` bits. */
  predicate WellFormedTable(table: seq<BitRegister>, w: nat) {
    && (forall k :: 0 <= k < |table| ==> table[k].mask == table[k].AsField().Mask() && table[k].AsField().Fits(w))
    && (forall j, k :: 0 <= j < k < |table| ==> table[j].AsField().Disjoint(table[k].AsField()))
  }

  lemma SingleBitMask(r: BitRegister)
    requires r.width == 1
    ensures r.AsField().Mask() == Pow2(r.position)
  {
    ShlIsMul(1, r.position);
  }

  lemma BitValues()
    ensures Pow2(0) == 0x1 && Pow2(1) == 0x2 && Pow2(2) == 0x4 && Pow2(4) == 0x10 && Pow2(5) == 0x20
    ensures Pow2(8) == 0x100 && Pow2(9) == 0x200 && Pow2(10) == 0x400
    ensures Pow2(13) == 0x2000 && Pow2(14) == 0x4000 && Pow2(15) == 0x8000
  {
    Pow2Add(8, 5);
  }

  /** Every mask is the one bit at its position, in ascending order below `w`. */
  predicate SingleBits(table: seq<BitRegister>, w: nat) {
    && (forall k :: 0 <= k < |table| ==> table[k].width == 1 && table[k].position < w && table[k].mask == Pow2(table[k].position))
    && (forall j, k :: 0 <= j < k < |table| ==> table[j].position < table[k].position)
  }

  lemma SingleBitTable(table: seq<BitRegister>, w: nat)
    requires SingleBits(table, w)
    ensures WellFormedTable(table, w)
  {
    forall k | 0 <= k < |table| ensures table[k].mask == table[k].AsField().Mask() {
      SingleBitMask(table[k]);
    }
  }

  lemma StatusTableWellFormed()
    ensures WellFormedTable(PM1_STATUS, 16)
  {
    BitValues();
    SingleBitTable(PM1_STATUS, 16);
  }

  lemma EnableTableWellFormed()
    ensures WellFormedTable(PM1_ENABLE, 16)
  {
    BitValues();
    SingleBitTable(PM1_ENABLE, 16);
  }

  lemma ControlTablesWellFormed()
    ensures WellFormedTable(PM1_CONTROL, 16)
    ensures WellFormedTable(PM2_CONTROL, 32)
  {
    BitValues();
    MaskValue(10, 3, 7, 0x400);
    forall k | 0 <= k < |PM1_CONTROL| && k != 3 ensures PM1_CONTROL[k].AsField().Mask() == PM1_CONTROL[k].mask {
      SingleBitMask(PM1_CONTROL[k]);
    }
    SingleBitTable(PM2_CONTROL, 32);
  }

  lemma Pm1PreservedMasks()
    ensures PM1_CONTROL_IGNORED_BITS == Field(9, 1).Mask()
    ensures PM1_CONTROL_RESERVED_BITS == Or(Field(3, 6).Mask(), Field(14, 2).Mask())
  {
    MaskValue(9, 1, 1, 0x200);
    MaskValue(3, 6, 63, 8);
    assert Pow2(14) == 0x4000 by {
      assert Pow2(7) == 0x80;
      Pow2Add(7, 7);
    }
    MaskValue(14, 2, 3, 0x4000);
    ReservedBitsUnion();
  }

  lemma ReservedBitsUnion()
    ensures Or(0x01F8, 0xC000) == 0xC1F8
  {
    assert Or(0x07, 0x0300) == 0x0307;
    assert Or(0x3F, 0x1800) == 0x183F;
  }

  lemma MaskValue(pos: nat, width: nat, ones: nat, scale: nat)
    requires Ones(width) == ones && Pow2(pos) == scale
    ensures Field(pos, width).Mask() == ones * scale
  {
    ShlIsMul(ones, pos);
  }

  /** The ignored bit is bit 9; the reserved bits are bits 14 to 15 and 3 to 8. */
  lemma Pm1PreservedBits()
    ensures forall i: nat :: Bit(PM1_CONTROL_PRESERVED_BITS, i) <==> 3 <= i <= 9 || 14 <= i <= 15
  {
    var high, low, ignored := Field(14, 2), Field(3, 6), Field(9, 1);
    Pm1PreservedMasks();
    MaskBits(high);
    MaskBits(low);
    MaskBits(ignored);
    OrBits(low.Mask(), high.Mask());
    OrBits(ignored.Mask(), Or(low.Mask(), high.Mask()));
  }

  lemma Pm1PreservedFits()
    ensures PM1_CONTROL_PRESERVED_BITS < Pow2(16)
  {
    Pm1PreservedBits();
    FitsFromBits(PM1_CONTROL_PRESERVED_BITS, 16);
  }

  /** The preserved bits and the five named fields divide the 16 bits of PM1 control among
      them: a bit is preserved iff it belongs to none of the fields. */
  lemma Pm1ControlPartition(i: nat)
    requires i < 16
    ensures Bit(PM1_CONTROL_PRESERVED_BITS, i)
       <==> forall k :: 0 <= k < |PM1_CONTROL| ==> !PM1_CONTROL[k].AsField().Covers(i)
    ensures PM1_CONTROL_PRESERVED_BITS < Pow2(16)
  {
    Pm1PreservedBits();
    Pm1PreservedFits();
    Pm1ControlCovers(i);
  }

  lemma Pm1ControlCovers(i: nat)
    requires i < 16
    ensures (forall k :: 0 <= k < |PM1_CONTROL| ==> !PM1_CONTROL[k].AsField().Covers(i)) <==> 3 <= i <= 9 || 14 <= i
  {
    assert PM1_CONTROL[0].AsField() == Field(0, 1) && PM1_CONTROL[1].AsField() == Field(1, 1);
    assert PM1_CONTROL[2].AsField() == Field(2, 1) && PM1_CONTROL[3].AsField() == Field(10, 3);
    assert PM1_CONTROL[4].AsField() == Field(13, 1);
  }

  lemma NotPreserved(preserved: nat, f: Field)
    requires forall i: nat :: f.Covers(i) ==> !Bit(preserved, i)
    ensures And(preserved, f.Mask()) == 0
  {
    AndBits(preserved, f.Mask());
    MaskBits(f);
    ZeroBits();
    SameBits(And(preserved, f.Mask()), 0);
  }

  /** Every update inserts into a field of the table other than field `k`. */
  predicate InsertsElsewhere(us: seq<Update>, table: seq<BitRegister>, k: nat) {
    forall j :: 0 <= j < |us| ==>
      us[j].InsertField? && exists n :: 0 <= n < |table| && n != k && us[j].f == table[n].AsField()
  }

  /** For any table of fields of which none is preserved: in any run of field inserts and
      whole-value writes, each merged with the preserved bits, no preserved bit changes and no
      insert into a field is lost to inserts into the others. */
  lemma TableRuns(table: seq<BitRegister>, w: nat, preserved: nat, reg: nat, before: seq<Update>, k: nat, v: nat, later: seq<Update>)
    requires WellFormedTable(table, w) && k < |table| && preserved < Pow2(w)
    requires forall i: nat :: table[k].AsField().Covers(i) ==> !Bit(preserved, i)
    requires Legal(before, w) && InsertsElsewhere(later, table, k)
    ensures var after := UpdateRun(reg, before + [InsertField(table[k].AsField(), v)] + later, preserved, w);
            && GetBits(after, table[k].AsField()) == Low(v, table[k].width)
            && And(after, preserved) == And(reg, preserved)
  {
    var f := table[k].AsField();
    NotPreserved(preserved, f);
    forall j | 0 <= j < |later| ensures later[j].InsertField? && later[j].f.Disjoint(f) && later[j].f.Fits(w) {
      var n :| 0 <= n < |table| && n != k && later[j].f == table[n].AsField();
      assert if n < k then table[n].AsField().Disjoint(f) else f.Disjoint(table[n].AsField());
    }
    LastInsertWins(reg, before, f, v, later, preserved, w);
    PreservedOverRuns(reg, before + [InsertField(f, v)] + later, preserved, w);
  }

  /** PM1 control. */
  lemma Pm1ControlRuns(reg: nat, before: seq<Update>, k: nat, v: nat, later: seq<Update>)
    requires k < |PM1_CONTROL| && Legal(before, 16) && InsertsElsewhere(later, PM1_CONTROL, k)
    ensures var us := before + [InsertField(PM1_CONTROL[k].AsField(), v)] + later;
            var after := UpdateRun(reg, us, PM1_CONTROL_PRESERVED_BITS, 16);
            && GetBits(after, PM1_CONTROL[k].AsField()) == Low(v, PM1_CONTROL[k].width)
            && And(after, PM1_CONTROL_PRESERVED_BITS) == And(reg, PM1_CONTROL_PRESERVED_BITS)
  {
    ControlTablesWellFormed();
    Pm1PreservedFits();
    forall i: nat | PM1_CONTROL[k].AsField().Covers(i) ensures !Bit(PM1_CONTROL_PRESERVED_BITS, i) {
      Pm1ControlPartition(i);
    }
    TableRuns(PM1_CONTROL, 16, PM1_CONTROL_PRESERVED_BITS, reg, before, k, v, later);
  }

  /** The preserved bit of PM1 status is bit 11, which no named field covers. */
  lemma Pm1StatusPreservedBits()
    ensures PM1_STATUS_PRESERVED_BITS < Pow2(16)
    ensures forall i: nat :: Bit(PM1_STATUS_PRESERVED_BITS, i) <==> i == 11
  {
    assert Pow2(11) == 0x800 by {
      assert Pow2(5) == 0x20 && Pow2(6) == 0x40;
      Pow2Add(5, 6);
    }
    MaskValue(11, 1, 1, 0x800);
    MaskBits(Field(11, 1));
    Pow2Values();
  }

  /** PM1 status. */
  lemma Pm1StatusRuns(reg: nat, before: seq<Update>, k: nat, v: nat, later: seq<Update>)
    requires k < |PM1_STATUS| && Legal(before, 16) && InsertsElsewhere(later, PM1_STATUS, k)
    ensures var us := before + [InsertField(PM1_STATUS[k].AsField(), v)] + later;
            var after := UpdateRun(reg, us, PM1_STATUS_PRESERVED_BITS, 16);
            && GetBits(after, PM1_STATUS[k].AsField()) == Low(v, PM1_STATUS[k].width)
            && And(after, PM1_STATUS_PRESERVED_BITS) == And(reg, PM1_STATUS_PRESERVED_BITS)
  {
    StatusTableWellFormed();
    Pm1StatusPreservedBits();
    assert PM1_STATUS[k].width == 1 && PM1_STATUS[k].position != 11;
    TableRuns(PM1_STATUS, 16, PM1_STATUS_PRESERVED_BITS, reg, before, k, v, later);
  }

  /** All bits of PM2 control are preserved, except bit 0, which is its one named field. */
  lemma Pm2PreservedBits()
    ensures PM2_CONTROL_PRESERVED_BITS < Pow2(32)
    ensures forall i: nat :: Bit(PM2_CONTROL_PRESERVED_BITS, i) <==> 0 < i < 32
  {
    Pow2Values();
    assert Ones(1) == 1;
    LowIdentity(1, 32);
    assert PM2_CONTROL_PRESERVED_BITS == Not(1, 32);
    OnesBits(1);
    NotBits(1, 32);
  }

  /** PM2 control. */
  lemma Pm2ControlRuns(reg: nat, before: seq<Update>, v: nat)
    requires Legal(before, 32)
    ensures var us := before + [InsertField(PM2_CONTROL[0].AsField(), v)];
            var after := UpdateRun(reg, us, PM2_CONTROL_PRESERVED_BITS, 32);
            && GetBits(after, PM2_CONTROL[0].AsField()) == Low(v, 1)
            && And(after, PM2_CONTROL_PRESERVED_BITS) == And(reg, PM2_CONTROL_PRESERVED_BITS)
  {
    ControlTablesWellFormed();
    Pm2PreservedBits();
    var us := before + [InsertField(PM2_CONTROL[0].AsField(), v)];
    assert us + [] == us;
    TableRuns(PM2_CONTROL, 32, PM2_CONTROL_PRESERVED_BITS, reg, before, 0, v, []);
  }

  /** A register updated in place. */
  class Register {
    var value: nat
    const width: nat
    const preserved: nat

    ghost predicate Valid()
      reads this
    {
      value < Pow2(width) && preserved < Pow2(width)
    }

    constructor (width: nat, preserved: nat, value: nat)
      requires value < Pow2(width) && preserved < Pow2(width)
      ensures Valid() && this.width == width && this.preserved == preserved && this.value == value
    {
      this.width, this.preserved, this.value := width, preserved, value;
    }

    /** Reads the register, inserts the field, merges the preserved bits and writes. */
    method Insert(f: Field, v: nat)
      requires Valid() && f.Fits(width)
      modifies this
      ensures Valid()
      ensures forall i: nat :: i < width ==>
                (Bit(value, i) <==> if f.Covers(i) && !Bit(preserved, i) then Bit(v, i - f.pos) else Bit(old(value), i))
      ensures value == UpdateRun(old(value), [InsertField(f, v)], preserved, width)
    {
      var read := value;
      var target := read;
      target := InsertValue(target, f.pos, f.Mask(), v, width);
      target := InsertBits(target, preserved, read, width);
      value := target;
      assert value == Apply(read, InsertField(f, v), preserved, width);
      assert [InsertField(f, v)][1..] == [];
      forall i: nat
        ensures Bit(value, i) <==> i < width && if f.Covers(i) && !Bit(preserved, i) then Bit(v, i - f.pos) else Bit(read, i)
      {
        ApplyBits(read, InsertField(f, v), preserved, width, i);
      }
      FitsFromBits(value, width);
    }
  }
}
