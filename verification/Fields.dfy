/** The bitfield macros: ACPI_GET_BITS, ACPI_SET_BITS, ACPI_REGISTER_INSERT_VALUE and
    ACPI_INSERT_BITS, for fields of any position and width in words of any size. */
module Fields {
  import opened Bits

  datatype Field = Field(pos: nat, width: nat) {
    predicate Covers(i: nat) { pos <= i < pos + width }

    predicate Fits(w: nat) { pos + width <= w }

    predicate Disjoint(g: Field) { pos + width <= g.pos || g.pos + g.width <= pos }

    /** The mask of the field where it lies in the word. */
    function Mask(): nat { Shl(Ones(width), pos) }
  }

  /** ACPI_GET_BITS with the mask of `f.width` ones. */
  function GetBits(x: nat, f: Field): nat { And(Shr(x, f.pos), Ones(f.width)) }

  /** The new value of a target of `w` bits after ACPI_SET_BITS: the value is or-ed in. */
  function SetBits(x: nat, f: Field, v: nat, w: nat): nat {
    Or(x, Low(Shl(And(v, Ones(f.width)), f.pos), w))
  }

  lemma MaskBits(f: Field)
    ensures forall i: nat :: Bit(f.Mask(), i) <==> f.Covers(i)
  {
    OnesBits(f.width);
    ShlBits(Ones(f.width), f.pos);
  }

  lemma GetBitsBits(x: nat, f: Field)
    ensures forall i: nat :: Bit(GetBits(x, f), i) <==> i < f.width && Bit(x, i + f.pos)
  {
    ShrBits(x, f.pos);
    OnesBits(f.width);
    AndBits(Shr(x, f.pos), Ones(f.width));
  }

  lemma SetBitsBits(x: nat, f: Field, v: nat, w: nat)
    requires f.Fits(w)
    ensures forall i: nat :: Bit(SetBits(x, f, v, w), i) <==> Bit(x, i) || (f.Covers(i) && Bit(v, i - f.pos))
  {
    var masked := And(v, Ones(f.width));
    OnesBits(f.width);
    AndBits(v, Ones(f.width));
    ShlBits(masked, f.pos);
    LowBits(Shl(masked, f.pos), w);
    OrBits(x, Low(Shl(masked, f.pos), w));
  }

  /** A field whose bits are those of `v` reads as `v` reduced to its width. */
  lemma FieldReads(x: nat, f: Field, v: nat)
    requires forall i: nat :: i < f.width ==> (Bit(x, i + f.pos) <==> Bit(v, i))
    ensures GetBits(x, f) == Low(v, f.width)
  {
    GetBitsBits(x, f);
    LowBits(v, f.width);
    SameBits(GetBits(x, f), Low(v, f.width));
  }

  /** Reading a field yields the arithmetic quotient and remainder, and always fits. */
  lemma GetBitsIsDivMod(x: nat, f: Field)
    ensures GetBits(x, f) == x / Pow2(f.pos) % Pow2(f.width) < Pow2(f.width)
  {
    ShrIsDiv(x, f.pos);
    AndOnes(Shr(x, f.pos), f.width);
  }

  /** SET then GET yields the value written exactly when the field held no bit that the value
      lacks; in particular, when it was zero. */
  lemma SetThenGet(x: nat, f: Field, v: nat, w: nat)
    requires f.Fits(w)
    ensures GetBits(SetBits(x, f, v, w), f) == Or(GetBits(x, f), Low(v, f.width))
    ensures GetBits(SetBits(x, f, v, w), f) == Low(v, f.width) <==> And(GetBits(x, f), v) == GetBits(x, f)
  {
    var got, was, low := GetBits(SetBits(x, f, v, w), f), GetBits(x, f), Low(v, f.width);
    SetBitsBits(x, f, v, w);
    GetBitsBits(SetBits(x, f, v, w), f);
    GetBitsBits(x, f);
    LowBits(v, f.width);
    OrBits(was, low);
    SameBits(got, Or(was, low));
    AndBits(was, v);
    if got == low {
      SameBits(And(was, v), was);
    }
    if And(was, v) == was {
      forall i: nat ensures Bit(got, i) <==> Bit(low, i) {
        assert Bit(And(was, v), i) <==> Bit(was, i);
      }
      SameBits(got, low);
    }
  }

  // ---- Runs of ACPI_SET_BITS ----

  datatype Write = Write(field: Field, value: nat)

  predicate AllFit(ws: seq<Write>, w: nat) {
    forall k :: 0 <= k < |ws| ==> ws[k].field.Fits(w)
  }

  function SetRun(x: nat, ws: seq<Write>, w: nat): nat
    decreases |ws|
  {
    if ws == [] then x else SetRun(SetBits(x, ws[0].field, ws[0].value, w), ws[1..], w)
  }

  /** Write `u` has bit `i` of the word set. */
  predicate Hits(u: Write, i: nat) { u.field.Covers(i) && Bit(u.value, i - u.field.pos) }

  /** After any run of writes a bit is set iff it was set before or some write set it. */
  lemma {:induction false} SetRunBits(x: nat, ws: seq<Write>, w: nat, i: nat)
    requires AllFit(ws, w)
    ensures Bit(SetRun(x, ws, w), i) <==> Bit(x, i) || exists k :: 0 <= k < |ws| && Hits(ws[k], i)
    decreases |ws|
  {
    if ws != [] {
      var y := SetBits(x, ws[0].field, ws[0].value, w);
      SetRunBits(y, ws[1..], w, i);
      SetBitsBits(x, ws[0].field, ws[0].value, w);
      assert Bit(y, i) <==> Bit(x, i) || Hits(ws[0], i);
      if k :| 0 <= k < |ws| && Hits(ws[k], i) {
        assert k == 0 || Hits(ws[1..][k - 1], i);
      }
      if k :| 0 <= k < |ws[1..]| && Hits(ws[1..][k], i) {
        assert Hits(ws[k + 1], i);
      }
    }
  }

  /** The disjunction of all values written to field `f`, reduced to its width. */
  function Written(ws: seq<Write>, f: Field): nat {
    if ws == [] then 0
    else Or(if ws[0].field == f then Low(ws[0].value, f.width) else 0, Written(ws[1..], f))
  }

  lemma {:induction false} WrittenBits(ws: seq<Write>, f: Field, i: nat)
    ensures Bit(Written(ws, f), i)
       <==> i < f.width && exists k :: 0 <= k < |ws| && ws[k].field == f && Bit(ws[k].value, i)
  {
    ZeroBits();
    if ws != [] {
      var first := if ws[0].field == f then Low(ws[0].value, f.width) else 0;
      WrittenBits(ws[1..], f, i);
      LowBits(ws[0].value, f.width);
      OrBits(first, Written(ws[1..], f));
      if k :| 0 <= k < |ws| && ws[k].field == f && Bit(ws[k].value, i) {
        assert k == 0 || (ws[1..][k - 1].field == f && Bit(ws[1..][k - 1].value, i));
      }
      if k :| 0 <= k < |ws[1..]| && ws[1..][k].field == f && Bit(ws[1..][k].value, i) {
        assert ws[k + 1].field == f && Bit(ws[k + 1].value, i);
      }
    }
  }

  /** The writes go to fields that pairwise do not overlap `f` unless they are `f`. */
  predicate DisjointFrom(ws: seq<Write>, f: Field) {
    forall k :: 0 <= k < |ws| ==> ws[k].field == f || ws[k].field.Disjoint(f)
  }

  lemma SetRunFieldBit(x: nat, ws: seq<Write>, f: Field, w: nat, i: nat)
    requires AllFit(ws, w) && DisjointFrom(ws, f) && i < f.width
    ensures Bit(SetRun(x, ws, w), i + f.pos) <==> Bit(x, i + f.pos) || Bit(Written(ws, f), i)
  {
    SetRunBits(x, ws, w, i + f.pos);
    WrittenBits(ws, f, i);
    if k :| 0 <= k < |ws| && Hits(ws[k], i + f.pos) {
      assert ws[k].field == f;
    }
    if k :| 0 <= k < |ws| && ws[k].field == f && Bit(ws[k].value, i) {
      assert Hits(ws[k], i + f.pos);
    }
  }

  lemma NothingWritten(ws: seq<Write>, f: Field, x: nat)
    requires forall k :: 0 <= k < |ws| ==> ws[k].field != f
    ensures Or(x, Written(ws, f)) == x
  {
    OrBits(x, Written(ws, f));
    forall i: nat ensures !Bit(Written(ws, f), i) {
      WrittenBits(ws, f, i);
    }
    SameBits(Or(x, Written(ws, f)), x);
  }

  /** After any run of writes to `f` and to fields disjoint from it, `f` holds what it held
      before or-ed with everything written to it. A field never written keeps its value. */
  lemma SetRunField(x: nat, ws: seq<Write>, f: Field, w: nat)
    requires AllFit(ws, w) && f.Fits(w) && DisjointFrom(ws, f)
    ensures GetBits(SetRun(x, ws, w), f) == Or(GetBits(x, f), Written(ws, f))
    ensures (forall k :: 0 <= k < |ws| ==> ws[k].field != f) ==> GetBits(SetRun(x, ws, w), f) == GetBits(x, f)
  {
    var y, was := SetRun(x, ws, w), GetBits(x, f);
    GetBitsBits(y, f);
    GetBitsBits(x, f);
    OrBits(was, Written(ws, f));
    forall i: nat ensures Bit(GetBits(y, f), i) <==> Bit(Or(was, Written(ws, f)), i) {
      if i < f.width {
        SetRunFieldBit(x, ws, f, w, i);
      } else {
        WrittenBits(ws, f, i);
      }
    }
    SameBits(GetBits(y, f), Or(was, Written(ws, f)));
    if forall k :: 0 <= k < |ws| ==> ws[k].field != f {
      NothingWritten(ws, f, was);
    }
  }

  /** Two runs with the same writes in any order leave the same word. */
  lemma SetRunsCommute(x: nat, ws: seq<Write>, vs: seq<Write>, w: nat)
    requires AllFit(ws, w) && multiset(ws) == multiset(vs)
    ensures SetRun(x, ws, w) == SetRun(x, vs, w)
  {
    forall u ensures u in ws <==> u in vs {
      assert u in ws <==> u in multiset(ws);
      assert u in vs <==> u in multiset(vs);
    }
    forall k | 0 <= k < |vs| ensures vs[k].field.Fits(w) {
      assert vs[k] in vs && vs[k] in ws;
    }
    forall i: nat ensures Bit(SetRun(x, ws, w), i) <==> Bit(SetRun(x, vs, w), i) {
      SetRunBits(x, ws, w, i);
      SetRunBits(x, vs, w, i);
      if k :| 0 <= k < |ws| && Hits(ws[k], i) {
        assert ws[k] in ws && ws[k] in vs;
      }
      if k :| 0 <= k < |vs| && Hits(vs[k], i) {
        assert vs[k] in vs && vs[k] in ws;
      }
    }
    SameBits(SetRun(x, ws, w), SetRun(x, vs, w));
  }

  predicate PairwiseDisjoint(fs: seq<Field>) {
    forall i, j :: 0 <= i < j < |fs| ==> fs[i].Disjoint(fs[j])
  }

  predicate OnlyFields(ws: seq<Write>, fs: seq<Field>) {
    forall k :: 0 <= k < |ws| ==> ws[k].field in fs
  }

  lemma OnlyFieldsDisjoint(ws: seq<Write>, fs: seq<Field>, f: Field)
    requires PairwiseDisjoint(fs) && OnlyFields(ws, fs) && f in fs
    ensures DisjointFrom(ws, f)
  {
  }

  /** On a family of disjoint fields the outcome of a run depends on nothing but what was
      written to each field: two runs on the same word agree iff every field of the family
      ends up the same. */
  lemma SetRunDependsOnWritten(x: nat, ws: seq<Write>, vs: seq<Write>, fs: seq<Field>, w: nat)
    requires PairwiseDisjoint(fs) && OnlyFields(ws, fs) && OnlyFields(vs, fs)
    requires forall k :: 0 <= k < |fs| ==> fs[k].Fits(w)
    ensures AllFit(ws, w) && AllFit(vs, w)
    ensures SetRun(x, ws, w) == SetRun(x, vs, w)
       <==> forall f :: f in fs ==> Or(GetBits(x, f), Written(ws, f)) == Or(GetBits(x, f), Written(vs, f))
  {
    forall f | f in fs
      ensures GetBits(SetRun(x, ws, w), f) == Or(GetBits(x, f), Written(ws, f))
      ensures GetBits(SetRun(x, vs, w), f) == Or(GetBits(x, f), Written(vs, f))
    {
      OnlyFieldsDisjoint(ws, fs, f);
      OnlyFieldsDisjoint(vs, fs, f);
      SetRunField(x, ws, f, w);
      SetRunField(x, vs, f, w);
    }
    if forall f :: f in fs ==> Or(GetBits(x, f), Written(ws, f)) == Or(GetBits(x, f), Written(vs, f)) {
      forall i: nat ensures Bit(SetRun(x, ws, w), i) <==> Bit(SetRun(x, vs, w), i) {
        SameRunBit(x, ws, vs, fs, w, i);
      }
      SameBits(SetRun(x, ws, w), SetRun(x, vs, w));
    }
  }

  lemma OutsideFields(x: nat, ws: seq<Write>, fs: seq<Field>, w: nat, i: nat)
    requires AllFit(ws, w) && OnlyFields(ws, fs) && forall f :: f in fs ==> !f.Covers(i)
    ensures Bit(SetRun(x, ws, w), i) <==> Bit(x, i)
  {
    SetRunBits(x, ws, w, i);
  }

  lemma SameRunBit(x: nat, ws: seq<Write>, vs: seq<Write>, fs: seq<Field>, w: nat, i: nat)
    requires AllFit(ws, w) && AllFit(vs, w) && OnlyFields(ws, fs) && OnlyFields(vs, fs)
    requires forall f :: f in fs ==> GetBits(SetRun(x, ws, w), f) == GetBits(SetRun(x, vs, w), f)
    ensures Bit(SetRun(x, ws, w), i) <==> Bit(SetRun(x, vs, w), i)
  {
    if f :| f in fs && f.Covers(i) {
      GetBitsBits(SetRun(x, ws, w), f);
      GetBitsBits(SetRun(x, vs, w), f);
      assert Bit(GetBits(SetRun(x, ws, w), f), i - f.pos) <==> Bit(GetBits(SetRun(x, vs, w), f), i - f.pos);
    } else {
      OutsideFields(x, ws, fs, w, i);
      OutsideFields(x, vs, fs, w, i);
    }
  }
}
