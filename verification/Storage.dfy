/** Whatever the bytes, a successful decode leaves values of their fields' types, within their capacities. */
module Storage {
  import opened Wire
  import opened Descriptor
  import opened Encoding
  import opened Decoding
  import opened Integers
  import opened Layout
  import Presence

  /** The value is one that a member of the field's C type and size can hold. */
  predicate ValueFits(f: Field, v: Value)
    decreases f, 0
  {
    match f.ltype
    case LBool => v == Num(0) || v == Num(1)
    case LFixed32 => v.Num? && 0 <= v.n < TWO32
    case LFixed64 => v.Num? && 0 <= v.n < TWO64
    case LBytes => v.Blob? && |v.b| + BYTES_OFFSET <= f.dataSize
    case LString => v.Blob? && |v.b| < f.dataSize
    case LFixedLengthBytes => v.Blob? && |v.b| == f.dataSize
    case LSubmessage => v.Msg? && Fits(f.sub, v.slots)
    case _ => v.Num? && (IntegerSize(f.dataSize) ==> InRange(f.ltype, f.dataSize, v.n))
  }

  predicate ItemsFit(f: Field, items: seq<Value>)
    decreases f, 1
  {
    |items| <= f.arraySize && forall j :: 0 <= j < |items| ==> ValueFits(f, items[j])
  }

  predicate SlotFits(f: Field, slot: Slot)
    decreases f, 2
  {
    match f.htype
    case Required => slot.Single? && ValueFits(f, slot.v)
    case Optional => if f.HasSize() then slot.Flagged? && ValueFits(f, slot.v) else slot.Single? && ValueFits(f, slot.v)
    case Repeated =>
      if f.HasSize() then slot.Many? && ItemsFit(f, slot.items)
      else slot.Fixed? && |slot.items| == f.arraySize && ItemsFit(f, slot.items)
    case OneOf => slot.Union? && (slot.which == f.tag ==> ValueFits(f, slot.v))
  }

  predicate Fits(fields: seq<Field>, slots: seq<Slot>)
    decreases fields, 3
  {
    && |slots| == SlotCount(fields)
    && forall i :: 0 <= i < |fields| ==>
         Presence.InStruct(fields, slots, i) && SlotFits(fields[i], slots[SlotOf(fields, i)])
  }

  /** The generated table reserves room for a length word and a terminator, and its defaults fit. */
  predicate Sound(f: Field)
    decreases f, 0
  {
    && (f.ltype.LBytes? ==> f.dataSize >= BYTES_OFFSET)
    && (f.ltype.LString? ==> f.dataSize >= 1)
    && (f.ltype.LSubmessage? ==> AllSound(f.sub))
    && (f.default.Custom? && !f.ltype.LSubmessage? ==> ValueFits(f, f.default.v))
  }

  predicate AllSound(fields: seq<Field>)
    decreases fields, 1
  {
    forall i :: 0 <= i < |fields| ==> Sound(fields[i])
  }

  // ---------------------------------------------------------------- defaults fit

  /** Storage about to be reset: a structure of its type, or memory not in use yet. */
  predicate Reusable(fields: seq<Field>, prev: seq<Slot>) {
    prev == [] || Fits(fields, prev)
  }

  lemma {:induction false} DefaultValueFits(f: Field, prev: Value)
    requires FieldOk(f) && Sound(f)
    requires f.ltype.LSubmessage? && prev.Msg? ==> Reusable(f.sub, prev.slots)
    ensures ValueFits(f, DefaultValue(f, prev))
    decreases f, 0
  {
    if f.ltype.LSubmessage? {
      hide DefaultsTo, Fits, TableOk, AllSound;
      DefaultsFit(f.sub, if prev.Msg? then prev.slots else []);
    }
  }

  /** Zeroed memory is a value of any type. */
  lemma {:induction false} ZeroValueFits(f: Field)
    requires FieldOk(f) && Sound(f)
    ensures ValueFits(f, ZeroValue(f))
    decreases f, 0
  {
    if f.ltype.LSubmessage? {
      hide ZeroTo, Fits, TableOk, AllSound;
      ZeroFits(f.sub);
    }
  }

  lemma ZeroSlotFits(f: Field)
    requires f.tag != 0 && ValueFits(f, ZeroValue(f))
    ensures FreshSlot(f, ZeroSlot(f))
  {
    var items := seq(f.arraySize, _ => ZeroValue(f));
    assert forall j :: 0 <= j < |items| ==> items[j] == ZeroValue(f);
    assert ItemsFit(f, []) && ItemsFit(f, items);
    hide ValueFits, ZeroValue, ItemsFit;
  }

  lemma {:induction false} ZeroToFresh(fields: seq<Field>, n: nat)
    requires TableOk(fields) && AllSound(fields) && n <= |fields|
    ensures FreshTo(fields, ZeroTo(fields, n), n)
    decreases fields, n
  {
    hide ValueFits, ZeroValue, ZeroSlot, FieldOk, Sound, FreshTo, FreshSlot;
    if n == 0 {
      EmptyFresh(fields);
    } else {
      var f := fields[n - 1];
      assert FieldOk(f) && Sound(f);
      NonzeroTag(f);
      ZeroToFresh(fields, n - 1);
      ZeroValueFits(f);
      ZeroSlotFits(f);
      FreshNext(fields, ZeroTo(fields, n - 1), ZeroTo(fields, n), n);
    }
  }

  lemma {:induction false} ZeroFits(fields: seq<Field>)
    requires TableOk(fields) && AllSound(fields)
    ensures Fits(fields, ZeroTo(fields, |fields|))
    decreases fields, |fields| + 1
  {
    hide SlotFits;
    ZeroToFresh(fields, |fields|);
  }

  lemma {:induction false} DefaultSlotFits(f: Field, prev: Slot)
    requires FieldOk(f) && Sound(f) && f.tag != 0 && (SlotFits(f, prev) || prev == Single(Num(0)))
    ensures SlotFits(f, DefaultSlot(f, prev))
    decreases f, 1
  {
    hide DefaultValue, Fits, FieldOk, Sound;
    if f.htype.Required? || f.htype.Optional? {
      DefaultValueFits(f, if prev.Single? || prev.Flagged? then prev.v else Num(0));
      DefaultValueFits(f, Num(0));
    } else {
      ZeroValueFits(f);
    }
  }

  /** A slot in its initial state. */
  predicate FreshSlot(f: Field, slot: Slot) {
    SlotFits(f, slot) && (f.htype.OneOf? ==> slot.Union? && slot.which == 0)
  }

  predicate FreshTo(fields: seq<Field>, slots: seq<Slot>, n: nat)
    requires n <= |fields|
  {
    |slots| == SlotsBefore(fields, n)
    && forall i :: 0 <= i < n ==>
         Presence.InStruct(fields, slots, i) && FreshSlot(fields[i], slots[SlotOf(fields, i)])
  }

  /** Adding the slot of the next entry, or sharing the last one inside a union. */
  lemma FreshNext(fields: seq<Field>, r: seq<Slot>, now: seq<Slot>, n: nat)
    requires 0 < n <= |fields| && FreshTo(fields, r, n - 1) && fields[n - 1].tag != 0
    requires InUnion(fields, n - 1) ==> now == r
    requires !InUnion(fields, n - 1) ==> |now| == |r| + 1 && now[..|r|] == r && FreshSlot(fields[n - 1], now[|r|])
    ensures FreshTo(fields, now, n)
  {
    hide SlotFits;
    if InUnion(fields, n - 1) {
      assert Presence.InStruct(fields, r, n - 2);
      EmptyUnionFits(fields[n - 1], r[SlotOf(fields, n - 2)]);
    }
    forall i | 0 <= i < n
      ensures Presence.InStruct(fields, now, i) && FreshSlot(fields[i], now[SlotOf(fields, i)])
    {
      if i < n - 1 { assert Presence.InStruct(fields, r, i); }
    }
  }

  lemma {:induction false} DefaultsToFresh(fields: seq<Field>, prev: seq<Slot>, n: nat)
    requires TableOk(fields) && AllSound(fields) && n <= |fields| && Reusable(fields, prev)
    ensures FreshTo(fields, DefaultsTo(fields, prev, n), n)
    decreases fields, n
  {
    hide DefaultSlot, SlotFits, FieldOk, Sound, FreshTo;
    if n == 0 {
      EmptyFresh(fields);
    } else {
      var r, f := DefaultsTo(fields, prev, n - 1), fields[n - 1];
      DefaultsToFresh(fields, prev, n - 1);
      assert FieldOk(f) && Sound(f);
      NonzeroTag(f);
      if !InUnion(fields, n - 1) {
        var before := if |r| < |prev| then prev[|r|] else Single(Num(0));
        assert |r| == SlotOf(fields, n - 1);
        if |r| < |prev| { assert Presence.InStruct(fields, prev, n - 1); }
        DefaultSlotFits(f, before);
        UnionDefault(f, before);
      }
      FreshNext(fields, r, DefaultsTo(fields, prev, n), n);
    }
  }

  lemma EmptyFresh(fields: seq<Field>)
    ensures FreshTo(fields, [], 0)
  {
  }

  lemma NonzeroTag(f: Field)
    requires FieldOk(f)
    ensures f.tag != 0
  {
  }

  lemma EmptyUnionFits(f: Field, slot: Slot)
    requires f.htype.OneOf? && f.tag != 0 && slot.Union? && slot.which == 0
    ensures SlotFits(f, slot)
  {
  }

  lemma UnionDefault(f: Field, prev: Slot)
    ensures f.htype.OneOf? ==> DefaultSlot(f, prev).Union? && DefaultSlot(f, prev).which == 0
  {
  }

  lemma {:induction false} DefaultsFit(fields: seq<Field>, prev: seq<Slot>)
    requires TableOk(fields) && AllSound(fields) && Reusable(fields, prev)
    ensures Fits(fields, Defaults(fields, prev))
    decreases fields, |fields| + 1
  {
    hide SlotFits, FieldOk, Sound, DefaultsTo;
    DefaultsToFresh(fields, prev, |fields|);
  }

  // ---------------------------------------------------------------- decoding keeps storage fitting

  lemma {:induction false} LittleEndianBelow(b: Bytes)
    ensures FromLittleEndian(b) < Pow256(|b|)
  {
    if b != [] { LittleEndianBelow(b[1..]); }
  }

  lemma ScalarFits(f: Field, prev: Value, s: Bytes)
    requires f.Packable() && DecValue(f, prev, s).Done?
    ensures ValueFits(f, DecValue(f, prev, s).value)
  {
    hide Dec32, Dec64, FromLittleEndian, InRange, Integer;
    if f.ltype.LFixed32? {
      LittleEndianBelow(s[..4]);
      assert Pow256(4) == TWO32;
    } else if f.ltype.LFixed64? {
      LittleEndianBelow(s[..8]);
      assert Pow256(8) == TWO64;
    } else if !f.ltype.LBool? {
      IntegerInRange(f.ltype, f.dataSize, Dec64(s).value);
    }
  }

  /** One item: a number in range, a string within capacity, or a nested structure that fits. */
  lemma {:induction false} ValueDecodeFits(f: Field, prev: Value, s: Bytes)
    requires FieldOk(f) && Sound(f) && DecValue(f, prev, s).Done?
    requires f.ltype.LSubmessage? ==>
               prev.Msg? && (Fits(f.sub, prev.slots) || (f.htype.Repeated? && prev.slots == []))
    ensures ValueFits(f, DecValue(f, prev, s).value)
    decreases f, 0
  {
    hide DefaultsTo, Fits, TableOk, AllSound, DecMessage, Delimited, Dec32, Dec64, InRange, Integer, FromLittleEndian;
    if f.Packable() {
      ScalarFits(f, prev, s);
    } else if f.ltype.LSubmessage? {
      if f.htype.Repeated? { DefaultsFit(f.sub, prev.slots); }
      var start := if f.htype.Repeated? then Defaults(f.sub, prev.slots) else prev.slots;
      MessageDecodeFits(f.sub, start, Delimited(s).value);
    }
  }

  lemma {:induction false} PackedDecodeFits(f: Field, cur: seq<Value>, s: Bytes)
    requires f.Packable() && ItemsFit(f, cur) && DecPacked(f, cur, s).Done?
    ensures ItemsFit(f, DecPacked(f, cur, s).value)
    decreases f.arraySize - |cur|
  {
    hide DecValue, ValueFits;
    if s != [] && |cur| < f.arraySize {
      var r := DecValue(f, DefaultValue(f, Num(0)), s);
      ScalarFits(f, DefaultValue(f, Num(0)), s);
      PackedDecodeFits(f, cur + [r.value], r.rest);
    }
  }

  lemma {:induction false} RepeatedDecodeFits(f: Field, wt: nat, cur: seq<Value>, prev: Value, s: Bytes)
    requires FieldOk(f) && Sound(f) && ItemsFit(f, cur) && ValueFits(f, prev) && f.htype.Repeated?
    requires DecRepeated(f, wt, cur, prev, s).Done?
    ensures ItemsFit(f, DecRepeated(f, wt, cur, prev, s).value)
    decreases f, 1
  {
    hide DecPacked, Delimited, DecValue, FieldOk, Sound;
    if wt == WT_STRING && f.Packable() {
      PackedDecodeFits(f, cur, Delimited(s).value);
    } else {
      ValueDecodeFits(f, prev, s);
    }
  }

  lemma {:induction false} SingleDecodeFits(fields: seq<Field>, f: Field, slot: Slot, s: Bytes)
    requires FieldOk(f) && Sound(f) && !f.htype.Repeated? && SlotFits(f, slot)
    requires DecSingle(fields, f, slot, s).Done?
    ensures SlotFits(f, DecSingle(fields, f, slot, s).value)
    ensures f.htype.OneOf? ==> DecSingle(fields, f, slot, s).value.which == f.tag
    decreases f, 1
  {
    hide DecValue, FieldOk, Sound, DefaultValue;
    DefaultValueFits(f, Num(0));
    ValueDecodeFits(f, if f.htype.OneOf? then Cleared(f) else slot.v, s);
  }

  lemma {:induction false} FieldDecodeFits(fields: seq<Field>, i: nat, p: Progress, wt: nat, s: Bytes)
    requires TableOk(fields) && AllSound(fields) && i < |fields|
    requires Fits(fields, p.slots) && CountFits(fields, p) && DecField(fields, i, p, wt, s).Done?
    ensures var q := DecField(fields, i, p, wt, s).value; Fits(fields, q.slots) && CountFits(fields, q)
    decreases fields, 4
  {
    hide DecRepeated, DecSingle, ValueFits, DefaultValue;
    var f, k := fields[i], SlotOf(fields, i);
    assert FieldOk(f) && Sound(f) && SlotFits(f, p.slots[k]);
    var q := DecField(fields, i, p, wt, s).value;
    if f.FixedCount() {
      var count := if p.fixedField == i then p.fixedCount else 0;
      var items := p.slots[k].items;
      DefaultValueFits(f, Num(0));
      if count < |items| {
        RepeatedDecodeFits(f, wt, items[..count], items[count], s);
      } else {
        FullArray(f, wt, items[..count], s);
      }
    } else if f.htype.Repeated? {
      DefaultValueFits(f, Num(0));
      RepeatedDecodeFits(f, wt, p.slots[k].items, DefaultValue(f, Num(0)), s);
    } else {
      SingleDecodeFits(fields, f, p.slots[k], s);
    }
    StoreFits(fields, p.slots, i, q.slots[k]);
  }

  /** A full array accepts only an empty packed run. */
  lemma FullArray(f: Field, wt: nat, cur: seq<Value>, s: Bytes)
    requires |cur| == f.arraySize && DecRepeated(f, wt, cur, Num(0), s).Done?
    ensures DecRepeated(f, wt, cur, Num(0), s).value == cur
  {
  }

  /** Storing a fitting slot keeps the structure fitting, other members of its union included. */
  lemma StoreFits(fields: seq<Field>, slots: seq<Slot>, i: nat, slot: Slot)
    requires UniqueTags(fields) && Fits(fields, slots) && i < |fields| && SlotFits(fields[i], slot)
    requires Presence.InStruct(fields, slots, i)
    requires fields[i].htype.OneOf? ==> slot.which == fields[i].tag
    ensures Fits(fields, slots[SlotOf(fields, i) := slot])
  {
    hide ValueFits, ItemsFit;
    var now := slots[SlotOf(fields, i) := slot];
    forall j | 0 <= j < |fields|
      ensures Presence.InStruct(fields, now, j) && SlotFits(fields[j], now[SlotOf(fields, j)])
    {
      assert Presence.InStruct(fields, slots, j);
      if j != i && SlotOf(fields, j) == SlotOf(fields, i) {
        SharedSlotIsUnion(fields, if i < j then i else j, if i < j then j else i);
        assert fields[i].tag != fields[j].tag;
      }
    }
  }

  lemma {:induction false} StepDecodeFits(fields: seq<Field>, p: Progress, wt: nat, tag: nat, s: Bytes)
    requires TableOk(fields) && AllSound(fields) && Fits(fields, p.slots) && CountFits(fields, p)
    requires DecStep(fields, p, wt, tag, s).Done?
    ensures var q := DecStep(fields, p, wt, tag, s).value; Fits(fields, q.slots) && CountFits(fields, q)
    decreases fields, 5
  {
    hide DecField, Skip, Dec32, Fits, TableOk, AllSound;
    if !(fields == [] && tag == 0) && Lookup(fields, tag) < |fields| {
      FieldDecodeFits(fields, Lookup(fields, tag), p, wt, s);
    }
  }

  lemma {:induction false} LoopDecodeFits(fields: seq<Field>, p: Progress, s: Bytes)
    requires TableOk(fields) && AllSound(fields) && Fits(fields, p.slots) && CountFits(fields, p)
    ensures !DecLoop(fields, p, s).LoopFail? ==> Fits(fields, DecLoop(fields, p, s).p.slots)
    decreases fields, 6, |s|
  {
    hide DecStep, DecTag, Fits, TableOk, AllSound, CountFits;
    if s != [] && DecTag(s).Tag? {
      var tg := DecTag(s);
      var r := DecStep(fields, p, tg.wireType, tg.tag, tg.rest);
      if r.Done? {
        StepDecodeFits(fields, p, tg.wireType, tg.tag, tg.rest);
        LoopDecodeFits(fields, r.value, r.rest);
      }
    }
  }

  /** Type and capacity safety of pb_decode_noinit, for any input bytes. */
  lemma {:induction false} MessageDecodeFits(fields: seq<Field>, slots: seq<Slot>, s: Bytes)
    requires TableOk(fields) && AllSound(fields) && Fits(fields, slots) && DecMessage(fields, slots, s).Done?
    ensures Fits(fields, DecMessage(fields, slots, s).value)
    decreases fields, 7
  {
    hide DecLoop, Fits, TableOk, AllSound;
    LoopDecodeFits(fields, Start(slots), s);
  }
}
