/**
 The layout of a structure: every field's storage is of its kind, whatever it contains. It is all the
 decoder asks of the structure it decodes into, and decoding keeps it, for any bytes.
 */
module Layout {
  import opened Wire
  import opened Descriptor
  import opened Decoding
  import opened RoundTrip
  import Presence

  /** A nested structure that is decoded over is laid out; entries of arrays and union members are reset first. */
  predicate ValueLaid(f: Field, v: Value)
    decreases f, 0
  {
    f.ltype.LSubmessage? && !f.htype.Repeated? ==> v.Msg? && Laid(f.sub, v.slots)
  }

  predicate SlotLaid(f: Field, slot: Slot)
    decreases f, 1
  {
    match f.htype
    case Required => slot.Single? && ValueLaid(f, slot.v)
    case Optional => if f.HasSize() then slot.Flagged? && ValueLaid(f, slot.v) else slot.Single? && ValueLaid(f, slot.v)
    case Repeated => if f.HasSize() then slot.Many? else slot.Fixed? && |slot.items| == f.arraySize
    case OneOf => slot.Union?
  }

  predicate Laid(fields: seq<Field>, slots: seq<Slot>)
    decreases fields, 2
  {
    forall i :: 0 <= i < |fields| ==>
      Presence.InStruct(fields, slots, i) && SlotLaid(fields[i], slots[SlotOf(fields, i)])
  }

  // ---------------------------------------------------------------- a structure set to its defaults

  lemma {:induction false} ResetValueLaid(f: Field, v: Value)
    requires ResetValue(f, v)
    ensures ValueLaid(f, v)
    decreases f, 0
  {
    if f.ltype.LSubmessage? { ResetIsLaid(f.sub, v.slots); }
  }

  lemma {:induction false} ResetIsLaid(fields: seq<Field>, slots: seq<Slot>)
    requires ResetMessage(fields, slots, |fields|)
    ensures Laid(fields, slots)
    decreases fields, 2
  {
    hide ResetValue, ValueLaid;
    forall i | 0 <= i < |fields|
      ensures Presence.InStruct(fields, slots, i) && SlotLaid(fields[i], slots[SlotOf(fields, i)])
    {
      var f, slot := fields[i], slots[SlotOf(fields, i)];
      assert ResetSlot(f, slot);
      if f.htype.Required? || f.htype.Optional? { ResetValueLaid(f, slot.v); }
    }
  }

  /** Setting to defaults lays a structure out, whatever memory it was. */
  lemma DefaultsLaid(fields: seq<Field>, prev: seq<Slot>)
    ensures Laid(fields, Defaults(fields, prev))
  {
    hide Laid, ResetMessage, DefaultsTo;
    InitialState(fields, prev);
    ResetIsLaid(fields, Defaults(fields, prev));
  }

  // ---------------------------------------------------------------- decoding keeps the layout

  /** The storage a value is decoded over. */
  predicate Target(f: Field, prev: Value) {
    f.ltype.LSubmessage? && !f.htype.Repeated? ==> prev.Msg? && Laid(f.sub, prev.slots)
  }

  lemma ClearedLaid(f: Field)
    ensures Target(f, Cleared(f))
  {
    hide Laid, DefaultsTo;
    if f.ltype.LSubmessage? { DefaultsLaid(f.sub, []); }
  }

  lemma {:induction false} ValueDecodeLaid(f: Field, prev: Value, s: Bytes)
    requires FieldOk(f) && Target(f, prev) && DecValue(f, prev, s).Done?
    ensures ValueLaid(f, DecValue(f, prev, s).value)
    decreases f, 0
  {
    if f.ltype.LSubmessage? && !f.htype.Repeated? {
      hide DefaultsTo, Laid, TableOk, DecMessage, Delimited;
      MessageDecodeLaid(f.sub, prev.slots, Delimited(s).value);
    }
  }

  /** The running count of a fixed-count array stays within the array. */
  predicate CountFits(fields: seq<Field>, p: Progress) {
    0 <= p.fixedField < |fields| ==> p.fixedCount <= fields[p.fixedField].arraySize
  }

  lemma {:induction false} SingleDecodeLaid(fields: seq<Field>, f: Field, slot: Slot, s: Bytes)
    requires FieldOk(f) && !f.htype.Repeated? && SlotLaid(f, slot) && DecSingle(fields, f, slot, s).Done?
    ensures SlotLaid(f, DecSingle(fields, f, slot, s).value)
    decreases f, 1
  {
    hide DecValue, FieldOk, DefaultValue, Laid;
    if !f.htype.OneOf? { ValueDecodeLaid(f, slot.v, s); }
  }

  lemma {:induction false} FieldDecodeLaid(fields: seq<Field>, i: nat, p: Progress, wt: nat, s: Bytes)
    requires TableOk(fields) && i < |fields| && Laid(fields, p.slots) && CountFits(fields, p)
    requires DecField(fields, i, p, wt, s).Done?
    ensures var q := DecField(fields, i, p, wt, s).value; Laid(fields, q.slots) && CountFits(fields, q)
    decreases fields, 4
  {
    hide DecRepeated, DecSingle, ValueLaid, DefaultValue;
    var f, k := fields[i], SlotOf(fields, i);
    assert FieldOk(f) && SlotLaid(f, p.slots[k]);
    if !f.htype.Repeated? { SingleDecodeLaid(fields, f, p.slots[k], s); }
    StoreLaid(fields, p.slots, i, DecField(fields, i, p, wt, s).value.slots[k]);
  }

  /** Storing a slot of the right kind keeps the layout: a union has one kind for all its members. */
  lemma StoreLaid(fields: seq<Field>, slots: seq<Slot>, i: nat, slot: Slot)
    requires Laid(fields, slots) && i < |fields| && SlotLaid(fields[i], slot) && Presence.InStruct(fields, slots, i)
    ensures Laid(fields, slots[SlotOf(fields, i) := slot])
  {
    hide ValueLaid;
    var now := slots[SlotOf(fields, i) := slot];
    forall j | 0 <= j < |fields|
      ensures Presence.InStruct(fields, now, j) && SlotLaid(fields[j], now[SlotOf(fields, j)])
    {
      assert Presence.InStruct(fields, slots, j);
      if j != i && SlotOf(fields, j) == SlotOf(fields, i) {
        SharedSlotIsUnion(fields, if i < j then i else j, if i < j then j else i);
      }
    }
  }

  lemma {:induction false} StepDecodeLaid(fields: seq<Field>, p: Progress, wt: nat, tag: nat, s: Bytes)
    requires TableOk(fields) && Laid(fields, p.slots) && CountFits(fields, p) && DecStep(fields, p, wt, tag, s).Done?
    ensures var q := DecStep(fields, p, wt, tag, s).value; Laid(fields, q.slots) && CountFits(fields, q)
    decreases fields, 5
  {
    hide DecField, Skip, Dec32, Laid, TableOk;
    if !(fields == [] && tag == 0) && Lookup(fields, tag) < |fields| {
      FieldDecodeLaid(fields, Lookup(fields, tag), p, wt, s);
    }
  }

  lemma {:induction false} LoopDecodeLaid(fields: seq<Field>, p: Progress, s: Bytes)
    requires TableOk(fields) && Laid(fields, p.slots) && CountFits(fields, p)
    ensures !DecLoop(fields, p, s).LoopFail? ==> Laid(fields, DecLoop(fields, p, s).p.slots)
    decreases fields, 6, |s|
  {
    hide DecStep, DecTag, Laid, TableOk, CountFits;
    if s != [] && DecTag(s).Tag? {
      var tg := DecTag(s);
      var r := DecStep(fields, p, tg.wireType, tg.tag, tg.rest);
      if r.Done? {
        StepDecodeLaid(fields, p, tg.wireType, tg.tag, tg.rest);
        LoopDecodeLaid(fields, r.value, r.rest);
      }
    }
  }

  lemma {:induction false} MessageDecodeLaid(fields: seq<Field>, slots: seq<Slot>, s: Bytes)
    requires TableOk(fields) && Laid(fields, slots) && DecMessage(fields, slots, s).Done?
    ensures Laid(fields, DecMessage(fields, slots, s).value)
    decreases fields, 7
  {
    hide DecLoop, Laid, TableOk;
    LoopDecodeLaid(fields, Start(slots), s);
  }
}
