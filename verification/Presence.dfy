/** Implicit presence: the recursive default check against what the encoder actually writes. */
module Presence {
  import opened Wire
  import opened Descriptor
  import opened Encoding

  /** The entry reads a slot that exists. */
  predicate InStruct(fields: seq<Field>, slots: seq<Slot>, i: nat)
    requires i < |fields|
  {
    SlotOf(fields, i) < |slots|
  }

  /** A selector that names another field of the union, or none at all: the entry writes nothing. */
  predicate OtherMember(f: Field, slot: Slot) {
    f.htype.OneOf? && slot.Union? && slot.which != 0 && slot.which != f.tag
  }

  /** A fixed-count array without entries: never default, yet nothing to write. */
  predicate EmptyArray(f: Field, slot: Slot) {
    f.FixedCount() && f.arraySize == 0 && slot.Fixed? && slot.items == []
  }

  lemma TagNotEmpty(f: Field, v: Value)
    ensures EncTagged(f, v) != Wrote([])
  {
    hide EncValue;
    if EncTagged(f, v).Wrote? {
      assert |EncTagged(f, v).bytes| >= |EncTag(f.tag, WireType(f.ltype))|;
    }
  }

  lemma ArrayNotEmpty(f: Field, items: seq<Value>)
    ensures EncArray(f, items) == Wrote([]) <==> items == []
  {
    hide EncValue, EncPacked;
    if items != [] && |items| <= f.arraySize {
      if f.Packable() {
        if EncPacked(f, items).Wrote? {
          assert |EncTag(f.tag, WT_STRING) + EncString(EncPacked(f, items).bytes)| >= 1;
        }
      } else {
        var last := EncTagged(f, items[|items| - 1]);
        TagNotEmpty(f, items[|items| - 1]);
        if last.Wrote? && EncUnpacked(f, items).Wrote? {
          assert |EncUnpacked(f, items).bytes| >= |last.bytes|;
        }
      }
    }
  }

  /** Exactly when one field writes nothing. */
  lemma FieldWritesNothing(f: Field, slot: Slot)
    requires f.tag != 0
    ensures EncField(f, slot) == Wrote([]) <==> IsDefault(f, slot) || EmptyArray(f, slot) || OtherMember(f, slot)
  {
    hide EncTagged, EncArray, IsZero;
    if slot.Single? || slot.Flagged? || slot.Union? {
      TagNotEmpty(f, slot.v);
    } else {
      ArrayNotEmpty(f, slot.items);
    }
  }

  /** Exactly when a whole message writes nothing. */
  lemma {:induction false} MessageWritesNothing(fields: seq<Field>, slots: seq<Slot>, n: nat)
    requires n <= |fields|
    ensures EncTo(fields, slots, n) == Wrote([])
       <==> forall i :: 0 <= i < n ==>
              InStruct(fields, slots, i) && EncField(fields[i], slots[SlotOf(fields, i)]) == Wrote([])
    decreases n
  {
    hide EncField;
    if n > 0 {
      MessageWritesNothing(fields, slots, n - 1);
      if EncTo(fields, slots, n).Wrote? {
        var e := EncField(fields[n - 1], slots[SlotOf(fields, n - 1)]);
        assert |EncTo(fields, slots, n).bytes| == |EncTo(fields, slots, n - 1).bytes| + |e.bytes|;
      }
    }
  }

  lemma {:induction false} AllDefaultMeans(fields: seq<Field>, slots: seq<Slot>, n: nat)
    requires n <= |fields|
    ensures AllDefault(fields, slots, n)
       <==> forall i :: 0 <= i < n ==>
              InStruct(fields, slots, i) && IsDefault(fields[i], slots[SlotOf(fields, i)])
    decreases n
  {
    hide IsDefault;
    if n > 0 { AllDefaultMeans(fields, slots, n - 1); }
  }

  /** Entries of a table have non-zero tags: tag 0 is its terminator. */
  predicate NonzeroTags(fields: seq<Field>) {
    forall i :: 0 <= i < |fields| ==> fields[i].tag != 0
  }

  /** The entry breaks the rules the default check relies on. */
  predicate Irregular(fields: seq<Field>, slots: seq<Slot>, i: nat)
    requires i < |fields|
  {
    && InStruct(fields, slots, i)
    && var slot := slots[SlotOf(fields, i)];
       EmptyArray(fields[i], slot) || OtherMember(fields[i], slot)
  }

  /**
   The exact gap between the default check and the encoder, on every structure: the check holds exactly
   of a message of zero bytes in which no entry is an empty fixed-count array or stands under a selector
   that names another member of its union, or none.
   */
  lemma DefaultCheckGap(fields: seq<Field>, slots: seq<Slot>)
    requires NonzeroTags(fields)
    ensures AllDefault(fields, slots, |fields|)
       <==> Enc(fields, slots) == Wrote([]) && forall i :: 0 <= i < |fields| ==> !Irregular(fields, slots, i)
  {
    hide EncField, IsDefault, AllDefault;
    MessageWritesNothing(fields, slots, |fields|);
    AllDefaultMeans(fields, slots, |fields|);
    forall i | 0 <= i < |fields| && InStruct(fields, slots, i)
      ensures EncField(fields[i], slots[SlotOf(fields, i)]) == Wrote([])
         <==> IsDefault(fields[i], slots[SlotOf(fields, i)]) || Irregular(fields, slots, i)
      ensures Irregular(fields, slots, i) ==> !IsDefault(fields[i], slots[SlotOf(fields, i)])
    {
      FieldWritesNothing(fields[i], slots[SlotOf(fields, i)]);
      IrregularNotDefault(fields[i], slots[SlotOf(fields, i)]);
    }
  }

  /** An irregular entry is never default. */
  lemma IrregularNotDefault(f: Field, slot: Slot)
    ensures EmptyArray(f, slot) || OtherMember(f, slot) ==> !IsDefault(f, slot)
  {
  }

  /** Fixed-count arrays have entries, and every selector is zero or names an entry of its union. */
  predicate Regular(fields: seq<Field>, slots: seq<Slot>) {
    forall i :: 0 <= i < |fields| && InStruct(fields, slots, i) ==>
      && !EmptyArray(fields[i], slots[SlotOf(fields, i)])
      && SelectorOk(fields, slots[SlotOf(fields, i)], i)
  }

  predicate SelectorOk(fields: seq<Field>, slot: Slot, i: nat)
    requires i < |fields|
  {
    fields[i].htype.OneOf? && slot.Union? && slot.which != 0 ==>
      exists j :: 0 <= j < |fields| && SlotOf(fields, j) == SlotOf(fields, i)
                  && fields[j].htype.OneOf? && fields[j].tag == slot.which
  }

  /** Implicit presence is exact: the default check holds exactly of the messages of zero bytes. */
  lemma ImplicitPresenceExact(fields: seq<Field>, slots: seq<Slot>)
    requires NonzeroTags(fields) && Regular(fields, slots)
    ensures AllDefault(fields, slots, |fields|) <==> Enc(fields, slots) == Wrote([])
  {
    hide EncField, IsDefault, AllDefault;
    DefaultCheckGap(fields, slots);
    MessageWritesNothing(fields, slots, |fields|);
    if Enc(fields, slots) == Wrote([]) {
      forall i | 0 <= i < |fields|
        ensures !Irregular(fields, slots, i)
      {
        var slot := slots[SlotOf(fields, i)];
        if Irregular(fields, slots, i) {
          var j :| 0 <= j < |fields| && SlotOf(fields, j) == SlotOf(fields, i)
                   && fields[j].htype.OneOf? && fields[j].tag == slot.which;
          FieldWritesNothing(fields[j], slot);
          ChosenNotDefault(fields[j], slot);
        }
      }
    }
  }

  lemma ChosenNotDefault(f: Field, slot: Slot)
    requires f.htype.OneOf? && slot.Union? && slot.which != 0
    ensures !IsDefault(f, slot)
  {
  }

  /** So a proto3 singular submessage is omitted exactly when its own encoding is empty. */
  lemma SubmessageOmitted(f: Field, slots: seq<Slot>)
    requires f.tag != 0 && f.Implicit() && f.ltype.LSubmessage?
    requires NonzeroTags(f.sub) && Regular(f.sub, slots)
    ensures EncField(f, Single(Msg(slots))) == Wrote([]) <==> Enc(f.sub, slots) == Wrote([])
  {
    hide EncTo, EncField;
    ImplicitPresenceExact(f.sub, slots);
    assert IsZero(f, Msg(slots)) <==> AllDefault(f.sub, slots, |f.sub|);
    FieldWritesNothing(f, Single(Msg(slots)));
  }

  /** The value is of its field's kind; a nested structure keeps the rules the default check relies on. */
  predicate OfKind(f: Field, v: Value) {
    match f.ltype
    case LBytes => v.Blob?
    case LString => v.Blob?
    case LFixedLengthBytes => v.Blob?
    case LSubmessage => v.Msg? && NonzeroTags(f.sub) && Regular(f.sub, v.slots)
    case _ => v.Num?
  }

  /**
   What a field with implicit presence leaves out: the number zero, no bytes, a string that ends before its
   first character, a fixed-length field of no length, and a message that has nothing to write itself.
   */
  lemma ZeroIsOmitted(f: Field, v: Value)
    requires f.tag != 0 && f.Implicit() && OfKind(f, v)
    ensures EncField(f, Single(v)) == Wrote([])
       <==> match f.ltype
            case LBytes => v.b == []
            case LString => v.b == [] || v.b[0] == 0
            case LFixedLengthBytes => f.dataSize == 0
            case LSubmessage => Enc(f.sub, v.slots) == Wrote([])
            case _ => v.n == 0
  {
    hide EncTo, EncField, AllDefault;
    if f.ltype.LSubmessage? {
      SubmessageOmitted(f, v.slots);
    } else {
      FieldWritesNothing(f, Single(v));
    }
  }
}
