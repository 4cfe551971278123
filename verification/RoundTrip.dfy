/** Decoding what was encoded gives the structure back, at every nesting depth. */
module RoundTrip {
  import opened Wire
  import opened Descriptor
  import opened Encoding
  import opened Decoding
  import opened Integers
  import Presence

  // ---------------------------------------------------------------- which structures round-trip

  /** A value of its field's type and capacity; strings are NUL-terminated, nested lengths fit 32 bits. */
  predicate ValueOk(f: Field, v: Value)
    decreases f, 0
  {
    match f.ltype
    case LBool => v == Num(0) || v == Num(1)
    case LFixed32 => v.Num? && 0 <= v.n < TWO32
    case LFixed64 => v.Num? && 0 <= v.n < TWO64
    case LBytes => v.Blob? && |v.b| + BYTES_OFFSET <= f.dataSize
    case LString => v.Blob? && |v.b| < f.dataSize && 0 !in v.b
    case LFixedLengthBytes => v.Blob? && |v.b| == f.dataSize
    case LSubmessage =>
      v.Msg? && MessageOk(f.sub, v.slots) && Enc(f.sub, v.slots).Wrote? && |Enc(f.sub, v.slots).bytes| < TWO32
    case _ => v.Num? && IntegerSize(f.dataSize) && InRange(f.ltype, f.dataSize, v.n)
  }

  predicate ItemsOk(f: Field, items: seq<Value>)
    decreases f, 1
  {
    && |items| <= f.arraySize && (forall j :: 0 <= j < |items| ==> ValueOk(f, items[j]))
    && (f.Packable() ==> EncPacked(f, items).Wrote? && |EncPacked(f, items).bytes| < TWO32)
  }

  /** An omitted zero must be what the decoder leaves there: a custom default would show instead. */
  predicate OmissionOk(f: Field, v: Value) {
    f.default.Custom? && !f.ltype.LSubmessage? && IsZero(f, v) ==> f.default.v == v
  }

  predicate SlotOk(f: Field, slot: Slot)
    decreases f, 2
  {
    match f.htype
    case Required => slot.Single? && ValueOk(f, slot.v)
    case Optional =>
      if f.HasSize() then slot.Flagged? && (slot.has ==> ValueOk(f, slot.v))
      else slot.Single? && ValueOk(f, slot.v) && OmissionOk(f, slot.v)
    case Repeated =>
      if f.HasSize() then slot.Many? && ItemsOk(f, slot.items)
      else slot.Fixed? && |slot.items| == f.arraySize && ItemsOk(f, slot.items)
    case OneOf => slot.Union? && (slot.which == f.tag ==> ValueOk(f, slot.v))
  }

  predicate MessageOk(fields: seq<Field>, slots: seq<Slot>)
    decreases fields, 3
  {
    && |slots| == SlotCount(fields)
    && forall i :: 0 <= i < |fields| ==>
         && Presence.InStruct(fields, slots, i)
         && SlotOk(fields[i], slots[SlotOf(fields, i)])
         && Presence.SelectorOk(fields, slots[SlotOf(fields, i)], i)
  }

  // ---------------------------------------------------------------- equality up to absent contents

  predicate SameValue(f: Field, a: Value, b: Value)
    decreases f, 0
  {
    if f.ltype.LSubmessage? then a.Msg? && b.Msg? && SameMessage(f.sub, a.slots, b.slots) else a == b
  }

  predicate SameItems(f: Field, a: seq<Value>, b: seq<Value>)
    decreases f, 1
  {
    |a| == |b| && forall j :: 0 <= j < |a| ==> SameValue(f, a[j], b[j])
  }

  /** Equal as far as the field is present: an absent optional and an unselected union have no contents. */
  predicate SameSlot(f: Field, a: Slot, b: Slot)
    decreases f, 2
  {
    match f.htype
    case Required => a.Single? && b.Single? && SameValue(f, a.v, b.v)
    case Optional =>
      if f.HasSize() then a.Flagged? && b.Flagged? && a.has == b.has && (a.has ==> SameValue(f, a.v, b.v))
      else a.Single? && b.Single? && SameValue(f, a.v, b.v)
    case Repeated =>
      if f.HasSize() then a.Many? && b.Many? && SameItems(f, a.items, b.items)
      else a.Fixed? && b.Fixed? && SameItems(f, a.items, b.items)
    case OneOf => a.Union? && b.Union? && a.which == b.which && (a.which == f.tag ==> SameValue(f, a.v, b.v))
  }

  predicate SameMessage(fields: seq<Field>, a: seq<Slot>, b: seq<Slot>)
    decreases fields, 3
  {
    forall i :: 0 <= i < |fields| ==>
      && Presence.InStruct(fields, a, i) && Presence.InStruct(fields, b, i)
      && SameSlot(fields[i], a[SlotOf(fields, i)], b[SlotOf(fields, i)])
  }

  // ---------------------------------------------------------------- a structure set to its defaults

  predicate ResetValue(f: Field, v: Value)
    decreases f, 0
  {
    if f.ltype.LSubmessage? then v.Msg? && ResetMessage(f.sub, v.slots, |f.sub|) else v == DefaultValue(f, Num(0))
  }

  predicate ResetSlot(f: Field, slot: Slot)
    decreases f, 1
  {
    match f.htype
    case Required => slot.Single? && ResetValue(f, slot.v)
    case Optional =>
      if f.HasSize() then slot.Flagged? && !slot.has && ResetValue(f, slot.v)
      else slot.Single? && ResetValue(f, slot.v)
    case Repeated => if f.HasSize() then slot == Many([]) else slot.Fixed? && |slot.items| == f.arraySize
    case OneOf => slot.Union? && slot.which == 0
  }

  predicate ResetMessage(fields: seq<Field>, slots: seq<Slot>, n: nat)
    requires n <= |fields|
    decreases fields, 2
  {
    && |slots| == SlotsBefore(fields, n)
    && forall i :: 0 <= i < n ==>
         Presence.InStruct(fields, slots, i) && ResetSlot(fields[i], slots[SlotOf(fields, i)])
  }

  lemma {:induction false} DefaultValueReset(f: Field, prev: Value)
    ensures ResetValue(f, DefaultValue(f, prev))
    decreases f, 0
  {
    if f.ltype.LSubmessage? {
      DefaultsReset(f.sub, if prev.Msg? then prev.slots else [], |f.sub|);
    }
  }

  lemma {:induction false} DefaultSlotReset(f: Field, prev: Slot)
    ensures ResetSlot(f, DefaultSlot(f, prev))
    decreases f, 1
  {
    hide DefaultValue, ResetValue;
    DefaultValueReset(f, if prev.Single? || prev.Flagged? then prev.v else Num(0));
    DefaultValueReset(f, Num(0));
  }

  /** pb_message_set_to_defaults leaves every field in its initial state, whatever was there before. */
  lemma {:induction false} DefaultsReset(fields: seq<Field>, prev: seq<Slot>, n: nat)
    requires n <= |fields|
    ensures ResetMessage(fields, DefaultsTo(fields, prev, n), n)
    decreases fields, n
  {
    hide DefaultSlot, ResetSlot;
    if n > 0 {
      var r := DefaultsTo(fields, prev, n - 1);
      DefaultsReset(fields, prev, n - 1);
      var now := DefaultsTo(fields, prev, n);
      DefaultSlotReset(fields[n - 1], if |r| < |prev| then prev[|r|] else Single(Num(0)));
      forall i | 0 <= i < n
        ensures Presence.InStruct(fields, now, i) && ResetSlot(fields[i], now[SlotOf(fields, i)])
      {
        if i < n - 1 {
          assert Presence.InStruct(fields, r, i);
        } else if InUnion(fields, i) {
          assert Presence.InStruct(fields, r, i - 1);
          UnionReset(fields[i - 1], fields[i], r[SlotOf(fields, i - 1)]);
        }
      }
    }
  }

  lemma UnionReset(f: Field, g: Field, slot: Slot)
    requires f.htype.OneOf? && g.htype.OneOf? && ResetSlot(f, slot)
    ensures ResetSlot(g, slot)
  {
  }

  /** What the encoder omits as zero is what the decoder starts from. */
  lemma {:induction false} ZeroIsReset(f: Field, v: Value, d: Value)
    requires FieldOk(f) && ValueOk(f, v) && IsZero(f, v) && OmissionOk(f, v) && ResetValue(f, d)
    ensures SameValue(f, v, d)
    decreases f, 0
  {
    if f.ltype.LSubmessage? {
      DefaultIsReset(f.sub, v.slots, d.slots);
    } else if f.ltype.LFixedLengthBytes? {
      assert v.b == [];
    }
  }

  lemma {:induction false} DefaultIsReset(fields: seq<Field>, m: seq<Slot>, d: seq<Slot>)
    requires TableOk(fields) && MessageOk(fields, m) && AllDefault(fields, m, |fields|)
    requires ResetMessage(fields, d, |fields|)
    ensures SameMessage(fields, m, d)
    decreases fields, 2
  {
    hide AllDefault, SlotOk, IsDefault, ResetSlot, SameSlot, FieldOk;
    Presence.AllDefaultMeans(fields, m, |fields|);
    forall i | 0 <= i < |fields|
      ensures Presence.InStruct(fields, m, i) && Presence.InStruct(fields, d, i)
      ensures SameSlot(fields[i], m[SlotOf(fields, i)], d[SlotOf(fields, i)])
    {
      SlotInRange(fields, i);
      DefaultSlotIsReset(fields[i], m[SlotOf(fields, i)], d[SlotOf(fields, i)]);
    }
  }

  lemma {:induction false} DefaultSlotIsReset(f: Field, a: Slot, b: Slot)
    requires FieldOk(f) && SlotOk(f, a) && IsDefault(f, a) && ResetSlot(f, b)
    ensures SameSlot(f, a, b)
    decreases f, 1
  {
    hide ValueOk, IsZero, ResetValue, SameValue;
    if f.Implicit() {
      ZeroIsReset(f, a.v, b.v);
    }
  }

  // ---------------------------------------------------------------- single values

  lemma StringRoundTrip(b: Bytes, t: Bytes)
    requires |b| < TWO32
    ensures Dec32(EncString(b) + t) == Done(|b|, b + t) && Take(b + t, |b|) == Done(b, t)
    ensures Delimited(EncString(b) + t) == Done(b, t)
  {
    hide Dec32, EncVarint;
    assert EncString(b) + t == EncVarint(|b|) + (b + t);
    Dec32RoundTrip(|b|, b + t);
    TakeAppend(b, t);
  }

  lemma {:induction false} CStringWhole(b: Bytes, max: nat)
    requires |b| <= max && 0 !in b
    ensures CString(b, max) == b
  {
    if b != [] {
      assert b[0] in b;
      CStringWhole(b[1..], max - 1);
    }
  }

  /** A packable value decodes to itself, over any storage. */
  lemma ScalarRoundTrip(f: Field, v: Value, d: Value, t: Bytes)
    requires f.Packable() && ValueOk(f, v)
    ensures EncValue(f, v).Wrote? && EncValue(f, v).bytes != []
    ensures DecValue(f, d, EncValue(f, v).bytes + t) == Done(v, t)
  {
    hide EncVarint, Dec32, Dec64, Take, LittleEndian, FromLittleEndian, Integer, ZigZag, InRange;
    if f.ltype.LBool? {
      Dec32RoundTrip(if v.n != 0 then 1 else 0, t);
    } else if f.ltype.LFixed32? || f.ltype.LFixed64? {
      FixedRoundTrip(v.n, t);
    } else {
      IntegerRoundTrip(f.ltype, f.dataSize, v.n);
      Dec64RoundTrip(OnWire(f.ltype, v.n), t);
    }
  }

  /** Byte strings decode to themselves. */
  lemma BlobRoundTrip(f: Field, v: Value, d: Value, t: Bytes)
    requires (f.ltype.LBytes? || f.ltype.LString? || f.ltype.LFixedLengthBytes?)
    requires f.dataSize <= PB_SIZE_MAX && ValueOk(f, v)
    ensures EncValue(f, v) == Wrote(EncString(v.b))
    ensures DecValue(f, d, EncString(v.b) + t) == Done(v, t)
  {
    hide EncString, Dec32, CString;
    if f.ltype.LString? { CStringWhole(v.b, f.dataSize); }
    StringRoundTrip(v.b, t);
    if v.b == [] { assert seq(0, _ => 0) == v.b; }
  }

  /**
   One value, decoded over storage in its initial state: a submessage is decoded into that storage,
   unless the field is repeated, which resets its entry first.
   */
  lemma {:induction false} ValueRoundTrip(f: Field, v: Value, d: Value, t: Bytes)
    requires FieldOk(f) && ValueOk(f, v)
    requires f.ltype.LSubmessage? && !f.htype.Repeated? ==> ResetValue(f, d)
    ensures EncValue(f, v).Wrote? && EncValue(f, v).bytes != []
    ensures var r := DecValue(f, d, EncValue(f, v).bytes + t);
            r.Done? && r.rest == t && SameValue(f, v, r.value)
    decreases f, 0
  {
    if f.Packable() {
      ScalarRoundTrip(f, v, d, t);
    } else if f.ltype.LSubmessage? {
      var prev := if d.Msg? then d.slots else [];
      var start := if f.htype.Repeated? then Defaults(f.sub, prev) else prev;
      if f.htype.Repeated? { DefaultsReset(f.sub, prev, |f.sub|); }
      var body := Enc(f.sub, v.slots).bytes;
      SubmessageRoundTrip(f, v, d, start, t);
    } else {
      BlobRoundTrip(f, v, d, t);
      assert |EncString(v.b)| >= 1;
    }
  }

  lemma {:induction false} SubmessageRoundTrip(f: Field, v: Value, d: Value, start: seq<Slot>, t: Bytes)
    requires FieldOk(f) && ValueOk(f, v) && f.ltype.LSubmessage?
    requires start == (if f.htype.Repeated? then Defaults(f.sub, if d.Msg? then d.slots else [])
                       else if d.Msg? then d.slots else [])
    requires ResetMessage(f.sub, start, |f.sub|)
    ensures EncValue(f, v).Wrote? && EncValue(f, v).bytes != []
    ensures var r := DecValue(f, d, EncValue(f, v).bytes + t);
            r.Done? && r.rest == t && SameValue(f, v, r.value)
    decreases f.sub, 10
  {
    hide DecMessage, EncTo, EncString, MessageOk, SameMessage, Delimited;
    var body := Enc(f.sub, v.slots).bytes;
    MessageRoundTrip(f.sub, v.slots, start, []);
    assert body + [] == body;
    StringRoundTrip(body, t);
    assert EncString(body) != [];
  }

  // ---------------------------------------------------------------- one field in the loop

  /** The loop on a field the table knows. */
  lemma KnownField(fields: seq<Field>, i: nat, p: Progress, wt: nat, s: Bytes)
    requires TableOk(fields) && i < |fields| && wt < 8
    ensures DecLoop(fields, p, EncTag(fields[i].tag, wt) + s)
         == match DecField(fields, i, p, wt, s)
            case Fail => LoopFail
            case Done(q, rest) => DecLoop(fields, q, rest)
  {
    hide DecField, Dec32, EncVarint;
    var f := fields[i];
    assert FieldOk(f);
    Dec32RoundTrip(8 * f.tag + wt, s);
    LookupUnique(fields, i);
    assert DecTag(EncTag(f.tag, wt) + s) == Tag(wt, f.tag, s);
  }

  /** A tagged value of a field that is not repeated. */
  lemma TaggedSingle(fields: seq<Field>, i: nat, p: Progress, v: Value, slot: Slot, t: Bytes)
    returns (q: Progress, w: Value)
    requires TableOk(fields) && i < |fields| && !fields[i].htype.Repeated?
    requires Presence.InStruct(fields, p.slots, i) && slot == p.slots[SlotOf(fields, i)]
    requires ValueOk(fields[i], v) && Selectable(fields, i, slot)
    ensures var e := EncTagged(fields[i], v);
            e.Wrote? && DecLoop(fields, p, e.bytes + t) == DecLoop(fields, q, t)
    ensures q == p.(slots := p.slots[SlotOf(fields, i) := Holding(fields[i], w)], seen := SeenWith(fields, i, p.seen))
    ensures SameValue(fields[i], v, w)
    decreases fields, 4
  {
    hide EncValue, DecValue, EncTag, DecLoop, ValueOk, SameValue, ResetValue;
    var f, wt := fields[i], WireType(fields[i].ltype);
    assert FieldOk(f);
    DefaultValueReset(f, Num(0));
    var prev := if f.htype.OneOf? then Cleared(f) else slot.v;
    ValueRoundTrip(f, v, prev, t);
    var bytes := EncValue(f, v).bytes;
    w := DecValue(f, prev, bytes + t).value;
    q := p.(slots := p.slots[SlotOf(fields, i) := Holding(f, w)], seen := SeenWith(fields, i, p.seen));
    assert EncTag(f.tag, wt) + bytes + t == EncTag(f.tag, wt) + (bytes + t);
    KnownField(fields, i, p, wt, bytes + t);
    assert DecSingle(fields, f, slot, bytes + t) == Done(Holding(f, w), t);
  }

  /** The storage of a non-repeated entry is ready for its value. */
  predicate Selectable(fields: seq<Field>, i: nat, slot: Slot)
    requires i < |fields|
  {
    match fields[i].htype
    case Required => slot.Single? && ResetValue(fields[i], slot.v)
    case Optional =>
      if fields[i].HasSize() then slot.Flagged? && ResetValue(fields[i], slot.v)
      else slot.Single? && ResetValue(fields[i], slot.v)
    case Repeated => false
    case OneOf => slot.Union? && (slot.which == 0 || slot.which == fields[i].tag)
  }

  /** The slot of a non-repeated field that received `w`. */
  function Holding(f: Field, w: Value): Slot {
    match f.htype
    case Required => Single(w)
    case Optional => if f.HasSize() then Flagged(true, w) else Single(w)
    case Repeated => Many([w])
    case OneOf => Union(f.tag, w)
  }

  function SeenWith(fields: seq<Field>, i: nat, seen: set<nat>): set<nat>
    requires i < |fields|
  {
    if fields[i].htype.Required? && RequiredBefore(fields, i) < MAX_REQUIRED
    then seen + {RequiredBefore(fields, i)} else seen
  }

  // ---------------------------------------------------------------- arrays in the loop

  /** The storage of repeated entry `i` is in order, and no other fixed-count array is half received. */
  predicate ArrayReady(fields: seq<Field>, i: nat, p: Progress)
    requires i < |fields|
  {
    && fields[i].htype.Repeated? && SlotOf(fields, i) < |p.slots|
    && var slot := p.slots[SlotOf(fields, i)];
       if fields[i].HasSize() then slot.Many?
       else slot.Fixed? && |slot.items| == fields[i].arraySize
            && if p.fixedField == i then p.fixedCount <= fields[i].arraySize else FixedDone(fields, p)
  }

  /** The elements entry `i` received so far. */
  function Received(fields: seq<Field>, i: nat, p: Progress): seq<Value>
    requires i < |fields| && ArrayReady(fields, i, p)
  {
    var items := p.slots[SlotOf(fields, i)].items;
    if fields[i].HasSize() then items else items[..if p.fixedField == i then p.fixedCount else 0]
  }

  /** The progress once entry `i` has received `cur`. */
  function WithReceived(fields: seq<Field>, i: nat, p: Progress, cur: seq<Value>): Progress
    requires i < |fields| && ArrayReady(fields, i, p) && |cur| <= fields[i].arraySize
  {
    var k := SlotOf(fields, i);
    if fields[i].HasSize() then p.(slots := p.slots[k := Many(cur)])
    else Progress(p.slots[k := Fixed(cur + p.slots[k].items[|cur|..])], i, |cur|, p.seen)
  }

  lemma ReceivedMore(fields: seq<Field>, i: nat, p: Progress, a: seq<Value>, b: seq<Value>)
    requires i < |fields| && ArrayReady(fields, i, p) && |a| <= |b| <= fields[i].arraySize
    ensures var q := WithReceived(fields, i, p, a);
            ArrayReady(fields, i, q) && Received(fields, i, q) == a
            && WithReceived(fields, i, q, b) == WithReceived(fields, i, p, b)
  {
    var k := SlotOf(fields, i);
    if fields[i].FixedCount() {
      var items := p.slots[k].items;
      assert (a + items[|a|..])[..|a|] == a;
      assert b + (a + items[|a|..])[|b|..] == b + items[|b|..];
    }
  }

  /** decode_field on a repeated entry, in terms of what it received. */
  lemma RepeatedStep(fields: seq<Field>, i: nat, p: Progress, wt: nat, prev: Value, s: Bytes)
    requires i < |fields| && ArrayReady(fields, i, p) && |Received(fields, i, p)| <= fields[i].arraySize
    requires prev == NextEntry(fields, i, p)
    ensures DecField(fields, i, p, wt, s)
         == match DecRepeated(fields[i], wt, Received(fields, i, p), prev, s)
            case Fail => Fail
            case Done(cur, rest) => Done(WithReceived(fields, i, p, cur), rest)
  {
    hide DecRepeated;
  }

  /** What the entry after those received holds. */
  function NextEntry(fields: seq<Field>, i: nat, p: Progress): Value
    requires i < |fields| && ArrayReady(fields, i, p)
  {
    var items := p.slots[SlotOf(fields, i)].items;
    var count := if p.fixedField == i then p.fixedCount else 0;
    if fields[i].HasSize() then DefaultValue(fields[i], Num(0))
    else if count < |items| then items[count] else Num(0)
  }

  /** The packed loop reads back packed items. */
  lemma {:induction false} PackedRoundTrip(f: Field, items: seq<Value>, t: Bytes)
    requires f.Packable() && |items| <= f.arraySize && forall j :: 0 <= j < |items| ==> ValueOk(f, items[j])
    ensures EncPacked(f, items).Wrote?
    ensures DecPacked(f, [], EncPacked(f, items).bytes + t) == DecPacked(f, items, t)
    decreases |items|
  {
    hide EncValue, DecValue, ValueOk;
    if items == [] {
      assert [] + t == t;
    } else {
      var init, last := items[..|items| - 1], items[|items| - 1];
      assert ValueOk(f, last);
      ScalarRoundTrip(f, last, DefaultValue(f, Num(0)), t);
      var e := EncValue(f, last).bytes;
      PackedRoundTrip(f, init, e + t);
      assert EncPacked(f, items).bytes + t == EncPacked(f, init).bytes + (e + t);
      assert init + [last] == items;
    }
  }

  /** An array that the encoder packs. */
  lemma PackedArray(fields: seq<Field>, i: nat, p: Progress, items: seq<Value>, t: Bytes)
    requires TableOk(fields) && i < |fields| && ArrayReady(fields, i, p) && Received(fields, i, p) == []
    requires fields[i].Packable() && ItemsOk(fields[i], items) && items != []
    ensures var e := EncArray(fields[i], items);
            e.Wrote? && DecLoop(fields, p, e.bytes + t) == DecLoop(fields, WithReceived(fields, i, p, items), t)
  {
    hide EncPacked, DecPacked, ValueOk, EncTag, DecLoop, EncString, Delimited, DecField;
    var f := fields[i];
    PackedRoundTrip(f, items, []);
    var data := EncPacked(f, items).bytes;
    assert data + [] == data;
    StringRoundTrip(data, t);
    assert DecPacked(f, items, []) == Done(items, []) by { PackedEnds(f, items); }
    assert EncTag(f.tag, WT_STRING) + EncString(data) + t == EncTag(f.tag, WT_STRING) + (EncString(data) + t);
    KnownField(fields, i, p, WT_STRING, EncString(data) + t);
    RepeatedStep(fields, i, p, WT_STRING, NextEntry(fields, i, p), EncString(data) + t);
  }

  lemma PackedEnds(f: Field, cur: seq<Value>)
    ensures DecPacked(f, cur, []) == Done(cur, [])
  {
  }

  /** One element of an array that is not packed. */
  lemma {:induction false} UnpackedElement(fields: seq<Field>, i: nat, p: Progress, v: Value, t: Bytes)
    returns (w: Value)
    requires TableOk(fields) && i < |fields| && ArrayReady(fields, i, p)
    requires |Received(fields, i, p)| < fields[i].arraySize
    requires !fields[i].Packable() && ValueOk(fields[i], v)
    ensures var e := EncTagged(fields[i], v);
            e.Wrote? && DecLoop(fields, p, e.bytes + t)
                     == DecLoop(fields, WithReceived(fields, i, p, Received(fields, i, p) + [w]), t)
    ensures SameValue(fields[i], v, w)
    decreases fields, 4
  {
    hide EncValue, DecValue, EncTag, DecLoop, ValueOk, SameValue, ResetValue, DecField;
    var f, wt, prev := fields[i], WireType(fields[i].ltype), NextEntry(fields, i, p);
    assert FieldOk(f);
    ValueRoundTrip(f, v, prev, t);
    var bytes := EncValue(f, v).bytes;
    w := DecValue(f, prev, bytes + t).value;
    assert EncTag(f.tag, wt) + bytes + t == EncTag(f.tag, wt) + (bytes + t);
    KnownField(fields, i, p, wt, bytes + t);
    RepeatedStep(fields, i, p, wt, prev, bytes + t);
  }

  lemma {:induction false} UnpackedArray(fields: seq<Field>, i: nat, p: Progress, items: seq<Value>, t: Bytes)
    returns (ws: seq<Value>)
    requires TableOk(fields) && i < |fields| && ArrayReady(fields, i, p) && Received(fields, i, p) == []
    requires !fields[i].Packable() && ItemsOk(fields[i], items)
    ensures SameItems(fields[i], items, ws)
    ensures var e := EncUnpacked(fields[i], items);
            e.Wrote? && DecLoop(fields, p, e.bytes + t)
                     == DecLoop(fields, if items == [] then p else WithReceived(fields, i, p, ws), t)
    decreases fields, 5, |items|
  {
    hide EncTagged, DecLoop, ValueOk, SameValue;
    var f := fields[i];
    if items == [] {
      ws := [];
      assert [] + t == t;
    } else {
      var init, last := items[..|items| - 1], items[|items| - 1];
      assert ValueOk(f, last);
      var e := if EncTagged(f, last).Wrote? then EncTagged(f, last).bytes else [];
      var vs := UnpackedArray(fields, i, p, init, e + t);
      var q := if init == [] then p else WithReceived(fields, i, p, vs);
      if init != [] { ReceivedMore(fields, i, p, vs, vs); }
      assert Received(fields, i, q) == vs;
      var w := UnpackedElement(fields, i, q, last, t);
      ws := vs + [w];
      if init != [] { ReceivedMore(fields, i, p, vs, ws); }
      assert EncUnpacked(f, items).bytes + t == EncUnpacked(f, init).bytes + (e + t);
    }
  }

  lemma {:induction false} ArrayRoundTrip(fields: seq<Field>, i: nat, p: Progress, items: seq<Value>, t: Bytes)
    returns (ws: seq<Value>)
    requires TableOk(fields) && i < |fields| && ArrayReady(fields, i, p) && Received(fields, i, p) == []
    requires ItemsOk(fields[i], items)
    ensures SameItems(fields[i], items, ws) && |ws| <= fields[i].arraySize
    ensures var e := EncArray(fields[i], items);
            e.Wrote? && DecLoop(fields, p, e.bytes + t)
                     == DecLoop(fields, if items == [] then p else WithReceived(fields, i, p, ws), t)
    decreases fields, 6
  {
    hide EncPacked, DecLoop, ValueOk;
    if items == [] {
      ws := [];
      assert [] + t == t;
    } else if fields[i].Packable() {
      PackedArray(fields, i, p, items, t);
      ws := items;
    } else {
      ws := UnpackedArray(fields, i, p, items, t);
    }
  }

  // ---------------------------------------------------------------- the whole message

  /** One of the first `n` entries is the member its union's selector names. */
  predicate Chosen(fields: seq<Field>, m: seq<Slot>, n: nat, k: nat)
    requires n <= |fields|
  {
    k < |m| && m[k].Union?
    && exists j :: 0 <= j < n && SlotOf(fields, j) == k && fields[j].htype.OneOf? && fields[j].tag == m[k].which
  }

  /** How far entry `i` is decoded once the first `n` entries of `m` have been. */
  predicate SlotState(fields: seq<Field>, m: seq<Slot>, d: seq<Slot>, n: nat, i: nat)
    requires n <= |fields| && i < |fields|
  {
    && Presence.InStruct(fields, m, i) && Presence.InStruct(fields, d, i)
    && var f, a, b := fields[i], m[SlotOf(fields, i)], d[SlotOf(fields, i)];
       if f.htype.OneOf? then
         && a.Union? && b.Union?
         && b.which == (if Chosen(fields, m, n, SlotOf(fields, i)) then a.which else 0)
         && (i < n && a.which == f.tag ==> SameValue(f, a.v, b.v))
       else if i < n then SameSlot(f, a, b)
       else ResetSlot(f, b)
  }

  predicate Invariant(fields: seq<Field>, m: seq<Slot>, p: Progress, n: nat)
    requires n <= |fields|
  {
    && |p.slots| == SlotCount(fields)
    && p.fixedField < n && FixedDone(fields, p)
    && (forall r: nat :: r < RequiredBefore(fields, n) && r < MAX_REQUIRED ==> r in p.seen)
    && forall i :: 0 <= i < |fields| ==> SlotState(fields, m, p.slots, n, i)
  }

  /** What decoding entry `n` must have done to its slot. */
  predicate EntryDone(f: Field, a: Slot, before: Slot, after: Slot) {
    if f.htype.OneOf? then
      a.Union? && (if a.which == f.tag
                   then after.Union? && after.which == f.tag && SameValue(f, a.v, after.v)
                   else after == before)
    else SameSlot(f, a, after)
  }

  lemma Advance(fields: seq<Field>, m: seq<Slot>, p: Progress, q: Progress, n: nat)
    requires n < |fields| && UniqueTags(fields) && Invariant(fields, m, p, n)
    requires Presence.InStruct(fields, p.slots, n) && |q.slots| == |p.slots|
    requires q.slots == p.slots[SlotOf(fields, n) := q.slots[SlotOf(fields, n)]]
    requires q.fixedField <= n && FixedDone(fields, q) && q.seen == SeenWith(fields, n, p.seen)
    requires Presence.InStruct(fields, m, n)
    requires EntryDone(fields[n], m[SlotOf(fields, n)], p.slots[SlotOf(fields, n)], q.slots[SlotOf(fields, n)])
    ensures Invariant(fields, m, q, n + 1)
  {
    hide SameSlot, SameValue, ResetSlot, SlotOf;
    var k, next := SlotOf(fields, n), n + 1;
    forall i | 0 <= i < |fields|
      ensures SlotState(fields, m, q.slots, next, i)
    {
      assert SlotState(fields, m, p.slots, n, i);
      assert Presence.InStruct(fields, q.slots, i);
      if i != n && SlotOf(fields, i) == k {
        SharedSlotIsUnion(fields, if i < n then i else n, if i < n then n else i);
        assert fields[i].tag != fields[n].tag;
      }
      if m[SlotOf(fields, i)].Union? { ChosenNext(fields, m, n, SlotOf(fields, i)); }
    }
  }

  lemma ChosenNext(fields: seq<Field>, m: seq<Slot>, n: nat, k: nat)
    requires n < |fields| && k < |m| && m[k].Union?
    ensures Chosen(fields, m, n + 1, k)
       <==> Chosen(fields, m, n, k) || (SlotOf(fields, n) == k && fields[n].htype.OneOf? && fields[n].tag == m[k].which)
  {
  }

  /** Entry `n` of a message, written and read back. */
  lemma {:induction false} EntryRoundTrip(fields: seq<Field>, m: seq<Slot>, p: Progress, n: nat, t: Bytes)
    returns (q: Progress)
    requires TableOk(fields) && MessageOk(fields, m) && n < |fields| && Invariant(fields, m, p, n)
    ensures var e := EncField(fields[n], m[SlotOf(fields, n)]);
            e.Wrote? && DecLoop(fields, p, e.bytes + t) == DecLoop(fields, q, t)
    ensures Invariant(fields, m, q, n + 1)
    decreases fields, 7
  {
    hide EncTagged, EncArray, DecLoop, ValueOk, SameValue, ItemsOk, SameItems, IsZero, ResetValue;
    var f, k := fields[n], SlotOf(fields, n);
    SlotInRange(fields, n);
    assert Presence.InStruct(fields, m, n);
    var a, b := m[k], p.slots[k];
    assert FieldOk(f) && SlotOk(f, a) && SlotState(fields, m, p.slots, n, n);
    assert [] + t == t;
    q := p;
    if f.htype.Repeated? {
      var ws := ArrayRoundTrip(fields, n, p, a.items, t);
      if a.items != [] { q := WithReceived(fields, n, p, ws); }
      ArrayDone(fields, n, m, p, q, ws);
    } else if Present(f, a) {
      NotYetChosen(fields, m, p, n);
      var w;
      q, w := TaggedSingle(fields, n, p, a.v, b, t);
    } else if f.Implicit() {
      ZeroIsReset(f, a.v, b.v);
    }
    Advance(fields, m, p, q, n);
  }

  /** The encoder writes this non-repeated field. */
  predicate Present(f: Field, slot: Slot) {
    match f.htype
    case Required => slot.Single?
    case Optional => if f.HasSize() then slot.Flagged? && slot.has else slot.Single? && !IsZero(f, slot.v)
    case Repeated => false
    case OneOf => slot.Union? && slot.which == f.tag
  }

  lemma NotYetChosen(fields: seq<Field>, m: seq<Slot>, p: Progress, n: nat)
    requires n < |fields| && Invariant(fields, m, p, n) && UniqueTags(fields)
    requires Presence.InStruct(fields, m, n) && Presence.InStruct(fields, p.slots, n)
    requires !fields[n].htype.Repeated? && Present(fields[n], m[SlotOf(fields, n)])
    ensures Selectable(fields, n, p.slots[SlotOf(fields, n)])
  {
    hide ResetValue, SameValue, IsZero;
    assert SlotState(fields, m, p.slots, n, n);
  }

  lemma ArrayDone(fields: seq<Field>, n: nat, m: seq<Slot>, p: Progress, q: Progress, ws: seq<Value>)
    requires n < |fields| && Invariant(fields, m, p, n) && fields[n].htype.Repeated?
    requires Presence.InStruct(fields, m, n) && Presence.InStruct(fields, p.slots, n)
    requires SlotOk(fields[n], m[SlotOf(fields, n)]) && ArrayReady(fields, n, p)
    requires ResetSlot(fields[n], p.slots[SlotOf(fields, n)])
    requires SameItems(fields[n], m[SlotOf(fields, n)].items, ws) && |ws| <= fields[n].arraySize
    requires q == if m[SlotOf(fields, n)].items == [] then p else WithReceived(fields, n, p, ws)
    ensures q.slots == p.slots[SlotOf(fields, n) := q.slots[SlotOf(fields, n)]]
    ensures q.fixedField <= n && FixedDone(fields, q) && q.seen == p.seen
    ensures SameSlot(fields[n], m[SlotOf(fields, n)], q.slots[SlotOf(fields, n)])
  {
    hide ValueOk, SameValue, ItemsOk;
    var k := SlotOf(fields, n);
    if m[k].items == [] {
      assert ws == [];
    } else if fields[n].FixedCount() {
      assert ws + p.slots[k].items[|ws|..] == ws;
    }
  }

  /** The loop over the first `n` encoded entries, whatever follows them. */
  lemma {:induction false} LoopRoundTrip(fields: seq<Field>, m: seq<Slot>, d: seq<Slot>, n: nat, t: Bytes)
    returns (p: Progress)
    requires TableOk(fields) && MessageOk(fields, m) && ResetMessage(fields, d, |fields|) && n <= |fields|
    ensures EncTo(fields, m, n).Wrote?
    ensures DecLoop(fields, Start(d), EncTo(fields, m, n).bytes + t) == DecLoop(fields, p, t)
    ensures Invariant(fields, m, p, n)
    decreases fields, 8, n
  {
    hide EncField, DecLoop, FieldOk, SlotOk, ResetSlot, SameSlot, SameValue;
    if n == 0 {
      p := Start(d);
      assert [] + t == t;
      forall i | 0 <= i < |fields|
        ensures SlotState(fields, m, d, 0, i)
      {
        assert Presence.InStruct(fields, d, i) && Presence.InStruct(fields, m, i);
        InitialUnion(fields[i], m[SlotOf(fields, i)], d[SlotOf(fields, i)]);
      }
    } else {
      var e := EncField(fields[n - 1], m[SlotOf(fields, n - 1)]);
      assert Presence.InStruct(fields, m, n - 1);
      var tail := if e.Wrote? then e.bytes + t else t;
      var p' := LoopRoundTrip(fields, m, d, n - 1, tail);
      p := EntryRoundTrip(fields, m, p', n - 1, t);
      assert EncTo(fields, m, n).bytes + t == EncTo(fields, m, n - 1).bytes + (e.bytes + t);
    }
  }

  lemma InitialUnion(f: Field, a: Slot, b: Slot)
    requires SlotOk(f, a) && ResetSlot(f, b)
    ensures f.htype.OneOf? ==> a.Union? && b.Union? && b.which == 0
  {
  }

  /** After the last entry the structure is the same, and the checks pass. */
  lemma AllDone(fields: seq<Field>, m: seq<Slot>, p: Progress)
    requires TableOk(fields) && MessageOk(fields, m) && Invariant(fields, m, p, |fields|)
    ensures SameMessage(fields, m, p.slots) && FixedDone(fields, p) && RequiredSeen(fields, p.seen)
  {
    hide SlotOk, SameValue, FieldOk, SlotOf;
    forall i | 0 <= i < |fields|
      ensures Presence.InStruct(fields, m, i) && Presence.InStruct(fields, p.slots, i)
      ensures SameSlot(fields[i], m[SlotOf(fields, i)], p.slots[SlotOf(fields, i)])
    {
      assert SlotState(fields, m, p.slots, |fields|, i);
      assert Presence.SelectorOk(fields, m[SlotOf(fields, i)], i);
    }
  }

  /**
   Whole-message round trip: over a structure in its initial state, the decoder consumes exactly what
   the encoder wrote, when the stream ends there or a zero byte follows, and gives the structure back.
   */
  lemma {:induction false} MessageRoundTrip(fields: seq<Field>, m: seq<Slot>, d: seq<Slot>, t: Bytes)
    requires TableOk(fields) && MessageOk(fields, m) && ResetMessage(fields, d, |fields|)
    ensures Enc(fields, m).Wrote?
    ensures var r := DecMessage(fields, d, Enc(fields, m).bytes);
            r.Done? && r.rest == [] && SameMessage(fields, m, r.value)
    ensures var r := DecMessage(fields, d, Enc(fields, m).bytes + ([0] + t));
            r.Done? && r.rest == t && SameMessage(fields, m, r.value)
    decreases fields, 9
  {
    hide EncTo, DecLoop, MessageOk, ResetMessage, SameMessage;
    var p := LoopRoundTrip(fields, m, d, |fields|, []);
    AllDone(fields, m, p);
    LoopEnd(fields, p, t);
    assert Enc(fields, m).bytes + [] == Enc(fields, m).bytes;
    var q := LoopRoundTrip(fields, m, d, |fields|, [0] + t);
    AllDone(fields, m, q);
    LoopEnd(fields, q, t);
  }

  lemma LoopEnd(fields: seq<Field>, p: Progress, t: Bytes)
    ensures DecLoop(fields, p, []) == Ended(p)
    ensures DecLoop(fields, p, [0] + t) == Stopped(p, t)
  {
    assert ([0] + t)[1..] == t;
  }

  /** pb_decode of what pb_encode wrote, into a structure with any previous contents. */
  lemma DecodeOfEncode(fields: seq<Field>, m: seq<Slot>, prev: seq<Slot>)
    requires TableOk(fields) && MessageOk(fields, m)
    ensures Enc(fields, m).Wrote?
    ensures var r := Dec(fields, prev, Enc(fields, m).bytes);
            r.Done? && r.rest == [] && SameMessage(fields, m, r.value)
  {
    hide Enc, DecMessage, Defaults, MessageOk, SameMessage, ResetMessage;
    InitialState(fields, prev);
    MessageRoundTrip(fields, m, Defaults(fields, prev), []);
  }

  lemma InitialState(fields: seq<Field>, prev: seq<Slot>)
    ensures ResetMessage(fields, Defaults(fields, prev), |fields|)
  {
    DefaultsReset(fields, prev, |fields|);
  }

  // ---------------------------------------------------------------- self-framing

  /** The length word of a delimited message has room for the message. */
  predicate LengthFits(o: Output) {
    o.Wrote? ==> |o.bytes| < TWO32
  }

  /** A delimited message followed by anything: the message comes back, and exactly that remains. */
  lemma DelimitedFrames(fields: seq<Field>, m: seq<Slot>, prev: seq<Slot>, t: Bytes)
    requires TableOk(fields) && MessageOk(fields, m) && LengthFits(Enc(fields, m))
    ensures EncDelimited(fields, m).Wrote?
    ensures var r := DecDelimited(fields, prev, EncDelimited(fields, m).bytes + t);
            r.Done? && r.rest == t && SameMessage(fields, m, r.value)
  {
    hide Enc, Dec, EncString, Delimited, MessageOk, SameMessage;
    DecodeOfEncode(fields, m, prev);
    StringRoundTrip(Enc(fields, m).bytes, t);
  }

  /** A null-terminated message followed by anything, of any length. */
  lemma NullTerminatedFrames(fields: seq<Field>, m: seq<Slot>, prev: seq<Slot>, t: Bytes)
    requires TableOk(fields) && MessageOk(fields, m)
    ensures EncNullTerminated(fields, m).Wrote?
    ensures var r := Dec(fields, prev, EncNullTerminated(fields, m).bytes + t);
            r.Done? && r.rest == t && SameMessage(fields, m, r.value)
  {
    hide Enc, DecMessage, Defaults, MessageOk, SameMessage, ResetMessage;
    InitialState(fields, prev);
    MessageRoundTrip(fields, m, Defaults(fields, prev), t);
    assert Enc(fields, m).bytes + [0] + t == Enc(fields, m).bytes + ([0] + t);
  }
}
