/** Exactly which structures round-trip: what comes back the same meets the conditions of the round trip. */
module Exactness {
  import opened Wire
  import opened Descriptor
  import opened Encoding
  import opened Decoding
  import opened Integers
  import opened RoundTrip
  import FixedCount
  import Limits
  import Presence
  import Storage

  // ---------------------------------------------------------------- tables and structures

  /** Sizes as the generator emits them: integers of four widths, room for a length word and a terminator. */
  predicate ProperField(f: Field)
    decreases f, 0
  {
    && (f.ltype.LBytes? ==> f.dataSize >= BYTES_OFFSET)
    && (f.ltype.LString? ==> f.dataSize >= 1)
    && (IsInteger(f.ltype) ==> IntegerSize(f.dataSize))
    && (f.ltype.LFixedLengthBytes? && f.default.Custom? ==> f.default.v.Blob? && |f.default.v.b| == f.dataSize)
    && (f.ltype.LSubmessage? ==> Proper(f.sub))
  }

  predicate Proper(fields: seq<Field>)
    decreases fields, 1
  {
    forall i :: 0 <= i < |fields| ==> ProperField(fields[i])
  }

  /** A string is the characters in front of its terminator, or of the whole buffer; no object exceeds 2^63 bytes. */
  predicate ValueHeld(f: Field, v: Value)
    decreases f, 0
  {
    && (f.ltype.LString? && v.Blob? ==> |v.b| <= f.dataSize && 0 !in v.b)
    && (f.ltype.LSubmessage? && v.Msg? ==>
          Held(f.sub, v.slots) && (Enc(f.sub, v.slots).Wrote? ==> |Enc(f.sub, v.slots).bytes| < TWO63))
  }

  predicate ItemsHeld(f: Field, items: seq<Value>)
    decreases f, 1
  {
    && (forall j :: 0 <= j < |items| ==> ValueHeld(f, items[j]))
    && (EncPacked(f, items).Wrote? ==> |EncPacked(f, items).bytes| < TWO63)
  }

  predicate SlotHeld(f: Field, slot: Slot)
    decreases f, 2
  {
    && (slot.Single? ==> ValueHeld(f, slot.v))
    && (slot.Flagged? && slot.has ==> ValueHeld(f, slot.v))
    && ((slot.Many? || slot.Fixed?) && |slot.items| <= f.arraySize ==> ItemsHeld(f, slot.items))
    && (slot.Union? && slot.which == f.tag ==> ValueHeld(f, slot.v))
  }

  /** A structure of the table's type in memory; what is absent may hold anything. */
  predicate Held(fields: seq<Field>, slots: seq<Slot>)
    decreases fields, 3
  {
    && |slots| == SlotCount(fields)
    && forall i :: 0 <= i < |fields| && Presence.InStruct(fields, slots, i) ==>
         SlotHeld(fields[i], slots[SlotOf(fields, i)])
  }

  // ---------------------------------------------------------------- values

  lemma ScalarSize(f: Field, v: Value)
    requires f.Packable() && EncValue(f, v).Wrote?
    ensures |EncValue(f, v).bytes| <= 10
  {
    hide EncVarint;
    match f.ltype
    case LBool => VarintAtMostTen(if v.n != 0 then 1 else 0);
    case LVarint => VarintAtMostTen(ToU64(v.n));
    case LUVarint => VarintAtMostTen(ToU64(v.n));
    case LSVarint => VarintAtMostTen(ZigZag(v.n));
    case LFixed32 =>
    case LFixed64 =>
  }

  /** A scalar that comes back the same was in the range of its field. */
  lemma ScalarNecessary(f: Field, v: Value, prev: Value, t: Bytes)
    requires f.Packable() && EncValue(f, v).Wrote? && DecValue(f, prev, EncValue(f, v).bytes + t).Done?
    ensures var r := DecValue(f, prev, EncValue(f, v).bytes + t); r.rest == t && (r.value == v ==> ValueOk(f, v))
  {
    ScalarSize(f, v);
    FixedCount.ValueConsumed(f, v, prev, t);
    Storage.ScalarFits(f, prev, EncValue(f, v).bytes + t);
    hide DecValue, EncVarint, LittleEndian, InRange;
  }

  /** A byte string that is decoded at all met the conditions. */
  lemma BlobNecessary(f: Field, v: Value, prev: Value, t: Bytes)
    requires (f.ltype.LBytes? || f.ltype.LString? || f.ltype.LFixedLengthBytes?) && f.dataSize <= PB_SIZE_MAX
    requires ValueHeld(f, v) && EncValue(f, v).Wrote? && DecValue(f, prev, EncValue(f, v).bytes + t).Done?
    ensures DecValue(f, prev, EncValue(f, v).bytes + t).rest == t && ValueOk(f, v)
  {
    hide DecValue, EncString;
    if f.ltype.LString? {
      CStringWhole(v.b, f.dataSize);
      Limits.StringNeedsTerminator(f, v.b, prev, t);
    }
    BlobRoundTrip(f, v, prev, t);
  }

  lemma {:induction false} SubmessageNecessary(f: Field, v: Value, prev: Value, t: Bytes)
    requires FieldOk(f) && ProperField(f) && f.ltype.LSubmessage?
    requires f.htype.Repeated? || ResetValue(f, prev)
    requires ValueHeld(f, v) && EncValue(f, v).Wrote? && DecValue(f, prev, EncValue(f, v).bytes + t).Done?
    ensures var r := DecValue(f, prev, EncValue(f, v).bytes + t);
            r.rest == t && (SameValue(f, v, r.value) ==> ValueOk(f, v))
    decreases f.sub, 11
  {
    hide EncTo, DecMessage, Delimited, EncString, TableOk, MessageOk, SameMessage, ResetMessage, Proper, Held;
    hide DefaultsTo;
    var body := Enc(f.sub, v.slots).bytes;
    assert EncValue(f, v).bytes == EncString(body);
    Limits.LongLengthsRefused(body, t);
    var slots := if prev.Msg? then prev.slots else [];
    var start := if f.htype.Repeated? then Defaults(f.sub, slots) else slots;
    if f.htype.Repeated? { InitialState(f.sub, slots); }
    var r := DecMessage(f.sub, start, body);
    assert DecValue(f, prev, EncString(body) + t) == if r.Fail? then Fail else Done(Msg(r.value), t);
    MessageNecessary(f.sub, v.slots, start);
  }

  lemma {:induction false} ValueNecessary(f: Field, v: Value, prev: Value, t: Bytes)
    requires FieldOk(f) && ProperField(f) && ValueHeld(f, v)
    requires f.ltype.LSubmessage? && !f.htype.Repeated? ==> ResetValue(f, prev)
    requires EncValue(f, v).Wrote? && DecValue(f, prev, EncValue(f, v).bytes + t).Done?
    ensures var r := DecValue(f, prev, EncValue(f, v).bytes + t);
            r.rest == t && (SameValue(f, v, r.value) ==> ValueOk(f, v))
    decreases f, 0
  {
    if f.ltype.LSubmessage? {
      SubmessageNecessary(f, v, prev, t);
    } else if f.Packable() {
      ScalarNecessary(f, v, prev, t);
    } else {
      BlobNecessary(f, v, prev, t);
    }
  }

  // ---------------------------------------------------------------- entries that are not repeated

  lemma {:induction false} TaggedNecessary(fields: seq<Field>, i: nat, p: Progress, v: Value, t: Bytes)
    returns (q: Progress, w: Value)
    requires TableOk(fields) && Proper(fields) && i < |fields| && !fields[i].htype.Repeated?
    requires Presence.InStruct(fields, p.slots, i) && Selectable(fields, i, p.slots[SlotOf(fields, i)])
    requires ValueHeld(fields[i], v) && EncTagged(fields[i], v).Wrote?
    requires !DecLoop(fields, p, EncTagged(fields[i], v).bytes + t).LoopFail?
    ensures DecLoop(fields, p, EncTagged(fields[i], v).bytes + t) == DecLoop(fields, q, t)
    ensures q == p.(slots := p.slots[SlotOf(fields, i) := Holding(fields[i], w)], seen := SeenWith(fields, i, p.seen))
    ensures SameValue(fields[i], v, w) ==> ValueOk(fields[i], v)
    decreases fields, 4
  {
    hide EncValue, DecValue, EncTag, DecLoop, ValueOk, SameValue, ResetValue, ValueHeld, ProperField;
    var f, wt, slot := fields[i], WireType(fields[i].ltype), p.slots[SlotOf(fields, i)];
    assert FieldOk(f) && ProperField(f);
    DefaultValueReset(f, Num(0));
    var prev := if f.htype.OneOf? then Cleared(f) else slot.v;
    var bytes := EncValue(f, v).bytes;
    assert EncTag(f.tag, wt) + bytes + t == EncTag(f.tag, wt) + (bytes + t);
    KnownField(fields, i, p, wt, bytes + t);
    var r := DecValue(f, prev, bytes + t);
    assert DecSingle(fields, f, slot, bytes + t) == if r.Fail? then Fail else Done(Holding(f, r.value), r.rest);
    assert r.Done?;
    w := r.value;
    ValueNecessary(f, v, prev, t);
    q := p.(slots := p.slots[SlotOf(fields, i) := Holding(f, w)], seen := SeenWith(fields, i, p.seen));
  }

  // ---------------------------------------------------------------- repeated entries

  /** Every element that came back the same met its conditions. */
  ghost predicate Met(f: Field, items: seq<Value>, ws: seq<Value>) {
    |items| == |ws| && forall j :: 0 <= j < |items| ==> (SameValue(f, items[j], ws[j]) ==> ValueOk(f, items[j]))
  }

  lemma MetMore(f: Field, items: seq<Value>, ws: seq<Value>, v: Value, w: Value)
    requires Met(f, items, ws) && (SameValue(f, v, w) ==> ValueOk(f, v))
    ensures Met(f, items + [v], ws + [w])
  {
  }

  /** The packed loop on packed items: as many come back as there are, or it fails. */
  lemma {:induction false} RunNecessary(f: Field, items: seq<Value>, t: Bytes) returns (ws: seq<Value>)
    requires f.Packable() && |items| <= f.arraySize && EncPacked(f, items).Wrote?
    requires DecPacked(f, [], EncPacked(f, items).bytes + t).Done?
    ensures |ws| == |items| && DecPacked(f, [], EncPacked(f, items).bytes + t) == DecPacked(f, ws, t)
    ensures Met(f, items, ws)
    decreases |items|
  {
    hide EncValue, DecValue, ValueOk;
    if items == [] {
      ws := [];
      assert [] + t == t;
    } else {
      var front, v := items[..|items| - 1], items[|items| - 1];
      var a, e := EncPacked(f, front), EncValue(f, v);
      assert EncPacked(f, items).bytes + t == a.bytes + (e.bytes + t);
      var us := RunNecessary(f, front, e.bytes + t);
      ScalarWritten(f, v);
      assert e.bytes + t != [];
      var r := DecValue(f, DefaultValue(f, Num(0)), e.bytes + t);
      ScalarNecessary(f, v, DefaultValue(f, Num(0)), t);
      ws := us + [r.value];
      MetMore(f, front, us, v, r.value);
      assert front + [v] == items;
    }
  }

  lemma ScalarWritten(f: Field, v: Value)
    requires f.Packable() && EncValue(f, v).Wrote?
    ensures EncValue(f, v).bytes != []
  {
    hide EncVarint;
  }

  lemma {:induction false} PackedNecessary(fields: seq<Field>, i: nat, p: Progress, items: seq<Value>, t: Bytes)
    returns (ws: seq<Value>)
    requires TableOk(fields) && i < |fields| && ArrayReady(fields, i, p) && Received(fields, i, p) == []
    requires fields[i].Packable() && items != [] && ItemsHeld(fields[i], items) && EncArray(fields[i], items).Wrote?
    requires !DecLoop(fields, p, EncArray(fields[i], items).bytes + t).LoopFail?
    ensures Met(fields[i], items, ws) && |ws| <= fields[i].arraySize && EncPacked(fields[i], items).Wrote?
    ensures |EncPacked(fields[i], items).bytes| < TWO32
    ensures DecLoop(fields, p, EncArray(fields[i], items).bytes + t)
         == DecLoop(fields, WithReceived(fields, i, p, ws), t)
  {
    hide EncPacked, DecPacked, EncTag, DecLoop, EncString, DecField, Met, WithReceived, ValueHeld;
    var f := fields[i];
    var run := EncPacked(f, items).bytes;
    assert EncTag(f.tag, WT_STRING) + EncString(run) + t == EncTag(f.tag, WT_STRING) + (EncString(run) + t);
    KnownField(fields, i, p, WT_STRING, EncString(run) + t);
    RepeatedStep(fields, i, p, WT_STRING, NextEntry(fields, i, p), EncString(run) + t);
    Limits.LongLengthsRefused(run, t);
    assert run + [] == run;
    ws := RunNecessary(f, items, []);
    PackedEnds(f, ws);
    MetSize(f, items, ws);
  }

  lemma MetSize(f: Field, items: seq<Value>, ws: seq<Value>)
    requires Met(f, items, ws)
    ensures |items| == |ws|
  {
  }

  /** One element of an array that is not packed. */
  lemma {:induction false} ElementNecessary(fields: seq<Field>, i: nat, p: Progress, v: Value, t: Bytes)
    returns (w: Value)
    requires TableOk(fields) && Proper(fields) && i < |fields| && ArrayReady(fields, i, p)
    requires |Received(fields, i, p)| <= fields[i].arraySize && !fields[i].Packable()
    requires ValueHeld(fields[i], v) && EncTagged(fields[i], v).Wrote?
    requires !DecLoop(fields, p, EncTagged(fields[i], v).bytes + t).LoopFail?
    ensures |Received(fields, i, p)| < fields[i].arraySize
    ensures DecLoop(fields, p, EncTagged(fields[i], v).bytes + t)
         == DecLoop(fields, WithReceived(fields, i, p, Received(fields, i, p) + [w]), t)
    ensures SameValue(fields[i], v, w) ==> ValueOk(fields[i], v)
    decreases fields, 4
  {
    hide EncValue, DecValue, EncTag, DecLoop, ValueOk, SameValue, WithReceived, DecField, ValueHeld, ProperField;
    var f, wt := fields[i], WireType(fields[i].ltype);
    assert FieldOk(f) && ProperField(f);
    var bytes, prev, cur := EncValue(f, v).bytes, NextEntry(fields, i, p), Received(fields, i, p);
    assert EncTag(f.tag, wt) + bytes + t == EncTag(f.tag, wt) + (bytes + t);
    KnownField(fields, i, p, wt, bytes + t);
    RepeatedStep(fields, i, p, wt, prev, bytes + t);
    var r := DecValue(f, prev, bytes + t);
    assert DecRepeated(f, wt, cur, prev, bytes + t)
        == if |cur| >= f.arraySize || r.Fail? then Fail else Done(cur + [r.value], r.rest);
    w := r.value;
    ValueNecessary(f, v, prev, t);
  }

  lemma {:induction false} UnpackedNecessary(fields: seq<Field>, i: nat, p: Progress, items: seq<Value>, t: Bytes)
    returns (ws: seq<Value>)
    requires TableOk(fields) && Proper(fields) && i < |fields| && ArrayReady(fields, i, p)
    requires Received(fields, i, p) == [] && !fields[i].Packable()
    requires (forall j :: 0 <= j < |items| ==> ValueHeld(fields[i], items[j])) && EncUnpacked(fields[i], items).Wrote?
    requires !DecLoop(fields, p, EncUnpacked(fields[i], items).bytes + t).LoopFail?
    ensures Met(fields[i], items, ws) && |ws| <= fields[i].arraySize
    ensures DecLoop(fields, p, EncUnpacked(fields[i], items).bytes + t)
         == DecLoop(fields, if items == [] then p else WithReceived(fields, i, p, ws), t)
    decreases fields, 5, |items|
  {
    hide EncTagged, DecLoop, ValueOk, SameValue, ValueHeld, WithReceived, ArrayReady, Received, TableOk, Proper;
    var f := fields[i];
    if items == [] {
      ws := [];
      assert [] + t == t;
    } else {
      var front, v := items[..|items| - 1], items[|items| - 1];
      var a, e := EncUnpacked(f, front), EncTagged(f, v);
      assert EncUnpacked(f, items).bytes + t == a.bytes + (e.bytes + t);
      var us := UnpackedNecessary(fields, i, p, front, e.bytes + t);
      var q := if front == [] then p else WithReceived(fields, i, p, us);
      if front != [] { ReceivedMore(fields, i, p, us, us); }
      assert us == Received(fields, i, q);
      var w := ElementNecessary(fields, i, q, v, t);
      ws := us + [w];
      MetMore(f, front, us, v, w);
      assert front + [v] == items;
      if front != [] { ReceivedMore(fields, i, p, us, ws); }
    }
  }

  /** An array whose elements came back the same met its conditions. */
  lemma {:induction false} ArrayNecessary(fields: seq<Field>, i: nat, p: Progress, items: seq<Value>, t: Bytes)
    returns (ws: seq<Value>)
    requires TableOk(fields) && Proper(fields) && i < |fields| && ArrayReady(fields, i, p)
    requires Received(fields, i, p) == [] && EncArray(fields[i], items).Wrote?
    requires |items| <= fields[i].arraySize ==> ItemsHeld(fields[i], items)
    requires !DecLoop(fields, p, EncArray(fields[i], items).bytes + t).LoopFail?
    ensures |ws| == |items| <= fields[i].arraySize && (SameItems(fields[i], items, ws) ==> ItemsOk(fields[i], items))
    ensures DecLoop(fields, p, EncArray(fields[i], items).bytes + t)
         == DecLoop(fields, if items == [] then p else WithReceived(fields, i, p, ws), t)
    decreases fields, 6
  {
    hide EncUnpacked, DecLoop, ValueOk, SameValue, ValueHeld, WithReceived, ArrayReady, Received, TableOk, Proper;
    var f := fields[i];
    if items == [] {
      ws := [];
      assert [] + t == t;
      NothingPacked(f);
    } else if f.Packable() {
      ws := PackedNecessary(fields, i, p, items, t);
    } else {
      ws := UnpackedNecessary(fields, i, p, items, t);
    }
  }

  lemma NothingPacked(f: Field)
    ensures EncPacked(f, []) == Wrote([])
  {
  }

  // ---------------------------------------------------------------- omitted values

  /** An omitted value that is what the decoder starts from met its conditions. */
  lemma {:induction false} OmittedNecessary(f: Field, v: Value, d: Value)
    requires FieldOk(f) && ProperField(f) && ValueHeld(f, v)
    requires IsZero(f, v) && ResetValue(f, d) && SameValue(f, v, d)
    ensures ValueOk(f, v) && OmissionOk(f, v)
    decreases f, 0
  {
    hide EncTo, AllDefault, TableOk, MessageOk, SameMessage, ResetMessage, Proper, Held, InRange;
    if f.ltype.LSubmessage? {
      DefaultNecessary(f.sub, v.slots, d.slots);
    } else if IsInteger(f.ltype) {
      ZeroInRange(f);
    }
  }

  lemma ZeroInRange(f: Field)
    requires IntegerSize(f.dataSize)
    ensures InRange(f.ltype, f.dataSize, 0)
  {
  }

  lemma {:induction false} DefaultNecessary(fields: seq<Field>, m: seq<Slot>, d: seq<Slot>)
    requires TableOk(fields) && Proper(fields) && Held(fields, m) && AllDefault(fields, m, |fields|)
    requires ResetMessage(fields, d, |fields|) && SameMessage(fields, m, d)
    ensures MessageOk(fields, m) && Enc(fields, m) == Wrote([])
    decreases fields, 2
  {
    hide IsDefault, SlotOk, SameSlot, ResetSlot, SlotHeld, EncTo, AllDefault, FieldOk, ProperField;
    Presence.AllDefaultMeans(fields, m, |fields|);
    NonzeroTags(fields);
    Presence.DefaultCheckGap(fields, m);
    forall i | 0 <= i < |fields|
      ensures Presence.InStruct(fields, m, i) && SlotOk(fields[i], m[SlotOf(fields, i)])
      ensures Presence.SelectorOk(fields, m[SlotOf(fields, i)], i)
    {
      assert FieldOk(fields[i]) && ProperField(fields[i]);
      assert Presence.InStruct(fields, m, i) && Presence.InStruct(fields, d, i);
      DefaultSlotNecessary(fields[i], m[SlotOf(fields, i)], d[SlotOf(fields, i)]);
    }
  }

  lemma NonzeroTags(fields: seq<Field>)
    requires TableOk(fields)
    ensures Presence.NonzeroTags(fields)
  {
  }

  lemma {:induction false} DefaultSlotNecessary(f: Field, a: Slot, b: Slot)
    requires FieldOk(f) && ProperField(f) && SlotHeld(f, a) && IsDefault(f, a) && ResetSlot(f, b) && SameSlot(f, a, b)
    ensures SlotOk(f, a) && (f.htype.OneOf? ==> a.Union? && a.which == 0)
    decreases f, 1
  {
    hide ValueOk, IsZero, SameValue, ResetValue, ValueHeld, ProperField, EncPacked;
    if f.Implicit() {
      OmittedNecessary(f, a.v, b.v);
    }
    NothingPacked(f);
  }

  // ---------------------------------------------------------------- whole messages

  /**
   After the first `n` entries: what came back the same met its conditions, what has not come is as it was
   at first, a union holds a member that the message chose or none, and no fixed-count array is half received.
   */
  ghost predicate State(fields: seq<Field>, m: seq<Slot>, p: Progress, n: nat) {
    && p.fixedField < n && FixedDone(fields, p)
    && forall i :: 0 <= i < |fields| ==>
         && Presence.InStruct(fields, p.slots, i) && Presence.InStruct(fields, m, i)
         && EntryState(fields, m[SlotOf(fields, i)], p.slots[SlotOf(fields, i)], i, i < n)
  }

  ghost predicate EntryState(fields: seq<Field>, a: Slot, b: Slot, i: nat, passed: bool)
    requires i < |fields|
  {
    && (fields[i].htype.OneOf? ==>
          b.Union? && (b.which == 0 || (a.Union? && b.which == a.which)) && Presence.SelectorOk(fields, b, i))
    && (!passed && !fields[i].htype.OneOf? ==> ResetSlot(fields[i], b))
    && (passed && SameSlot(fields[i], a, b) ==> SlotOk(fields[i], a))
  }

  /** Entry `n` stored `b` in its slot, or nothing. */
  lemma StateNext(fields: seq<Field>, m: seq<Slot>, p: Progress, q: Progress, n: nat)
    requires n < |fields| && UniqueTags(fields) && State(fields, m, p, n)
    requires SlotOf(fields, n) < |p.slots| && SlotOf(fields, n) < |m| && |q.slots| == |p.slots|
    requires q.slots == p.slots[SlotOf(fields, n) := q.slots[SlotOf(fields, n)]]
    requires q.fixedField <= n && FixedDone(fields, q)
    requires EntryState(fields, m[SlotOf(fields, n)], q.slots[SlotOf(fields, n)], n, true)
    requires q.slots != p.slots && fields[n].htype.OneOf? ==>
               m[SlotOf(fields, n)].Union? && m[SlotOf(fields, n)].which == fields[n].tag
    ensures State(fields, m, q, n + 1)
  {
    hide SlotOf, SlotOk, SameSlot, ResetSlot, FixedDone;
    var k := SlotOf(fields, n);
    forall i | 0 <= i < |fields|
      ensures Presence.InStruct(fields, q.slots, i) && Presence.InStruct(fields, m, i)
      ensures EntryState(fields, m[SlotOf(fields, i)], q.slots[SlotOf(fields, i)], i, i < n + 1)
    {
      assert Presence.InStruct(fields, p.slots, i) && Presence.InStruct(fields, m, i);
      if i != n && SlotOf(fields, i) == k {
        SharedSlotIsUnion(fields, if i < n then i else n, if i < n then n else i);
        SharedState(fields, m[k], p.slots[k], q.slots[k], i, n);
      }
    }
  }

  /** The other members of a union whose slot was stored to. */
  lemma SharedState(fields: seq<Field>, a: Slot, was: Slot, b: Slot, i: nat, n: nat)
    requires i < |fields| && n < |fields| && i != n && UniqueTags(fields) && SlotOf(fields, i) == SlotOf(fields, n)
    requires fields[i].htype.OneOf? && fields[n].htype.OneOf?
    requires EntryState(fields, a, was, i, i < n) && EntryState(fields, a, b, n, true)
    requires b != was ==> a.Union? && a.which == fields[n].tag
    ensures EntryState(fields, a, b, i, i < n + 1)
  {
    hide ValueOk, SameValue, SlotOf;
    assert fields[i].tag != fields[n].tag;
  }

  lemma {:induction false} ArrayEntryNecessary(fields: seq<Field>, m: seq<Slot>, p: Progress, n: nat, t: Bytes)
    returns (q: Progress)
    requires TableOk(fields) && Proper(fields) && Held(fields, m) && n < |fields| && State(fields, m, p, n)
    requires fields[n].htype.Repeated? && SlotOf(fields, n) < |m|
    requires EncField(fields[n], m[SlotOf(fields, n)]).Wrote?
    requires !DecLoop(fields, p, EncField(fields[n], m[SlotOf(fields, n)]).bytes + t).LoopFail?
    ensures DecLoop(fields, p, EncField(fields[n], m[SlotOf(fields, n)]).bytes + t) == DecLoop(fields, q, t)
    ensures SlotOf(fields, n) < |p.slots| == |q.slots|
    ensures q.slots == p.slots[SlotOf(fields, n) := q.slots[SlotOf(fields, n)]]
    ensures q.fixedField <= n && FixedDone(fields, q)
    ensures EntryState(fields, m[SlotOf(fields, n)], q.slots[SlotOf(fields, n)], n, true)
    decreases fields, 7
  {
    hide EncArray, DecLoop, TableOk, Proper, ItemsOk, SameItems, ItemsHeld, ValueHeld;
    var f, k := fields[n], SlotOf(fields, n);
    var a := m[k];
    assert Presence.InStruct(fields, p.slots, n) && Presence.InStruct(fields, m, n);
    assert SlotHeld(f, a);
    var ws := ArrayNecessary(fields, n, p, a.items, t);
    q := if a.items == [] then p else WithReceived(fields, n, p, ws);
    var before := p.slots[k];
    if f.FixedCount() { assert ws + before.items[|ws|..] == ws; }
    assert q.slots[k].items == ws;
  }

  lemma {:induction false} EntryNecessary(fields: seq<Field>, m: seq<Slot>, p: Progress, n: nat, t: Bytes)
    returns (q: Progress)
    requires TableOk(fields) && Proper(fields) && Held(fields, m) && n < |fields| && State(fields, m, p, n)
    requires SlotOf(fields, n) < |m| && EncField(fields[n], m[SlotOf(fields, n)]).Wrote?
    requires !DecLoop(fields, p, EncField(fields[n], m[SlotOf(fields, n)]).bytes + t).LoopFail?
    ensures DecLoop(fields, p, EncField(fields[n], m[SlotOf(fields, n)]).bytes + t) == DecLoop(fields, q, t)
    ensures State(fields, m, q, n + 1)
    decreases fields, 8
  {
    hide DecLoop, Held, EncTagged, ResetValue, SameValue, ValueOk, ItemsOk, SameItems, EncArray, FieldOk;
    hide ProperField, ValueHeld, IsZero;
    var f, k := fields[n], SlotOf(fields, n);
    var a := m[k];
    assert FieldOk(f) && ProperField(f);
    assert Presence.InStruct(fields, p.slots, n) && Presence.InStruct(fields, m, n);
    HeldAt(fields, m, n);
    if f.htype.Repeated? {
      q := ArrayEntryNecessary(fields, m, p, n, t);
    } else if Present(f, a) {
      var w;
      q, w := TaggedNecessary(fields, n, p, a.v, t);
    } else {
      q := p;
      assert [] + t == t;
      if f.Implicit() && SameSlot(f, a, p.slots[k]) { OmittedNecessary(f, a.v, p.slots[k].v); }
    }
    StateNext(fields, m, p, q, n);
  }

  lemma HeldAt(fields: seq<Field>, m: seq<Slot>, i: nat)
    requires Held(fields, m) && i < |fields| && Presence.InStruct(fields, m, i)
    ensures SlotHeld(fields[i], m[SlotOf(fields, i)])
  {
    hide SlotHeld;
  }

  lemma {:induction false} LoopNecessary(fields: seq<Field>, m: seq<Slot>, d: seq<Slot>, n: nat, t: Bytes)
    returns (q: Progress)
    requires TableOk(fields) && Proper(fields) && Held(fields, m) && ResetMessage(fields, d, |fields|)
    requires n <= |fields| && EncTo(fields, m, n).Wrote?
    requires !DecLoop(fields, Start(d), EncTo(fields, m, n).bytes + t).LoopFail?
    ensures DecLoop(fields, Start(d), EncTo(fields, m, n).bytes + t) == DecLoop(fields, q, t)
    ensures State(fields, m, q, n)
    decreases fields, 9, n
  {
    hide DecLoop, EncField, TableOk, Proper, SlotHeld, ResetSlot, SlotOk, SameSlot;
    if n == 0 {
      q := Start(d);
      assert [] + t == t;
      forall i | 0 <= i < |fields|
        ensures Presence.InStruct(fields, d, i) && Presence.InStruct(fields, m, i)
        ensures EntryState(fields, m[SlotOf(fields, i)], d[SlotOf(fields, i)], i, false)
      {
        assert Presence.InStruct(fields, d, i) && ResetSlot(fields[i], d[SlotOf(fields, i)]);
        SlotInRange(fields, i);
        ResetUnion(fields[i], d[SlotOf(fields, i)]);
      }
    } else {
      var a, e := EncTo(fields, m, n - 1), EncField(fields[n - 1], m[SlotOf(fields, n - 1)]);
      assert EncTo(fields, m, n).bytes + t == a.bytes + (e.bytes + t);
      var r := LoopNecessary(fields, m, d, n - 1, e.bytes + t);
      q := EntryNecessary(fields, m, r, n - 1, t);
    }
  }

  lemma ResetUnion(f: Field, slot: Slot)
    requires ResetSlot(f, slot)
    ensures f.htype.OneOf? ==> slot.Union? && slot.which == 0
  {
  }

  /** A message that comes back the same meets the conditions of the round trip. */
  lemma {:induction false} MessageNecessary(fields: seq<Field>, m: seq<Slot>, d: seq<Slot>)
    requires TableOk(fields) && Proper(fields) && Held(fields, m) && ResetMessage(fields, d, |fields|)
    ensures ComesBack(fields, m, d) ==> MessageOk(fields, m)
    decreases fields, 10
  {
    hide DecLoop, EncTo, TableOk, Proper, Held, ResetMessage, SlotOk, SameSlot, EntryState;
    if ComesBack(fields, m, d) {
      assert Enc(fields, m).bytes + [] == Enc(fields, m).bytes;
      var q := LoopNecessary(fields, m, d, |fields|, []);
      LoopEnd(fields, q, []);
      HeldSize(fields, m);
      forall i | 0 <= i < |fields|
        ensures Presence.InStruct(fields, m, i) && SlotOk(fields[i], m[SlotOf(fields, i)])
        ensures Presence.SelectorOk(fields, m[SlotOf(fields, i)], i)
      {
        assert Presence.InStruct(fields, q.slots, i) && Presence.InStruct(fields, m, i);
        FinalEntry(fields, m[SlotOf(fields, i)], q.slots[SlotOf(fields, i)], i);
      }
    }
  }

  lemma HeldSize(fields: seq<Field>, m: seq<Slot>)
    requires Held(fields, m)
    ensures |m| == SlotCount(fields)
  {
  }

  lemma FinalEntry(fields: seq<Field>, a: Slot, b: Slot, i: nat)
    requires i < |fields| && EntryState(fields, a, b, i, true) && SameSlot(fields[i], a, b)
    ensures SlotOk(fields[i], a) && Presence.SelectorOk(fields, a, i)
  {
    hide SlotOf, ValueOk, SameValue, ItemsOk, SameItems;
  }

  /** Encoding succeeds, and decoding what it wrote over `d` gives the message back. */
  predicate ComesBack(fields: seq<Field>, m: seq<Slot>, d: seq<Slot>) {
    && Enc(fields, m).Wrote?
    && var r := DecMessage(fields, d, Enc(fields, m).bytes); r.Done? && SameMessage(fields, m, r.value)
  }

  /**
   The round trip is exact: of all the structures a table can have in memory, those come back the same from
   being encoded and decoded that meet `MessageOk`, and no others.
   */
  lemma RoundTripExactly(fields: seq<Field>, m: seq<Slot>, d: seq<Slot>)
    requires TableOk(fields) && Proper(fields) && Held(fields, m) && ResetMessage(fields, d, |fields|)
    ensures ComesBack(fields, m, d) <==> MessageOk(fields, m)
    ensures ComesBack(fields, m, d) ==> DecMessage(fields, d, Enc(fields, m).bytes).rest == []
  {
    hide EncTo, DecMessage, TableOk, Proper, Held, ResetMessage, MessageOk, SameMessage;
    if MessageOk(fields, m) {
      MessageRoundTrip(fields, m, d, []);
    }
    MessageNecessary(fields, m, d);
  }
}
