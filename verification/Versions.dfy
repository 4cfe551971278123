/**
 Writers and readers of different versions: whatever the encoder writes for a field, a decoder that does
 not know the field skips exactly that, by its wire type alone.
 */
module Versions {
  import opened Wire
  import opened Descriptor
  import opened Encoding
  import opened Decoding
  import opened Merge
  import opened RoundTrip
  import Presence

  // ---------------------------------------------------------------- skipping what was encoded

  lemma {:induction false} SkipVarintOf(v: nat, t: Bytes)
    ensures SkipVarint(EncVarint(v) + t) == Done((), t)
  {
    EncVarintStep(v, t);
    if v >= 128 {
      SkipVarintOf(v / 128, t);
    }
  }

  lemma SkipString(b: Bytes, t: Bytes)
    requires |b| < TWO32
    ensures Skip(WT_STRING, EncString(b) + t) == Done((), t)
  {
    StringRoundTrip(b, t);
  }

  /** The wire type of a field tells how to skip any of its values. */
  lemma SkipValue(f: Field, v: Value, t: Bytes)
    requires EncValue(f, v).Wrote? && |EncValue(f, v).bytes| < TWO32
    ensures Skip(WireType(f.ltype), EncValue(f, v).bytes + t) == Done((), t)
  {
    hide EncVarint, SkipVarint, CString, EncTo, LittleEndian;
    var e := EncValue(f, v).bytes;
    match f.ltype
    case LFixed32 => TakeAppend(e, t);
    case LFixed64 => TakeAppend(e, t);
    case LBytes => SkipString(v.b, t);
    case LString => SkipString(CString(v.b, f.dataSize), t);
    case LFixedLengthBytes => SkipString(v.b, t);
    case LSubmessage => SkipString(EncTo(f.sub, v.slots, |f.sub|).bytes, t);
    case LBool => SkipVarintOf(if v.n != 0 then 1 else 0, t);
    case LVarint => SkipVarintOf(ToU64(v.n), t);
    case LUVarint => SkipVarintOf(ToU64(v.n), t);
    case LSVarint => SkipVarintOf(ZigZag(v.n), t);
  }

  /** The reader's table has no such field. */
  predicate Unknown(fields: seq<Field>, f: Field) {
    0 < f.tag < 0x2000_0000 && Lookup(fields, f.tag) == |fields|
  }

  lemma TagRead(tag: nat, wt: nat, s: Bytes)
    requires 0 < tag < 0x2000_0000 && wt < 8
    ensures DecTag(EncTag(tag, wt) + s) == Tag(wt, tag, s)
  {
    hide Dec32, EncVarint;
    Dec32RoundTrip(8 * tag + wt, s);
  }

  lemma PieceUnknown(fields: seq<Field>, f: Field, wt: nat, payload: Bytes, t: Bytes)
    requires Unknown(fields, f) && wt < 8 && Skip(wt, payload + t) == Done((), t) && UnknownFields(fields, t)
    ensures UnknownFields(fields, EncTag(f.tag, wt) + payload + t)
  {
    TagRead(f.tag, wt, payload + t);
    hide EncTag, DecTag, Skip, Lookup;
    assert EncTag(f.tag, wt) + payload + t == EncTag(f.tag, wt) + (payload + t);
  }

  lemma TaggedUnknown(fields: seq<Field>, f: Field, v: Value, t: Bytes)
    requires Unknown(fields, f) && UnknownFields(fields, t)
    requires EncTagged(f, v).Wrote? && |EncTagged(f, v).bytes| < TWO32
    ensures UnknownFields(fields, EncTagged(f, v).bytes + t)
  {
    hide EncValue, Skip, UnknownFields, Unknown;
    SkipValue(f, v, t);
    PieceUnknown(fields, f, WireType(f.ltype), EncValue(f, v).bytes, t);
  }

  lemma {:induction false} ItemsUnknown(fields: seq<Field>, f: Field, items: seq<Value>, t: Bytes)
    requires Unknown(fields, f) && UnknownFields(fields, t)
    requires EncUnpacked(f, items).Wrote? && |EncUnpacked(f, items).bytes| < TWO32
    ensures UnknownFields(fields, EncUnpacked(f, items).bytes + t)
    decreases |items|
  {
    hide EncTagged, UnknownFields, Unknown;
    if items == [] {
      assert [] + t == t;
    } else {
      var front, last := EncUnpacked(f, items[..|items| - 1]), EncTagged(f, items[|items| - 1]);
      TaggedUnknown(fields, f, items[|items| - 1], t);
      ItemsUnknown(fields, f, items[..|items| - 1], last.bytes + t);
      assert EncUnpacked(f, items).bytes + t == front.bytes + (last.bytes + t);
    }
  }

  lemma ArrayUnknown(fields: seq<Field>, f: Field, items: seq<Value>, t: Bytes)
    requires Unknown(fields, f) && UnknownFields(fields, t)
    requires EncArray(f, items).Wrote? && |EncArray(f, items).bytes| < TWO32
    ensures UnknownFields(fields, EncArray(f, items).bytes + t)
  {
    hide EncPacked, UnknownFields, Unknown, EncTag, Skip;
    if items == [] {
      assert [] + t == t;
    } else if f.Packable() {
      var run := EncPacked(f, items).bytes;
      SkipString(run, t);
      PieceUnknown(fields, f, WT_STRING, EncString(run), t);
    } else {
      ItemsUnknown(fields, f, items, t);
    }
  }

  /** Whatever one entry writes, a reader without it sees whole unknown fields. */
  lemma FieldUnknown(fields: seq<Field>, f: Field, slot: Slot, t: Bytes)
    requires Unknown(fields, f) && UnknownFields(fields, t)
    requires EncField(f, slot).Wrote? && |EncField(f, slot).bytes| < TWO32
    ensures UnknownFields(fields, EncField(f, slot).bytes + t)
  {
    hide EncTagged, EncArray, IsDefault, UnknownFields, Unknown;
    if EncField(f, slot).bytes == [] {
      assert [] + t == t;
    } else if f.htype.Repeated? {
      ArrayUnknown(fields, f, slot.items, t);
    } else {
      TaggedUnknown(fields, f, slot.v, t);
    }
  }

  /** A whole message is unknown fields to a reader that shares none of its tags, and changes nothing there. */
  lemma {:induction false} MessageUnknown(fields: seq<Field>, written: seq<Field>, m: seq<Slot>, n: nat, t: Bytes)
    requires n <= |written| && UnknownFields(fields, t) && forall i :: 0 <= i < n ==> Unknown(fields, written[i])
    requires EncTo(written, m, n).Wrote? && |EncTo(written, m, n).bytes| < TWO32
    ensures UnknownFields(fields, EncTo(written, m, n).bytes + t)
    decreases n
  {
    hide EncField, UnknownFields, Unknown;
    if n == 0 {
      assert [] + t == t;
    } else {
      var front, last := EncTo(written, m, n - 1), EncField(written[n - 1], m[SlotOf(written, n - 1)]);
      FieldUnknown(fields, written[n - 1], m[SlotOf(written, n - 1)], t);
      MessageUnknown(fields, written, m, n - 1, last.bytes + t);
      assert EncTo(written, m, n).bytes + t == front.bytes + (last.bytes + t);
    }
  }

  lemma ForeignMessageIgnored(fields: seq<Field>, written: seq<Field>, m: seq<Slot>, p: Progress)
    requires forall i :: 0 <= i < |written| ==> Unknown(fields, written[i])
    requires Enc(written, m).Wrote? && |Enc(written, m).bytes| < TWO32
    ensures DecLoop(fields, p, Enc(written, m).bytes) == Ended(p)
  {
    hide DecLoop, EncTo, Unknown;
    MessageUnknown(fields, written, m, |written|, []);
    assert Enc(written, m).bytes + [] == Enc(written, m).bytes;
    UnknownFieldsIgnored(fields, p, Enc(written, m).bytes);
  }

  // ---------------------------------------------------------------- an entry in another place

  /** The same entry, except for its distance from the entry before it. */
  predicate SameEntry(f: Field, g: Field) {
    f == g.(dataOffset := f.dataOffset)
  }

  lemma ValueElsewhere(f: Field, g: Field, v: Value)
    requires SameEntry(f, g)
    ensures EncValue(f, v) == EncValue(g, v) && EncTagged(f, v) == EncTagged(g, v)
    ensures ValueOk(f, v) <==> ValueOk(g, v)
    ensures IsZero(f, v) <==> IsZero(g, v)
  {
    hide MessageOk, EncTo, EncVarint, EncString, CString, LittleEndian, AllDefault;
  }

  lemma {:induction false} ItemsElsewhere(f: Field, g: Field, items: seq<Value>)
    requires SameEntry(f, g)
    ensures EncPacked(f, items) == EncPacked(g, items) && EncUnpacked(f, items) == EncUnpacked(g, items)
    decreases |items|
  {
    hide EncValue, EncTagged;
    if items != [] {
      ValueElsewhere(f, g, items[|items| - 1]);
      ItemsElsewhere(f, g, items[..|items| - 1]);
    }
  }

  lemma ArrayElsewhere(f: Field, g: Field, items: seq<Value>)
    requires SameEntry(f, g)
    ensures EncArray(f, items) == EncArray(g, items)
    ensures ItemsOk(f, items) <==> ItemsOk(g, items)
  {
    hide EncPacked, EncUnpacked, ValueOk;
    ItemsElsewhere(f, g, items);
    forall j | 0 <= j < |items|
      ensures ValueOk(f, items[j]) <==> ValueOk(g, items[j])
    {
      ValueElsewhere(f, g, items[j]);
    }
  }

  /** Where an entry stands matters neither to what it writes nor to whether it round-trips. */
  lemma EntryElsewhere(f: Field, g: Field, slot: Slot)
    requires SameEntry(f, g)
    ensures EncField(f, slot) == EncField(g, slot)
    ensures SlotOk(f, slot) <==> SlotOk(g, slot)
  {
    hide EncValue, EncTagged, EncArray, ValueOk, ItemsOk, IsZero;
    if slot.Many? || slot.Fixed? {
      ArrayElsewhere(f, g, slot.items);
    } else {
      ValueElsewhere(f, g, slot.v);
    }
  }

  // ---------------------------------------------------------------- an older reader

  predicate Increasing(at: seq<nat>) {
    forall j, k :: 0 <= j < k < |at| ==> at[j] < at[k]
  }

  /**
   The older table: some of the newer entries in their order, the `j`th of them at `at[j]`. Two of them
   share storage in one table exactly if they do in the other, and a union is kept with all its members.
   */
  predicate PartOf(fields: seq<Field>, all: seq<Field>, at: seq<nat>) {
    && |at| == |fields| && Increasing(at)
    && (forall j :: 0 <= j < |at| ==> at[j] < |all| && SameEntry(fields[j], all[at[j]]))
    && (forall j, k :: 0 <= j < |at| && 0 <= k < |at| ==>
                         (SlotOf(fields, j) == SlotOf(fields, k) <==> SlotOf(all, at[j]) == SlotOf(all, at[k])))
    && (forall j, i :: 0 <= j < |at| && 0 <= i < |all| && SlotOf(all, i) == SlotOf(all, at[j]) ==> i in at)
  }

  /** The part of a newer structure that the older table describes. */
  function OlderTo(fields: seq<Field>, all: seq<Field>, at: seq<nat>, m: seq<Slot>, n: nat): (r: seq<Slot>)
    requires n <= |fields| && PartOf(fields, all, at) && SlotCount(all) <= |m|
    ensures |r| == SlotsBefore(fields, n)
  {
    if n == 0 then []
    else if InUnion(fields, n - 1) then OlderTo(fields, all, at, m, n - 1)
    else
      SlotInRange(all, at[n - 1]);
      OlderTo(fields, all, at, m, n - 1) + [m[SlotOf(all, at[n - 1])]]
  }

  function Older(fields: seq<Field>, all: seq<Field>, at: seq<nat>, m: seq<Slot>): (r: seq<Slot>)
    requires PartOf(fields, all, at) && SlotCount(all) <= |m|
    ensures |r| == SlotCount(fields)
  {
    OlderTo(fields, all, at, m, |fields|)
  }

  lemma {:induction false} OlderAt(fields: seq<Field>, all: seq<Field>, at: seq<nat>, m: seq<Slot>, n: nat, j: nat)
    requires j < n <= |fields| && PartOf(fields, all, at) && SlotCount(all) <= |m|
    ensures SlotOf(fields, j) < SlotsBefore(fields, n) && SlotOf(all, at[j]) < |m|
    ensures OlderTo(fields, all, at, m, n)[SlotOf(fields, j)] == m[SlotOf(all, at[j])]
    decreases n
  {
    hide PartOf;
    SlotsMonotone(fields, j + 1, n);
    PartAt(fields, all, at, j);
    SlotInRange(all, at[j]);
    if j < n - 1 {
      OlderAt(fields, all, at, m, n - 1, j);
    } else if InUnion(fields, n - 1) {
      PartAt(fields, all, at, n - 2);
      SameStorage(fields, all, at, n - 2, n - 1);
      OlderAt(fields, all, at, m, n - 1, n - 2);
    }
  }

  lemma PartSize(fields: seq<Field>, all: seq<Field>, at: seq<nat>)
    requires PartOf(fields, all, at)
    ensures |at| == |fields| && Increasing(at)
  {
  }

  lemma PartAt(fields: seq<Field>, all: seq<Field>, at: seq<nat>, j: nat)
    requires PartOf(fields, all, at) && j < |fields|
    ensures j < |at| && at[j] < |all| && SameEntry(fields[j], all[at[j]])
  {
  }

  lemma SameStorage(fields: seq<Field>, all: seq<Field>, at: seq<nat>, j: nat, k: nat)
    requires PartOf(fields, all, at) && j < |fields| && k < |fields|
    ensures at[j] < |all| && at[k] < |all|
    ensures SlotOf(fields, j) == SlotOf(fields, k) <==> SlotOf(all, at[j]) == SlotOf(all, at[k])
  {
  }

  lemma OlderOk(fields: seq<Field>, all: seq<Field>, at: seq<nat>, m: seq<Slot>)
    requires PartOf(fields, all, at) && MessageOk(all, m)
    ensures |m| == SlotCount(all) && MessageOk(fields, Older(fields, all, at, m))
  {
    hide SlotOk, SlotOf, SlotsBefore, OlderTo, SameEntry;
    var older := Older(fields, all, at, m);
    forall j | 0 <= j < |fields|
      ensures Presence.InStruct(fields, older, j) && SlotOk(fields[j], older[SlotOf(fields, j)])
      ensures Presence.SelectorOk(fields, older[SlotOf(fields, j)], j)
    {
      OlderAt(fields, all, at, m, |fields|, j);
      var slot := m[SlotOf(all, at[j])];
      assert Presence.InStruct(all, m, at[j]) && Presence.SelectorOk(all, slot, at[j]);
      EntryElsewhere(fields[j], all[at[j]], slot);
      SelectorKept(fields, all, at, slot, j);
    }
  }

  lemma SelectorKept(fields: seq<Field>, all: seq<Field>, at: seq<nat>, slot: Slot, j: nat)
    requires PartOf(fields, all, at) && j < |fields| && Presence.SelectorOk(all, slot, at[j])
    ensures Presence.SelectorOk(fields, slot, j)
  {
    hide SlotOf;
    if fields[j].htype.OneOf? && slot.Union? && slot.which != 0 {
      var i :| 0 <= i < |all| && SlotOf(all, i) == SlotOf(all, at[j])
               && all[i].htype.OneOf? && all[i].tag == slot.which;
      assert i in at;
      var k :| 0 <= k < |at| && at[k] == i;
      assert SlotOf(fields, k) == SlotOf(fields, j);
    }
  }

  lemma TablesOk(fields: seq<Field>, all: seq<Field>, at: seq<nat>)
    requires PartOf(fields, all, at) && TableOk(all)
    ensures TableOk(fields)
  {
    hide SlotOf;
    forall j | 0 <= j < |fields|
      ensures FieldOk(fields[j])
    {
      assert FieldOk(all[at[j]]);
    }
  }

  /** How many of the first `i` newer entries the older table has. */
  function Kept(at: seq<nat>, i: nat): (k: nat)
    requires Increasing(at)
    ensures k <= |at| && forall j :: 0 <= j < |at| ==> (j < k <==> at[j] < i)
  {
    if i == 0 then 0
    else
      var k := Kept(at, i - 1);
      if k < |at| && at[k] == i - 1 then k + 1 else k
  }

  /** An entry that the older table does not have is unknown to it. */
  lemma AddedUnknown(fields: seq<Field>, all: seq<Field>, at: seq<nat>, i: nat)
    requires PartOf(fields, all, at) && TableOk(all) && i < |all| && i !in at
    ensures Unknown(fields, all[i])
  {
    hide SlotOf;
    assert FieldOk(all[i]);
    assert forall j :: 0 <= j < |fields| ==> fields[j].tag == all[at[j]].tag && at[j] != i;
  }

  /** Unknown fields in front of anything are skipped. */
  lemma SkippedInFront(fields: seq<Field>, p: Progress, x: Bytes, t: Bytes)
    requires UnknownFields(fields, x)
    ensures DecLoop(fields, p, x + t) == DecLoop(fields, p, t)
  {
    hide DecLoop, UnknownFields;
    UnknownFieldsIgnored(fields, p, x);
    LoopConcat(fields, p, x, t);
  }

  /** The older reader past the first `i` newer entries: past those of its own, as if they were alone. */
  lemma {:induction false} OlderReads(
      fields: seq<Field>, all: seq<Field>, at: seq<nat>, m: seq<Slot>, d: seq<Slot>, i: nat, t: Bytes)
    returns (p: Progress)
    requires PartOf(fields, all, at) && TableOk(all) && MessageOk(all, m) && ResetMessage(fields, d, |fields|)
    requires i <= |all| && EncTo(all, m, i).Wrote? && |EncTo(all, m, i).bytes| < TWO32
    ensures DecLoop(fields, Start(d), EncTo(all, m, i).bytes + t) == DecLoop(fields, p, t)
    ensures |m| == SlotCount(all) && Invariant(fields, Older(fields, all, at, m), p, Kept(at, i))
    decreases i
  {
    hide DecLoop, EncField, MessageOk, TableOk, ResetMessage, Invariant, PartOf, SlotOf, UnknownFields, Unknown;
    hide OlderTo;
    SlotsOf(all, m);
    PartSize(fields, all, at);
    var older := Older(fields, all, at, m);
    TablesOk(fields, all, at);
    OlderOk(fields, all, at, m);
    if i == 0 {
      p := LoopRoundTrip(fields, older, d, 0, t);
    } else {
      var e := EncField(all[i - 1], m[SlotOf(all, i - 1)]);
      var q := OlderReads(fields, all, at, m, d, i - 1, e.bytes + t);
      assert EncTo(all, m, i).bytes + t == EncTo(all, m, i - 1).bytes + (e.bytes + t);
      var j := Kept(at, i - 1);
      if j < |at| && at[j] == i - 1 {
        PartAt(fields, all, at, j);
        OlderAt(fields, all, at, m, |fields|, j);
        EntryElsewhere(fields[j], all[i - 1], m[SlotOf(all, i - 1)]);
        p := EntryRoundTrip(fields, older, q, j, t);
      } else {
        assert i - 1 !in at;
        AddedUnknown(fields, all, at, i - 1);
        EmptyUnknown(fields);
        FieldUnknown(fields, all[i - 1], m[SlotOf(all, i - 1)], []);
        assert e.bytes + [] == e.bytes;
        SkippedInFront(fields, q, e.bytes, t);
        p := q;
      }
    }
  }

  lemma EmptyUnknown(fields: seq<Field>)
    ensures UnknownFields(fields, [])
  {
  }

  /**
   Version skew: a reader whose table is any part of the writer's that keeps its unions whole gets exactly
   the fields it knows, wherever in the table and of whatever kind the others are, and consumes all of it.
   */
  lemma OlderReaderGetsItsFields(fields: seq<Field>, all: seq<Field>, at: seq<nat>, m: seq<Slot>, d: seq<Slot>)
    requires PartOf(fields, all, at) && TableOk(all) && MessageOk(all, m) && ResetMessage(fields, d, |fields|)
    requires Enc(all, m).Wrote? ==> |Enc(all, m).bytes| < TWO32
    ensures |m| == SlotCount(all) && Enc(all, m).Wrote?
    ensures var r := DecMessage(fields, d, Enc(all, m).bytes);
            r.Done? && r.rest == [] && SameMessage(fields, Older(fields, all, at, m), r.value)
  {
    hide EncTo, DecLoop, MessageOk, ResetMessage, SameMessage, PartOf, TableOk;
    InitialState(all, []);
    MessageRoundTrip(all, m, Defaults(all, []), []);
    OlderOk(fields, all, at, m);
    TablesOk(fields, all, at);
    var p := OlderReads(fields, all, at, m, d, |all|, []);
    AllKept(fields, all, at);
    AllDone(fields, Older(fields, all, at, m), p);
    LoopEnd(fields, p, []);
    assert Enc(all, m).bytes + [] == Enc(all, m).bytes;
  }

  lemma AllKept(fields: seq<Field>, all: seq<Field>, at: seq<nat>)
    requires PartOf(fields, all, at)
    ensures Kept(at, |all|) == |fields|
  {
    PartSize(fields, all, at);
    if |at| > 0 {
      PartAt(fields, all, at, |at| - 1);
    }
  }

  lemma SlotsOf(all: seq<Field>, m: seq<Slot>)
    requires MessageOk(all, m)
    ensures |m| == SlotCount(all)
  {
  }
}
