/** Field descriptor tables (pb_field_t arrays) and the structures they describe. */
module Descriptor {
  import opened Wire

  /** The largest pb_size_t; the library is built with PB_FIELD_32BIT. */
  const PB_SIZE_MAX: nat := 0xFFFF_FFFF

  /** offsetof(pb_bytes_array_t, bytes): the length word in front of a bytes field. */
  const BYTES_OFFSET: nat := 4

  datatype LType =
    | LBool | LVarint | LUVarint | LSVarint | LFixed32 | LFixed64
    | LBytes | LString | LSubmessage | LFixedLengthBytes

  datatype HType = Required | Optional | Repeated | OneOf

  /**
   A statically allocated field. `sizeOffset` is zero when the field has neither a has_ flag, a count
   nor a which_ selector of its own. `sub` is the table of a submessage; `default` the custom default.
   */
  datatype Field = Field(
    tag: nat, ltype: LType, htype: HType,
    dataOffset: nat, sizeOffset: int, dataSize: nat, arraySize: nat,
    sub: seq<Field>, default: Default)
  {
    predicate HasSize() { sizeOffset != 0 }
    predicate Packable() { !ltype.LBytes? && !ltype.LString? && !ltype.LSubmessage? && !ltype.LFixedLengthBytes? }
    /** A proto3 singular field: optional, without a has_ flag. */
    predicate Implicit() { htype.Optional? && !HasSize() }
    /** A repeated field without a count: every one of its `arraySize` entries is always present. */
    predicate FixedCount() { htype.Repeated? && !HasSize() }
  }

  datatype Default = Zeros | Custom(v: Value)

  /** One item: a number (bool, integer or bit pattern), a byte string or a nested structure. */
  datatype Value = Num(n: int) | Blob(b: Bytes) | Msg(slots: seq<Slot>)

  /** The storage of a field, or of all the fields of one union. */
  datatype Slot =
    | Single(v: Value)
    | Flagged(has: bool, v: Value)
    | Many(items: seq<Value>)
    | Fixed(items: seq<Value>)
    | Union(which: nat, v: Value)

  // ---------------------------------------------------------------- layout of a table

  /** The entry continues the union of the entry before it, at the same address. */
  predicate InUnion(fields: seq<Field>, i: nat)
    requires i < |fields|
  {
    i > 0 && fields[i - 1].htype.OneOf? && fields[i].htype.OneOf? && fields[i].dataOffset == PB_SIZE_MAX
  }

  /** How many slots the first `n` entries open. */
  function SlotsBefore(fields: seq<Field>, n: nat): (k: nat)
    requires n <= |fields|
    ensures n > 0 ==> k > 0
  {
    if n == 0 then 0
    else SlotsBefore(fields, n - 1) + if InUnion(fields, n - 1) then 0 else 1
  }

  /** The slot that entry `i` reads and writes. */
  function SlotOf(fields: seq<Field>, i: nat): nat
    requires i < |fields|
  {
    SlotsBefore(fields, i + 1) - 1
  }

  function SlotCount(fields: seq<Field>): nat {
    SlotsBefore(fields, |fields|)
  }

  lemma {:induction false} SlotsMonotone(fields: seq<Field>, m: nat, n: nat)
    requires m <= n <= |fields|
    ensures SlotsBefore(fields, m) <= SlotsBefore(fields, n)
    decreases n
  {
    if m < n { SlotsMonotone(fields, m, n - 1); }
  }

  lemma SlotInRange(fields: seq<Field>, i: nat)
    requires i < |fields|
    ensures SlotOf(fields, i) < SlotCount(fields)
  {
    SlotsMonotone(fields, i + 1, |fields|);
  }

  /** Only the fields of one union share a slot. */
  lemma {:induction false} SharedSlotIsUnion(fields: seq<Field>, i: nat, j: nat)
    requires i < j < |fields| && SlotOf(fields, i) == SlotOf(fields, j)
    ensures fields[i].htype.OneOf? && fields[j].htype.OneOf?
    decreases j
  {
    SlotsMonotone(fields, i + 1, j);
    if i + 1 < j {
      SharedSlotIsUnion(fields, i, j - 1);
    }
  }

  /** Number of required fields among the first `n` entries. */
  function RequiredBefore(fields: seq<Field>, n: nat): nat
    requires n <= |fields|
  {
    if n == 0 then 0
    else RequiredBefore(fields, n - 1) + if fields[n - 1].htype.Required? then 1 else 0
  }

  lemma {:induction false} RequiredMonotone(fields: seq<Field>, m: nat, n: nat)
    requires m <= n <= |fields|
    ensures RequiredBefore(fields, m) <= RequiredBefore(fields, n)
    decreases n
  {
    if m < n { RequiredMonotone(fields, m, n - 1); }
  }

  /** The entry with a tag: the first one, or |fields| when there is none. */
  function Lookup(fields: seq<Field>, tag: nat): (i: nat)
    ensures i <= |fields|
    ensures i < |fields| ==> fields[i].tag == tag
    ensures forall j :: 0 <= j < i ==> fields[j].tag != tag
  {
    LookupFrom(fields, tag, 0)
  }

  function LookupFrom(fields: seq<Field>, tag: nat, k: nat): (i: nat)
    requires k <= |fields|
    ensures k <= i <= |fields|
    ensures i < |fields| ==> fields[i].tag == tag
    ensures forall j :: k <= j < i ==> fields[j].tag != tag
    decreases |fields| - k
  {
    if k == |fields| || fields[k].tag == tag then k else LookupFrom(fields, tag, k + 1)
  }

  predicate UniqueTags(fields: seq<Field>) {
    forall i, j :: 0 <= i < j < |fields| ==> fields[i].tag != fields[j].tag
  }

  lemma LookupUnique(fields: seq<Field>, i: nat)
    requires i < |fields| && UniqueTags(fields)
    ensures Lookup(fields, fields[i].tag) == i
  {
    assert Lookup(fields, fields[i].tag) <= i;
  }

  /** What the generator guarantees of one entry. */
  predicate FieldOk(f: Field)
    decreases f, 0
  {
    && 0 < f.tag < 0x2000_0000
    && f.dataSize <= PB_SIZE_MAX && f.arraySize <= PB_SIZE_MAX
    && (f.htype.Required? ==> !f.HasSize())
    && (f.htype.OneOf? ==> f.HasSize())
    && (f.ltype.LSubmessage? ==> TableOk(f.sub))
  }

  /** A table as the generator emits it: unique tags that fit a wire tag, nested tables likewise. */
  predicate TableOk(fields: seq<Field>)
    decreases fields, 1
  {
    UniqueTags(fields) && forall i :: 0 <= i < |fields| ==> FieldOk(fields[i])
  }

  // ---------------------------------------------------------------- zeroed memory

  /** What storage that was never written holds. */
  function ZeroValue(f: Field): Value
    decreases f, 0
  {
    match f.ltype
    case LBytes => Blob([])
    case LString => Blob([])
    case LFixedLengthBytes => Blob(seq(f.dataSize, _ => 0))
    case LSubmessage => Msg(ZeroTo(f.sub, |f.sub|))
    case _ => Num(0)
  }

  function ZeroSlot(f: Field): Slot
    decreases f, 1
  {
    match f.htype
    case Required => Single(ZeroValue(f))
    case Optional => if f.HasSize() then Flagged(false, ZeroValue(f)) else Single(ZeroValue(f))
    case Repeated => if f.HasSize() then Many([]) else Fixed(seq(f.arraySize, _ => ZeroValue(f)))
    case OneOf => Union(0, Num(0))
  }

  function ZeroTo(fields: seq<Field>, n: nat): (r: seq<Slot>)
    requires n <= |fields|
    ensures |r| == SlotsBefore(fields, n)
    decreases fields, n
  {
    if n == 0 then []
    else if InUnion(fields, n - 1) then ZeroTo(fields, n - 1)
    else ZeroTo(fields, n - 1) + [ZeroSlot(fields[n - 1])]
  }

  /** The entries of a fixed-count array that has this storage, or had none yet. */
  function EntriesOf(f: Field, prev: Slot): (items: seq<Value>)
    ensures |items| == f.arraySize
  {
    if prev.Fixed? && |prev.items| == f.arraySize then prev.items else seq(f.arraySize, _ => ZeroValue(f))
  }

  // ---------------------------------------------------------------- default values

  /** pb_field_set_to_default on the data of a field, given what the storage held before. */
  function DefaultValue(f: Field, prev: Value): Value
    decreases f, 0
  {
    if f.ltype.LSubmessage? then
      Msg(DefaultsTo(f.sub, if prev.Msg? then prev.slots else [], |f.sub|))
    else if f.default.Custom? then f.default.v
    else match f.ltype
      case LBytes => Blob([])
      case LString => Blob([])
      case LFixedLengthBytes => Blob(seq(f.dataSize, _ => 0))
      case _ => Num(0)
  }

  /** pb_field_set_to_default: counts, flags and selectors are cleared; array contents are not touched. */
  function DefaultSlot(f: Field, prev: Slot): Slot
    decreases f, 1
  {
    match f.htype
    case Required => Single(DefaultValue(f, if prev.Single? then prev.v else Num(0)))
    case Optional =>
      if f.HasSize() then Flagged(false, DefaultValue(f, if prev.Flagged? then prev.v else Num(0)))
      else Single(DefaultValue(f, if prev.Single? then prev.v else Num(0)))
    case Repeated =>
      if f.HasSize() then Many([])
      else Fixed(EntriesOf(f, prev))
    case OneOf => Union(0, if prev.Union? then prev.v else Num(0))
  }

  /** pb_message_set_to_defaults over the first `n` entries. */
  function DefaultsTo(fields: seq<Field>, prev: seq<Slot>, n: nat): (r: seq<Slot>)
    requires n <= |fields|
    ensures |r| == SlotsBefore(fields, n)
    decreases fields, n
  {
    if n == 0 then []
    else
      var r := DefaultsTo(fields, prev, n - 1);
      if InUnion(fields, n - 1) then r
      else r + [DefaultSlot(fields[n - 1], if |r| < |prev| then prev[|r|] else Single(Num(0)))]
  }

  /** pb_message_set_to_defaults. Storage that was not a structure of this type counts as zeroed memory. */
  function Defaults(fields: seq<Field>, prev: seq<Slot>): (r: seq<Slot>)
    ensures |r| == SlotCount(fields)
  {
    DefaultsTo(fields, prev, |fields|)
  }
}
