/** What the encoder writes: pb_encode as a function from a table and a structure to bytes. */
module Encoding {
  import opened Wire
  import opened Descriptor

  const WT_VARINT: nat := 0
  const WT_64BIT: nat := 1
  const WT_STRING: nat := 2
  const WT_32BIT: nat := 5

  /** pb_encode_tag_for_field's choice of wire type. */
  function WireType(lt: LType): (wt: nat)
    ensures wt < 8
  {
    match lt
    case LFixed32 => WT_32BIT
    case LFixed64 => WT_64BIT
    case LBool => WT_VARINT
    case LVarint => WT_VARINT
    case LUVarint => WT_VARINT
    case LSVarint => WT_VARINT
    case _ => WT_STRING
  }

  function EncTag(tag: nat, wt: nat): Bytes {
    EncVarint(8 * tag + wt)
  }

  /** The C cast of an integer to uint64_t. */
  function ToU64(n: int): nat { n % TWO64 }

  /** pb_encode_svarint's zigzag mapping; `~` is the complement in 64 bits. */
  function ZigZag(n: int): nat {
    if n < 0 then TWO64 - 1 - (2 * ToU64(n)) % TWO64 else (2 * ToU64(n)) % TWO64
  }

  /** `count` bytes of an unsigned number, least significant first. */
  function LittleEndian(n: nat, count: nat): (r: Bytes)
    ensures |r| == count
  {
    if count == 0 then [] else [n % 256] + LittleEndian(n / 256, count - 1)
  }

  /** The characters before the terminator, or all `max` of them when there is none. */
  function CString(b: Bytes, max: nat): (r: Bytes)
    ensures |r| <= max && r <= b
  {
    if b == [] || max == 0 || b[0] == 0 then [] else [b[0]] + CString(b[1..], max - 1)
  }

  function EncString(b: Bytes): Bytes {
    EncVarint(|b|) + b
  }

  /** An output with its length in front. */
  function Framed(o: Output): Output {
    match o
    case Wrote(body) => Wrote(EncString(body))
    case Error => Error
  }

  predicate IntegerSize(dataSize: nat) {
    dataSize == 1 || dataSize == 2 || dataSize == 4 || dataSize == 8
  }

  // ---------------------------------------------------------------- implicit presence

  /** pb_check_proto3_default_value on the data of a field without presence information. */
  predicate IsZero(f: Field, v: Value)
    decreases f, 0
  {
    match f.ltype
    case LBytes => v.Blob? && v.b == []
    case LString => v.Blob? && (v.b == [] || v.b[0] == 0)
    case LFixedLengthBytes => f.dataSize == 0
    case LSubmessage => v.Msg? && AllDefault(f.sub, v.slots, |f.sub|)
    case _ => v.Num? && v.n == 0
  }

  /** pb_check_proto3_default_value on one entry of a table. */
  predicate IsDefault(f: Field, slot: Slot)
    decreases f, 1
  {
    match f.htype
    case Required => false
    case Repeated => f.HasSize() && slot.Many? && slot.items == []
    case OneOf => slot.Union? && slot.which == 0
    case Optional =>
      if f.HasSize() then slot.Flagged? && !slot.has
      else slot.Single? && IsZero(f, slot.v)
  }

  /** pb_check_proto3_default_value on the first `n` entries of a submessage. */
  predicate AllDefault(fields: seq<Field>, slots: seq<Slot>, n: nat)
    requires n <= |fields|
    decreases fields, n
  {
    n == 0
    || (AllDefault(fields, slots, n - 1)
        && SlotOf(fields, n - 1) < |slots| && IsDefault(fields[n - 1], slots[SlotOf(fields, n - 1)]))
  }

  // ---------------------------------------------------------------- fields

  /** The pb_enc_* functions. A value whose shape is not the field's is no C structure and yields an error. */
  function EncValue(f: Field, v: Value): Output
    decreases f, 0
  {
    match f.ltype
    case LBool => if v.Num? then Wrote(EncVarint(if v.n != 0 then 1 else 0)) else Error
    case LVarint => if v.Num? && IntegerSize(f.dataSize) then Wrote(EncVarint(ToU64(v.n))) else Error
    case LUVarint => if v.Num? && IntegerSize(f.dataSize) then Wrote(EncVarint(ToU64(v.n))) else Error
    case LSVarint => if v.Num? && IntegerSize(f.dataSize) then Wrote(EncVarint(ZigZag(v.n))) else Error
    case LFixed32 => if v.Num? then Wrote(LittleEndian(v.n % TWO32, 4)) else Error
    case LFixed64 => if v.Num? then Wrote(LittleEndian(ToU64(v.n), 8)) else Error
    case LBytes => if v.Blob? && |v.b| + BYTES_OFFSET <= f.dataSize then Wrote(EncString(v.b)) else Error
    case LString => if v.Blob? then Wrote(EncString(CString(v.b, f.dataSize))) else Error
    case LFixedLengthBytes => if v.Blob? && |v.b| == f.dataSize then Wrote(EncString(v.b)) else Error
    case LSubmessage =>
      if v.Msg? then Framed(EncTo(f.sub, v.slots, |f.sub|)) else Error
  }

  /** The data of a packed array. */
  function EncPacked(f: Field, items: seq<Value>): Output
    decreases f, 1, |items|
  {
    if items == [] then Wrote([])
    else Append(EncPacked(f, items[..|items| - 1]), EncValue(f, items[|items| - 1]))
  }

  function EncTagged(f: Field, v: Value): Output
    decreases f, 1, 0
  {
    Append(Wrote(EncTag(f.tag, WireType(f.ltype))), EncValue(f, v))
  }

  function EncUnpacked(f: Field, items: seq<Value>): Output
    decreases f, 2, |items|
  {
    if items == [] then Wrote([])
    else Append(EncUnpacked(f, items[..|items| - 1]), EncTagged(f, items[|items| - 1]))
  }

  /** encode_array: packed whenever the type allows it. */
  function EncArray(f: Field, items: seq<Value>): Output
    decreases f, 3
  {
    if items == [] then Wrote([])
    else if |items| > f.arraySize then Error
    else if f.Packable() then Append(Wrote(EncTag(f.tag, WT_STRING)), Framed(EncPacked(f, items)))
    else EncUnpacked(f, items)
  }

  /** encode_basic_field for a static field. */
  function EncField(f: Field, slot: Slot): Output
    decreases f, 4
  {
    match f.htype
    case Required => if slot.Single? then EncTagged(f, slot.v) else Error
    case Optional =>
      if f.HasSize() then
        if !slot.Flagged? then Error else if slot.has then EncTagged(f, slot.v) else Wrote([])
      else
        if !slot.Single? then Error else if IsDefault(f, slot) then Wrote([]) else EncTagged(f, slot.v)
    case Repeated =>
      if f.HasSize() then if slot.Many? then EncArray(f, slot.items) else Error
      else if slot.Fixed? && |slot.items| == f.arraySize then EncArray(f, slot.items) else Error
    case OneOf =>
      if !slot.Union? then Error else if slot.which == f.tag then EncTagged(f, slot.v) else Wrote([])
  }

  /** pb_encode after `n` entries of the table. */
  function EncTo(fields: seq<Field>, slots: seq<Slot>, n: nat): Output
    requires n <= |fields|
    decreases fields, n
  {
    if n == 0 then Wrote([])
    else if SlotOf(fields, n - 1) >= |slots| then Error
    else Append(EncTo(fields, slots, n - 1), EncField(fields[n - 1], slots[SlotOf(fields, n - 1)]))
  }

  /** pb_encode. */
  function Enc(fields: seq<Field>, slots: seq<Slot>): Output {
    EncTo(fields, slots, |fields|)
  }

  /** pb_encode_delimited: the length, then the message. */
  function EncDelimited(fields: seq<Field>, m: seq<Slot>): Output {
    Framed(Enc(fields, m))
  }

  /** pb_encode_nullterminated. */
  function EncNullTerminated(fields: seq<Field>, m: seq<Slot>): Output {
    Append(Enc(fields, m), Wrote([0]))
  }

  // ---------------------------------------------------------------- C structures

  /** The storage holds a value of its field's C type, and nested sizes fit size_t. */
  ghost predicate ValueShaped(f: Field, v: Value)
    decreases f, 0
  {
    match f.ltype
    case LBytes => v.Blob?
    case LString => v.Blob? && |v.b| <= f.dataSize
    case LFixedLengthBytes => v.Blob? && |v.b| == f.dataSize
    case LSubmessage => v.Msg? && IsStruct(f.sub, v.slots)
    case _ => v.Num?
  }

  ghost predicate ItemsShaped(f: Field, items: seq<Value>)
    decreases f, 1
  {
    && (forall j :: 0 <= j < |items| ==> ValueShaped(f, items[j]))
    && (f.Packable() && EncPacked(f, items).Wrote? ==> |EncPacked(f, items).bytes| < TWO64)
  }

  /** A count above `array_size` has no items behind it, and absent contents may be anything. */
  ghost predicate SlotShaped(f: Field, slot: Slot)
    decreases f, 2
  {
    match f.htype
    case Required => slot.Single? && ValueShaped(f, slot.v)
    case Optional =>
      if f.HasSize() then slot.Flagged? && (slot.has ==> ValueShaped(f, slot.v))
      else slot.Single? && ValueShaped(f, slot.v)
    case Repeated =>
      if f.HasSize() then slot.Many? && (|slot.items| <= f.arraySize ==> ItemsShaped(f, slot.items))
      else slot.Fixed? && |slot.items| == f.arraySize && ItemsShaped(f, slot.items)
    case OneOf => slot.Union? && (slot.which == f.tag ==> ValueShaped(f, slot.v))
  }

  /** The slots are a C structure of the table's type. */
  ghost predicate IsStruct(fields: seq<Field>, slots: seq<Slot>)
    decreases fields, 3
  {
    && |slots| == SlotCount(fields)
    && (Enc(fields, slots).Wrote? ==> |Enc(fields, slots).bytes| < TWO64)
    && forall i :: 0 <= i < |fields| ==> SlotOf(fields, i) < |slots| && SlotShaped(fields[i], slots[SlotOf(fields, i)])
  }

  // ---------------------------------------------------------------- prefixes of an encoding

  /** What the first `n` entries write is a prefix of the whole; when they fail so does the whole. */
  lemma {:induction false} EncToPrefix(fields: seq<Field>, slots: seq<Slot>, n: nat, m: nat)
    requires n <= m <= |fields|
    ensures EncTo(fields, slots, m).Wrote? ==>
              EncTo(fields, slots, n).Wrote? && EncTo(fields, slots, n).bytes <= EncTo(fields, slots, m).bytes
    decreases m
  {
    hide EncField;
    if n < m { EncToPrefix(fields, slots, n, m - 1); }
  }

  lemma {:induction false} EncPackedPrefix(f: Field, items: seq<Value>, n: nat)
    requires n <= |items|
    ensures EncPacked(f, items).Wrote? ==>
              EncPacked(f, items[..n]).Wrote? && EncPacked(f, items[..n]).bytes <= EncPacked(f, items).bytes
    decreases |items|
  {
    hide EncValue;
    if n < |items| {
      EncPackedPrefix(f, items[..|items| - 1], n);
      assert items[..|items| - 1][..n] == items[..n];
    } else {
      assert items[..n] == items;
    }
  }

  lemma {:induction false} EncUnpackedPrefix(f: Field, items: seq<Value>, n: nat)
    requires n <= |items|
    ensures EncUnpacked(f, items).Wrote? ==>
              EncUnpacked(f, items[..n]).Wrote? && EncUnpacked(f, items[..n]).bytes <= EncUnpacked(f, items).bytes
    decreases |items|
  {
    hide EncTagged;
    if n < |items| {
      EncUnpackedPrefix(f, items[..|items| - 1], n);
      assert items[..|items| - 1][..n] == items[..n];
    } else {
      assert items[..n] == items;
    }
  }
}
