/** What the encoder sends, byte by byte, and what it refuses to. */
module Sending {
  import opened Wire
  import opened Varints
  import opened Descriptor
  import opened Encoding
  import opened Integers
  import Packed
  import Presence

  // ---------------------------------------------------------------- values

  /** A string is sent up to its terminator, or whole when it has none in its storage. */
  lemma {:induction false} StringSent(b: Bytes, max: nat)
    ensures var c := CString(b, max);
            && c <= b && |c| <= max && 0 !in c
            && (|c| < max && |c| < |b| ==> b[|c|] == 0)
    decreases |b|
  {
    if b != [] && max > 0 && b[0] != 0 {
      StringSent(b[1..], max - 1);
      var c := CString(b[1..], max - 1);
      Prepended(b, c, CString(b, max));
    }
  }

  lemma Prepended(b: Bytes, c: Bytes, d: Bytes)
    requires b != [] && b[0] != 0 && c <= b[1..] && 0 !in c && d == [b[0]] + c
    ensures d <= b && 0 !in d && (|d| < |b| ==> b[|d|] == b[1..][|c|])
  {
  }

  /** A negative integer is sent in ten bytes whatever its width: its sign is extended to 64 bits. */
  lemma NegativeSent(f: Field, n: int)
    requires f.ltype.LVarint? && IntegerSize(f.dataSize) && -(TWO63 as int) <= n < 0
    ensures EncValue(f, Num(n)) == Wrote(EncVarint(n + TWO64)) && |EncVarint(n + TWO64)| == 10
  {
    FullWord(n);
    var v: nat := n + TWO64;
    VarintAtMostTen(v);
    ShlValues(1);
    hide EncVarint, Shl;
    LongVarint(v, 9);
  }

  lemma {:induction false} LongVarint(v: nat, k: nat)
    requires k <= 9 && v >= Shl(1, 7 * k)
    ensures |EncVarint(v)| >= k + 1
    decreases k
  {
    if k > 0 {
      ShlSeven(1, 7 * (k - 1));
      assert Shl(1, 7 * (k - 1)) >= 1;
      assert v / 128 >= Shl(1, 7 * (k - 1));
      LongVarint(v / 128, k - 1);
    }
  }

  /** A bool is sent as one byte. */
  lemma BoolSent(f: Field, n: int)
    requires f.ltype.LBool?
    ensures EncValue(f, Num(n)) == Wrote([if n == 0 then 0 else 1])
  {
  }

  // ---------------------------------------------------------------- tags and entries

  /** The wire type of each kind of field, as the Protocol Buffers encoding numbers them. */
  function WireNumber(lt: LType): nat {
    match lt
    case LBool => 0
    case LVarint => 0
    case LUVarint => 0
    case LSVarint => 0
    case LFixed64 => 1
    case LBytes => 2
    case LString => 2
    case LSubmessage => 2
    case LFixedLengthBytes => 2
    case LFixed32 => 5
  }

  /** The tag in front of a value is a varint of the field number, shifted by three bits, or the wire type. */
  lemma TagSent(f: Field, v: Value)
    requires EncValue(f, v).Wrote?
    ensures EncTagged(f, v).Wrote?
    ensures exists e: Bytes ::
              && IsVarint(e) && Base128(e) == BitOr(WireNumber(f.ltype), Shl(f.tag, 3))
              && EncTagged(f, v).bytes == e + EncValue(f, v).bytes
  {
    var e := EncTag(f.tag, WireType(f.ltype));
    hide EncValue, Base128, IsVarint, EncVarint, BitOr;
    EncodedIsVarint(8 * f.tag + WireType(f.ltype));
    EightTimes(1);
    EightTimes(f.tag);
    BitOrDisjoint(WireNumber(f.ltype), f.tag, 3);
    assert IsVarint(e) && Base128(e) == BitOr(WireNumber(f.ltype), Shl(f.tag, 3));
  }

  lemma EightTimes(d: nat)
    ensures Shl(d, 3) == 8 * d
  {
    assert Shl(d, 0) == d && Shl(d, 1) == 2 * d && Shl(d, 2) == 4 * d;
  }

  /** What the entries of a table write, one by one. */
  function Entries(fields: seq<Field>, slots: seq<Slot>, n: nat): (r: seq<Bytes>)
    requires n <= |fields| && SlotCount(fields) <= |slots|
    ensures |r| == n
  {
    seq(n, i requires 0 <= i < n =>
      SlotInRange(fields, i);
      var o := EncField(fields[i], slots[SlotOf(fields, i)]);
      if o.Wrote? then o.bytes else [])
  }

  /** A message is what its entries write, in the order of the table and nothing between them. */
  lemma {:induction false} EntriesSent(fields: seq<Field>, slots: seq<Slot>, n: nat)
    requires n <= |fields| && SlotCount(fields) <= |slots| && EncTo(fields, slots, n).Wrote?
    ensures EncTo(fields, slots, n).bytes == Packed.Flat(Entries(fields, slots, n))
    decreases n
  {
    hide EncField, SlotOf;
    if n > 0 {
      EntriesSent(fields, slots, n - 1);
      SlotInRange(fields, n - 1);
      var last := EncField(fields[n - 1], slots[SlotOf(fields, n - 1)]).bytes;
      assert Entries(fields, slots, n) == Entries(fields, slots, n - 1) + [last];
      FlatAppend(Entries(fields, slots, n - 1), last);
    }
  }

  // ---------------------------------------------------------------- arrays

  predicate AllWritten(f: Field, items: seq<Value>) {
    forall i :: 0 <= i < |items| ==> EncValue(f, items[i]).Wrote?
  }

  /** The bytes of each item. */
  function Elements(f: Field, items: seq<Value>): (r: seq<Bytes>)
    requires AllWritten(f, items)
    ensures |r| == |items|
  {
    seq(|items|, i requires 0 <= i < |items| => EncValue(f, items[i]).bytes)
  }

  /** Each element under a tag of its own. */
  function Separately(head: Bytes, elems: seq<Bytes>): seq<Packed.Chunk> {
    seq(|elems|, i requires 0 <= i < |elems| => Packed.Alone(head, elems[i]))
  }

  lemma {:induction false} FlatAppend(elems: seq<Bytes>, e: Bytes)
    ensures Packed.Flat(elems + [e]) == Packed.Flat(elems) + e
    decreases |elems|
  {
    if elems == [] {
      assert elems + [e] == [e];
      assert Packed.Flat([e]) == e + Packed.Flat([]);
    } else {
      assert (elems + [e])[1..] == elems[1..] + [e];
      FlatAppend(elems[1..], e);
    }
  }

  lemma {:induction false} ChunksAppend(chunks: seq<Packed.Chunk>, c: Packed.Chunk)
    ensures Packed.AllBytes(chunks + [c]) == Packed.AllBytes(chunks) + Packed.ChunkBytes(c)
    decreases |chunks|
  {
    hide Packed.ChunkBytes;
    if chunks == [] {
      assert chunks + [c] == [c];
      assert Packed.AllBytes([c]) == Packed.ChunkBytes(c) + Packed.AllBytes([]);
    } else {
      assert (chunks + [c])[1..] == chunks[1..] + [c];
      ChunksAppend(chunks[1..], c);
    }
  }

  lemma {:induction false} PackedSent(f: Field, items: seq<Value>)
    requires AllWritten(f, items)
    ensures EncPacked(f, items) == Wrote(Packed.Flat(Elements(f, items)))
    decreases |items|
  {
    hide EncValue;
    if items != [] {
      var n := |items| - 1;
      PackedSent(f, items[..n]);
      assert Elements(f, items) == Elements(f, items[..n]) + [EncValue(f, items[n]).bytes];
      FlatAppend(Elements(f, items[..n]), EncValue(f, items[n]).bytes);
    }
  }

  lemma {:induction false} UnpackedSent(f: Field, items: seq<Value>)
    requires AllWritten(f, items)
    ensures EncUnpacked(f, items)
         == Wrote(Packed.AllBytes(Separately(EncTag(f.tag, WireType(f.ltype)), Elements(f, items))))
    decreases |items|
  {
    hide EncValue, EncTag;
    if items != [] {
      var n, head := |items| - 1, EncTag(f.tag, WireType(f.ltype));
      var last := EncValue(f, items[n]).bytes;
      UnpackedSent(f, items[..n]);
      assert Elements(f, items) == Elements(f, items[..n]) + [last];
      var before := Separately(head, Elements(f, items[..n]));
      assert Separately(head, Elements(f, items)) == before + [Packed.Alone(head, last)];
      ChunksAppend(before, Packed.Alone(head, last));
    }
  }

  /**
   An array goes out as one packed run of all its items when its type can be packed, and as one tagged item
   after another when it cannot.
   */
  lemma ArraySent(f: Field, items: seq<Value>)
    requires 0 < |items| <= f.arraySize && AllWritten(f, items)
    ensures var es := Elements(f, items);
            EncArray(f, items)
            == Wrote(Packed.AllBytes(
                       if f.Packable() then [Packed.Run(EncTag(f.tag, 2), EncVarint(|Packed.Flat(es)|), es)]
                       else Separately(EncTag(f.tag, WireType(f.ltype)), es)))
  {
    hide EncTag, EncVarint, EncUnpacked, EncPacked;
    if f.Packable() {
      PackedSent(f, items);
      var es := Elements(f, items);
      var run := Packed.Run(EncTag(f.tag, 2), EncVarint(|Packed.Flat(es)|), es);
      ChunksAppend([], run);
      assert [] + [run] == [run];
      assert [] + Packed.ChunkBytes(run) == Packed.ChunkBytes(run);
    } else {
      UnpackedSent(f, items);
    }
  }

  // ---------------------------------------------------------------- what is refused

  predicate ValueSendable(f: Field, v: Value)
    decreases f, 0
  {
    match f.ltype
    case LVarint => f.dataSize in {1, 2, 4, 8}
    case LUVarint => f.dataSize in {1, 2, 4, 8}
    case LSVarint => f.dataSize in {1, 2, 4, 8}
    case LBytes => v.Blob? && |v.b| + 4 <= f.dataSize
    case LSubmessage => v.Msg? && Sendable(f.sub, v.slots)
    case _ => true
  }

  predicate SlotSendable(f: Field, slot: Slot)
    decreases f, 1
  {
    match f.htype
    case Required => slot.Single? && ValueSendable(f, slot.v)
    case Optional =>
      if f.HasSize() then slot.Flagged? && (slot.has ==> ValueSendable(f, slot.v))
      else slot.Single? && (IsZero(f, slot.v) || ValueSendable(f, slot.v))
    case Repeated =>
      (slot.Many? || slot.Fixed?) && |slot.items| <= f.arraySize
      && forall j :: 0 <= j < |slot.items| ==> ValueSendable(f, slot.items[j])
    case OneOf => slot.Union? && (slot.which == f.tag ==> ValueSendable(f, slot.v))
  }

  /** No count exceeds its array, no byte string its storage, and integers have one of the four widths, at any depth. */
  predicate Sendable(fields: seq<Field>, slots: seq<Slot>)
    decreases fields, 2
  {
    forall i :: 0 <= i < |fields| && Presence.InStruct(fields, slots, i) ==>
      SlotSendable(fields[i], slots[SlotOf(fields, i)])
  }

  lemma {:induction false} ValueRefused(f: Field, v: Value)
    requires ValueShaped(f, v)
    ensures EncValue(f, v).Wrote? <==> ValueSendable(f, v)
    decreases f, 0
  {
    if f.ltype.LSubmessage? {
      hide EncTo, IsStruct, Sendable;
      RefusedExactly(f.sub, v.slots);
    }
  }

  lemma {:induction false} ItemsRefused(f: Field, items: seq<Value>)
    requires forall j :: 0 <= j < |items| ==> ValueShaped(f, items[j])
    ensures EncPacked(f, items).Wrote? <==> forall j :: 0 <= j < |items| ==> ValueSendable(f, items[j])
    ensures EncUnpacked(f, items).Wrote? <==> forall j :: 0 <= j < |items| ==> ValueSendable(f, items[j])
    decreases f, 1, |items|
  {
    hide EncValue, ValueShaped, ValueSendable;
    if items != [] {
      var n := |items| - 1;
      ItemsRefused(f, items[..n]);
      ValueRefused(f, items[n]);
    }
  }

  lemma {:induction false} SlotRefused(f: Field, slot: Slot)
    requires SlotShaped(f, slot)
    ensures EncField(f, slot).Wrote? <==> SlotSendable(f, slot)
    decreases f, 2
  {
    hide EncValue, EncPacked, EncUnpacked, ValueShaped, ValueSendable, IsZero;
    if f.htype.Repeated? {
      if |slot.items| <= f.arraySize { ItemsRefused(f, slot.items); }
    } else if ValueShaped(f, slot.v) {
      ValueRefused(f, slot.v);
    }
  }

  /** Encoding a structure succeeds exactly when nothing in it, at any depth, is beyond its storage. */
  lemma {:induction false} RefusedExactly(fields: seq<Field>, slots: seq<Slot>)
    requires IsStruct(fields, slots)
    ensures Enc(fields, slots).Wrote? <==> Sendable(fields, slots)
    decreases fields, 3
  {
    hide EncField, SlotShaped, SlotSendable, EncTo;
    forall i | 0 <= i < |fields|
      ensures Presence.InStruct(fields, slots, i)
      ensures EncField(fields[i], slots[SlotOf(fields, i)]).Wrote?
         <==> SlotSendable(fields[i], slots[SlotOf(fields, i)])
    {
      assert SlotShaped(fields[i], slots[SlotOf(fields, i)]);
      SlotRefused(fields[i], slots[SlotOf(fields, i)]);
    }
    AllWrittenTo(fields, slots, |fields|);
  }

  lemma {:induction false} AllWrittenTo(fields: seq<Field>, slots: seq<Slot>, n: nat)
    requires n <= |fields| && forall i :: 0 <= i < n ==> Presence.InStruct(fields, slots, i)
    ensures EncTo(fields, slots, n).Wrote?
       <==> forall i :: 0 <= i < n && Presence.InStruct(fields, slots, i) ==>
              EncField(fields[i], slots[SlotOf(fields, i)]).Wrote?
    decreases n
  {
    hide EncField;
    if n > 0 {
      assert Presence.InStruct(fields, slots, n - 1);
      AllWrittenTo(fields, slots, n - 1);
    }
  }
}
