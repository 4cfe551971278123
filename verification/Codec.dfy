/** Encoder and decoder together: what one writes into a buffer the other reads back. */
module Codec {
  import opened Wire
  import opened Descriptor
  import opened Encoding
  import opened Decoding
  import opened RoundTrip
  import opened Encoder
  import opened Decoder
  import Presence

  /** A value that round-trips is a C value. */
  lemma {:induction false} ValueOkShaped(f: Field, v: Value)
    requires FieldOk(f) && ValueOk(f, v)
    ensures ValueShaped(f, v)
    decreases f, 0
  {
    if f.ltype.LSubmessage? {
      MessageOkIsStruct(f.sub, v.slots);
    }
  }

  lemma {:induction false} SlotOkShaped(f: Field, slot: Slot)
    requires FieldOk(f) && SlotOk(f, slot)
    ensures SlotShaped(f, slot)
    decreases f, 1
  {
    hide ValueOk, ValueShaped, FieldOk, EncPacked;
    if f.htype.Repeated? {
      forall j | 0 <= j < |slot.items|
        ensures ValueShaped(f, slot.items[j])
      {
        ValueOkShaped(f, slot.items[j]);
      }
      UnpackableSize(f, slot.items);
    } else if !(slot.Flagged? && !slot.has) && !(slot.Union? && slot.which != f.tag) {
      ValueOkShaped(f, slot.v);
    }
  }

  /** The size of a packed run matters only to fields that are packed. */
  lemma UnpackableSize(f: Field, items: seq<Value>)
    requires ItemsOk(f, items)
    ensures f.Packable() ==> |EncPacked(f, items).bytes| < TWO64
  {
  }

  lemma {:induction false} MessageOkIsStruct(fields: seq<Field>, m: seq<Slot>)
    requires TableOk(fields) && MessageOk(fields, m) && (Enc(fields, m).Wrote? ==> |Enc(fields, m).bytes| < TWO64)
    ensures IsStruct(fields, m)
    decreases fields, 2
  {
    hide SlotOk, SlotShaped, FieldOk, EncTo;
    forall i | 0 <= i < |fields|
      ensures SlotOf(fields, i) < |m| && SlotShaped(fields[i], m[SlotOf(fields, i)])
    {
      assert Presence.InStruct(fields, m, i);
      SlotOkShaped(fields[i], m[SlotOf(fields, i)]);
    }
  }

  /**
   A message encoded into a buffer and decoded from it, over any previous contents of the destination:
   writing succeeds exactly when the message fits, and then reading always succeeds and gives it back.
   */
  method EncodeThenDecode(buf: array<Byte>, fields: seq<Field>, m: seq<Slot>, dest: Struct)
    returns (written: bool, length: nat, ok: bool)
    requires TableOk(fields) && MessageOk(fields, m)
    requires Enc(fields, m).Wrote? ==> |Enc(fields, m).bytes| < TWO64
    modifies buf, dest
    ensures written <==> Enc(fields, m).Wrote? && |Enc(fields, m).bytes| <= buf.Length
    ensures written ==> ok && length == |Enc(fields, m).bytes| && SameMessage(fields, m, dest.slots)
  {
    hide Enc, Dec, MessageOk, SameMessage, TableOk, IsStruct, Defaults, IStream.Rest;
    MessageOkIsStruct(fields, m);
    DecodeOfEncode(fields, m, dest.slots);
    var out := new OStream.FromBuffer(buf);
    written := Encode(out, fields, m);
    length, ok := out.written, false;
    if written {
      assert buf[..length] == Enc(fields, m).bytes;
      var input := new IStream.FromBuffer(buf, length);
      ok := Decode(input, fields, dest);
    }
  }

  /**
   A delimited message in a buffer with anything behind it: it is written exactly when it fits, read back,
   and the input stream stands exactly at its end.
   */
  method DelimitedThenDecode(buf: array<Byte>, fields: seq<Field>, m: seq<Slot>, dest: Struct)
    returns (written: bool, length: nat, ok: bool, next: nat)
    requires TableOk(fields) && MessageOk(fields, m) && LengthFits(Enc(fields, m))
    modifies buf, dest
    ensures EncDelimited(fields, m).Wrote? && (written <==> |EncDelimited(fields, m).bytes| <= buf.Length)
    ensures written ==> length == |EncDelimited(fields, m).bytes|
    ensures written ==> ok && next == length && SameMessage(fields, m, dest.slots)
  {
    hide EncTo, Dec, MessageOk, SameMessage, TableOk, IsStruct, Defaults, EncString, DecDelimited;
    hide IStream.Rest;
    MessageOkIsStruct(fields, m);
    DelimitedFrames(fields, m, dest.slots, []);
    var out := new OStream.FromBuffer(buf);
    written := EncodeDelimited(out, fields, m);
    length, ok, next := out.written, false, 0;
    if written {
      var input := new IStream.FromBuffer(buf, buf.Length);
      ghost var e, behind := EncDelimited(fields, m).bytes, buf[length..];
      assert buf[..] == e + behind;
      assert buf[..buf.Length] == buf[..];
      DelimitedFrames(fields, m, dest.slots, behind);
      ok := DecodeDelimited(input, fields, dest);
      next := input.state;
      assert |behind| == buf.Length - length;
    }
  }
}
