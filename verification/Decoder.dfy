/**
 The decoder as it runs: an input stream with a cursor, and the methods of pb_decode.c that consume it
 and update the destination structure. Every method is proved to accept, return and leave exactly what
 the functions of module Decoding say.
 */
module Decoder {
  import opened Wire
  import opened Descriptor
  import opened Decoding
  import opened Iterator
  import opened Layout
  import opened RequiredMask
  import Encoding
  import Integers
  import Varints
  import Presence
  import RoundTrip

  // ---------------------------------------------------------------- input streams

  /** pb_istream_t over a buffer: the cursor and the number of bytes left. */
  class IStream {
    const buf: array<Byte>
    var state: nat
    var left: nat

    ghost predicate Valid()
      reads this
    {
      state + left <= buf.Length
    }

    /** The bytes still to be read. */
    ghost function Rest(): (r: Bytes)
      requires Valid()
      reads this, buf
      ensures |r| == left
    {
      buf[state..state + left]
    }

    /** Where the stream ends in the buffer. */
    ghost function End(): nat
      reads this
    {
      state + left
    }

    /** pb_istream_from_buffer. */
    constructor FromBuffer(b: array<Byte>, size: nat)
      requires size <= b.Length
      ensures Valid() && buf == b && Rest() == b[..size] && End() == size
    {
      buf, state, left := b, 0, size;
    }

    /** A substream: the same buffer and cursor, fewer bytes. */
    constructor Sub(b: array<Byte>, at: nat, size: nat)
      requires at + size <= b.Length
      ensures Valid() && buf == b && state == at && left == size
    {
      buf, state, left := b, at, size;
    }

    /** pb_readbyte. */
    method ReadByte() returns (ok: bool, b: Byte)
      requires Valid()
      modifies this
      ensures Valid() && End() == old(End())
      ensures ok == (old(left) > 0)
      ensures ok ==> b == old(Rest())[0] && Rest() == old(Rest())[1..] && left == old(left) - 1
      ensures !ok ==> state == old(state) && left == old(left)
    {
      if left == 0 {
        return false, 0;
      }
      b := buf[state];
      state, left := state + 1, left - 1;
      ok := true;
    }

    /** pb_read. */
    method Read(count: nat) returns (ok: bool, data: Bytes)
      requires Valid()
      modifies this
      ensures Parsed(this, old(End()), Take(old(Rest()), count), ok, data)
    {
      if left < count {
        return false, [];
      }
      SliceSplit(buf[..], state, left, count);
      data := buf[state..state + count];
      state, left := state + count, left - count;
      ok := true;
    }
  }

  /** Splitting a slice of the buffer. */
  lemma SliceSplit(b: Bytes, at: nat, n: nat, count: nat)
    requires at + n <= |b| && count <= n
    ensures b[at..at + n][..count] == b[at..at + count]
    ensures b[at..at + n][count..] == b[at + count..at + n]
  {
  }

  /**
   What a call that parses the bytes left does: it succeeds exactly when the parse does, returns its
   value, and leaves its rest, so that cursor plus bytes left is still the end of the stream; a failed
   call may have consumed bytes, but never moves the end outwards.
   */
  ghost predicate Parsed<T>(st: IStream, end: nat, r: Parse<T>, ok: bool, v: T)
    reads st, st.buf
  {
    && st.Valid() && st.End() <= end && (ok <==> r.Done?)
    && (ok ==> v == r.value && st.Rest() == r.rest && st.End() == end)
  }

  // ---------------------------------------------------------------- varints

  /** pb_decode_varint32_eof. End of stream is reported only before the first byte. */
  method DecodeVarint32(st: IStream) returns (ok: bool, result: nat, eof: bool)
    requires st.Valid()
    modifies st
    ensures Parsed(st, old(st.End()), Dec32(old(st.Rest())), ok, result)
    ensures eof <==> old(st.Rest()) == []
  {
    hide IStream.Rest;
    hide Digit32;
    ghost var s, end := st.Rest(), st.End();
    result, eof := 0, false;
    var byte;
    ok, byte := st.ReadByte();
    if !ok {
      return false, 0, true;
    }
    if byte < 0x80 {
      return true, byte, false;
    }
    var bitpos: nat := 7;
    result := byte % 0x80;
    var more := true;
    while more
      invariant st.Valid() && st.End() == end
      invariant more ==> Dec32(s) == Dec32Loop(st.Rest(), bitpos, result)
      invariant !more ==> Dec32(s) == if bitpos == 35 && (byte / 16) % 8 != 0 then Fail else Done(result, st.Rest())
      decreases more, st.left
    {
      ok, byte := st.ReadByte();
      if !ok {
        return false, 0, false;
      }
      if bitpos >= 32 {
        var signExtension := if bitpos < 63 then 0xFF else 0x01;
        if byte % 0x80 != 0 && (result < TWO31 || byte != signExtension) {
          return false, 0, false;
        }
      }
      result := Digit32(result, byte % 0x80, bitpos);
      bitpos := (bitpos + 7) % 256;
      more := byte >= 0x80;
    }
    if bitpos == 35 && (byte / 16) % 8 != 0 {
      return false, 0, false;
    }
    ok := true;
  }

  /** pb_decode_varint. */
  method DecodeVarint(st: IStream) returns (ok: bool, result: nat)
    requires st.Valid()
    modifies st
    ensures Parsed(st, old(st.End()), Dec64(old(st.Rest())), ok, result)
  {
    hide IStream.Rest;
    hide Digit64;
    ghost var s, end := st.Rest(), st.End();
    var bitpos: nat := 0;
    result := 0;
    var more := true;
    while more
      invariant st.Valid() && st.End() == end
      invariant more ==> Dec64(s) == Dec64Loop(st.Rest(), bitpos, result)
      invariant !more ==> Dec64(s) == Done(result, st.Rest())
      decreases more, st.left
    {
      if bitpos >= 64 {
        return false, 0;
      }
      var byte;
      ok, byte := st.ReadByte();
      if !ok {
        return false, 0;
      }
      result := Digit64(result, byte % 0x80, bitpos);
      bitpos := bitpos + 7;
      more := byte >= 0x80;
    }
    ok := true;
  }

  // ---------------------------------------------------------------- tags, skipping, substreams

  /** pb_skip_varint. */
  method SkipAVarint(st: IStream) returns (ok: bool)
    requires st.Valid()
    modifies st
    ensures Parsed(st, old(st.End()), SkipVarint(old(st.Rest())), ok, ())
  {
    ghost var s, end := st.Rest(), st.End();
    var more := true;
    while more
      invariant st.Valid() && st.End() == end
      invariant SkipVarint(s) == if more then SkipVarint(st.Rest()) else Done((), st.Rest())
      decreases more, st.left
    {
      var byte;
      ok, byte := st.ReadByte();
      if !ok {
        return;
      }
      more := byte >= 0x80;
    }
    ok := true;
  }

  /** pb_skip_string. */
  method SkipString(st: IStream) returns (ok: bool)
    requires st.Valid()
    modifies st
    ensures Parsed(st, old(st.End()), Skip(Encoding.WT_STRING, old(st.Rest())), ok, ())
  {
    hide IStream.Rest;
    hide Dec32;
    var length, eof;
    ok, length, eof := DecodeVarint32(st);
    if ok {
      var data;
      ok, data := st.Read(length);
    }
  }

  /** pb_skip_field. */
  method SkipField(st: IStream, wt: nat) returns (ok: bool)
    requires st.Valid()
    modifies st
    ensures Parsed(st, old(st.End()), Skip(wt, old(st.Rest())), ok, ())
  {
    hide IStream.Rest;
    hide Dec32, SkipVarint;
    var data;
    if wt == Encoding.WT_VARINT {
      ok := SkipAVarint(st);
    } else if wt == Encoding.WT_64BIT {
      ok, data := st.Read(8);
    } else if wt == Encoding.WT_STRING {
      ok := SkipString(st);
    } else if wt == Encoding.WT_32BIT {
      ok, data := st.Read(4);
    } else {
      ok := false;
    }
  }

  /** pb_decode_tag. A zero word counts as the end of the message. */
  method DecodeTag(st: IStream) returns (ok: bool, wireType: nat, tag: nat, eof: bool)
    requires st.Valid()
    modifies st
    ensures st.Valid() && st.End() <= old(st.End())
    ensures ok || (eof && old(st.Rest()) != []) ==> st.End() == old(st.End())
    ensures old(st.Rest()) == [] ==> !ok && eof
    ensures old(st.Rest()) != [] ==>
              match DecTag(old(st.Rest()))
              case BadTag => !ok && !eof
              case EndTag(rest) => !ok && eof && st.Rest() == rest
              case Tag(w, t, rest) => ok && wireType == w && tag == t && st.Rest() == rest
  {
    hide IStream.Rest;
    hide Dec32;
    var temp;
    ok, temp, eof := DecodeVarint32(st);
    wireType, tag := 0, 0;
    if !ok {
      return;
    }
    if temp == 0 {
      eof := true;
      return false, wireType, tag, eof;
    }
    tag, wireType := temp / 8, temp % 8;
  }

  /** pb_make_string_substream: the parent gives up the bytes of the substream, but not yet its cursor. */
  method MakeSubstream(st: IStream) returns (ok: bool, sub: IStream)
    requires st.Valid()
    modifies st
    ensures st.Valid() && st.End() <= old(st.End()) && (ok <==> Delimited(old(st.Rest())).Done?)
    ensures ok ==> fresh(sub) && sub.buf == st.buf && sub.Valid()
    ensures ok ==> sub.Rest() == Delimited(old(st.Rest())).value && sub.state == st.state
    ensures ok ==> sub.End() + st.left == old(st.End())
    ensures ok ==> st.buf[sub.End()..sub.End() + st.left] == Delimited(old(st.Rest())).rest
  {
    hide Dec32;
    var size, eof;
    ok, size, eof := DecodeVarint32(st);
    sub := st;
    if !ok {
      return;
    }
    assert Delimited(old(st.Rest())) == Take(st.Rest(), size);
    hide Delimited;
    if st.left < size {
      return false, sub;
    }
    SliceSplit(st.buf[..], st.state, st.left, size);
    sub := new IStream.Sub(st.buf, st.state, size);
    st.left := st.left - size;
  }

  /** pb_close_string_substream: skip what is left of the substream, and move the parent past it. */
  method CloseSubstream(st: IStream, sub: IStream) returns (ok: bool)
    requires st != sub && sub.buf == st.buf && sub.Valid() && sub.End() + st.left <= st.buf.Length
    modifies st, sub
    ensures ok && st.Valid() && st.state == old(sub.End()) && st.left == old(st.left)
    ensures st.Rest() == st.buf[st.state..st.state + st.left]
  {
    if sub.left > 0 {
      var data;
      ok, data := sub.Read(sub.left);
    }
    st.state := sub.state;
    ok := true;
  }

  // ---------------------------------------------------------------- values

  /** A structure being decoded into. */
  class Struct {
    var slots: seq<Slot>

    constructor (s: seq<Slot>)
      ensures slots == s
    {
      slots := s;
    }
  }

  /** pb_dec_varint, pb_dec_uvarint and pb_dec_svarint. */
  method DecodeInteger(st: IStream, f: Field) returns (ok: bool, v: Value)
    requires st.Valid() && Integers.IsInteger(f.ltype)
    modifies st
    ensures Parsed(st, old(st.End()), DecValue(f, Num(0), old(st.Rest())), ok, v)
    ensures ok ==> v.Num? && Integers.Denotes(f.ltype, f.dataSize, Dec64(old(st.Rest())).value, v.n)
    ensures !ok && Dec64(old(st.Rest())).Done? ==>
              forall n: int :: !Integers.Denotes(f.ltype, f.dataSize, Dec64(old(st.Rest())).value, n)
  {
    hide IStream.Rest;
    hide Dec64;
    var value;
    v := Num(0);
    ok, value := DecodeVarint(st);
    if ok {
      var n;
      ok, n := NarrowInteger(f, value);
      v := Num(n);
      ghost var s := old(st.Rest());
      Varints.Dec64Below(s);
      hide Integers.Denotes, Integer;
      forall k: int
        ensures Integer(f.ltype, f.dataSize, value) == Some(k) <==> Integers.Denotes(f.ltype, f.dataSize, value, k)
      {
        Integers.AcceptedIntegers(f.ltype, f.dataSize, value, k);
      }
    }
  }

  /** The casts of a varint to the field's type and size, and the checks that they lost nothing. */
  method NarrowInteger(f: Field, value: nat) returns (ok: bool, n: int)
    requires Integers.IsInteger(f.ltype)
    ensures Integer(f.ltype, f.dataSize, value) == if ok then Some(n) else None
  {
    if !Encoding.IntegerSize(f.dataSize) {
      return false, 0;
    }
    if f.ltype.LUVarint? {
      n := value % Modulus(f.dataSize);
      return n == value, n;
    }
    var svalue;
    if f.ltype.LVarint? {
      svalue := ToSigned(value, if f.dataSize == 8 then 8 else 4);
    } else if value % 2 == 1 {
      svalue := ToSigned((TWO64 - 1 - value / 2) % TWO64, 8);
    } else {
      svalue := ToSigned(value / 2, 8);
    }
    n := ToSigned(svalue % TWO64, f.dataSize);
    return n == svalue, n;
  }

  /** pb_dec_bytes, pb_dec_string and pb_dec_fixed_length_bytes. */
  method DecodeBlob(st: IStream, f: Field) returns (ok: bool, v: Value)
    requires st.Valid() && (f.ltype.LBytes? || f.ltype.LString? || f.ltype.LFixedLengthBytes?)
    modifies st
    ensures Parsed(st, old(st.End()), DecValue(f, Num(0), old(st.Rest())), ok, v)
  {
    hide IStream.Rest;
    hide Dec32;
    var size, eof;
    v := Blob([]);
    ok, size, eof := DecodeVarint32(st);
    if !ok {
      return;
    }
    if f.ltype.LBytes? {
      if size + BYTES_OFFSET > f.dataSize {
        return false, v;
      }
    } else if f.ltype.LString? {
      var allocSize := (size + 1) % TWO32;
      if allocSize < size || size + 1 > f.dataSize {
        return false, v;
      }
    } else {
      if size == 0 {
        return true, Blob(seq(f.dataSize, _ => 0));
      }
      if size != f.dataSize {
        return false, v;
      }
    }
    var data;
    ok, data := st.Read(size);
    v := Blob(data);
  }

  /** pb_dec_bool, pb_dec_fixed32 and pb_dec_fixed64. */
  method DecodeWord(st: IStream, f: Field) returns (ok: bool, v: Value)
    requires st.Valid() && (f.ltype.LBool? || f.ltype.LFixed32? || f.ltype.LFixed64?)
    modifies st
    ensures Parsed(st, old(st.End()), DecValue(f, Num(0), old(st.Rest())), ok, v)
  {
    hide IStream.Rest;
    hide Dec32;
    v := Num(0);
    if f.ltype.LBool? {
      var value, eof;
      ok, value, eof := DecodeVarint32(st);
      v := Num(if value != 0 then 1 else 0);
    } else {
      var bytes;
      ok, bytes := st.Read(if f.ltype.LFixed32? then 4 else 8);
      v := Num(FromLittleEndian(bytes));
    }
  }

  /** The pb_dec_* functions. */
  method DecodeValue(st: IStream, f: Field, prev: Value) returns (ok: bool, v: Value)
    requires st.Valid() && FieldOk(f) && Target(f, prev)
    modifies st
    ensures Parsed(st, old(st.End()), DecValue(f, prev, old(st.Rest())), ok, v)
    decreases f, 0
  {
    hide IStream.Rest;
    hide DecValue, FieldOk;
    if f.ltype.LSubmessage? {
      ok, v := DecodeSubmessage(st, f, prev);
      return;
    }
    StorageIrrelevant(f, prev, st.Rest());
    if Integers.IsInteger(f.ltype) {
      ok, v := DecodeInteger(st, f);
    } else if f.Packable() {
      ok, v := DecodeWord(st, f);
    } else {
      ok, v := DecodeBlob(st, f);
    }
  }

  /** What a submessage field makes of the bytes. */
  lemma SubmessageParse(f: Field, prev: Value, s: Bytes)
    requires f.ltype.LSubmessage? && (!f.htype.Repeated? ==> prev.Msg?)
    ensures DecValue(f, prev, s)
         == match Delimited(s)
            case Fail => Fail
            case Done(body, rest) =>
              var slots := if prev.Msg? then prev.slots else [];
              var r := if f.htype.Repeated? then Dec(f.sub, slots, body) else DecMessage(f.sub, slots, body);
              if r.Fail? then Fail else Done(Msg(r.value), rest)
  {
    hide DecMessage, Delimited, DefaultsTo;
  }

  /**
   pb_dec_submessage: decode in a substream of the given length, into storage reset first when the field
   is repeated; however little of it the nested decoder reads, the parent goes on after all of it.
   */
  method DecodeSubmessage(st: IStream, f: Field, prev: Value) returns (ok: bool, v: Value)
    requires st.Valid() && FieldOk(f) && Target(f, prev) && f.ltype.LSubmessage?
    modifies st
    ensures Parsed(st, old(st.End()), DecValue(f, prev, old(st.Rest())), ok, v)
    decreases f.sub, 9
  {
    hide IStream.Rest;
    hide DecMessage, Dec, DecValue, Laid, TableOk, Delimited, DefaultsTo;
    v := prev;
    ghost var s := st.Rest();
    SubmessageParse(f, prev, s);
    var substream;
    ok, substream := MakeSubstream(st);
    if !ok {
      return;
    }
    ghost var tail, left := st.buf[substream.End()..substream.End() + st.left], st.left;
    var dest := new Struct(if prev.Msg? then prev.slots else []);
    var status;
    if f.htype.Repeated? {
      status := Decode(substream, f.sub, dest);
    } else {
      status := DecodeNoInit(substream, f.sub, dest);
    }
    v := Msg(dest.slots);
    assert st.left == left;
    ok := CloseSubstream(st, substream);
    ok := status;
    assert ok ==> st.Rest() == tail;
  }

  // ---------------------------------------------------------------- fields

  /** The loop over a packed array. */
  method DecodePackedItems(substream: IStream, f: Field, cur: seq<Value>) returns (status: bool, items: seq<Value>)
    requires substream.Valid() && FieldOk(f) && f.Packable()
    modifies substream
    ensures Parsed(substream, old(substream.End()), DecPacked(f, cur, old(substream.Rest())), status, items)
    decreases f, 1
  {
    hide IStream.Rest;
    hide DecValue, FieldOk, Target;
    ghost var body, end := substream.Rest(), substream.End();
    status, items := true, cur;
    while status && substream.left > 0 && |items| < f.arraySize
      invariant substream.Valid() && substream.End() <= end && (status ==> substream.End() == end)
      invariant DecPacked(f, cur, body) == if status then DecPacked(f, items, substream.Rest()) else Fail
      decreases status, f.arraySize - |items|
    {
      var v;
      PackableTarget(f);
      assert substream.Rest() != [];
      status, v := DecodeValue(substream, f, DefaultValue(f, Num(0)));
      if status {
        items := items + [v];
      }
    }
    assert substream.left == 0 ==> substream.Rest() == [];
  }

  /** The part of decode_static_field for repeated fields: `cur` is what was received, `prev` the next entry. */
  method DecodeRepeated(st: IStream, wt: nat, f: Field, cur: seq<Value>, prev: Value)
    returns (ok: bool, items: seq<Value>)
    requires st.Valid() && FieldOk(f) && Target(f, prev)
    modifies st
    ensures Parsed(st, old(st.End()), DecRepeated(f, wt, cur, prev, old(st.Rest())), ok, items)
    decreases f, 2, 0
  {
    hide IStream.Rest;
    hide DecValue, Delimited, FieldOk, Target, DecPacked;
    items := cur;
    if wt == Encoding.WT_STRING && f.Packable() {
      var substream;
      ok, substream := MakeSubstream(st);
      if !ok {
        return;
      }
      var status;
      status, items := DecodePackedItems(substream, f, cur);
      if !status || substream.left != 0 {
        return false, items;
      }
      assert substream.Rest() == [];
      ok := CloseSubstream(st, substream);
    } else {
      if |cur| >= f.arraySize {
        return false, items;
      }
      var v;
      ok, v := DecodeValue(st, f, prev);
      items := cur + [v];
    }
  }

  lemma PackableTarget(f: Field)
    requires f.Packable()
    ensures Target(f, DefaultValue(f, Num(0)))
  {
  }

  /** decode_static_field for required, optional and oneof fields, after pb_release_union_field. */
  method DecodeSingle(st: IStream, iter: FieldIter, slot: Slot) returns (ok: bool, r: Slot)
    requires st.Valid() && iter.Valid() && TableOk(iter.start) && iter.start != []
    requires !iter.start[iter.pos].htype.Repeated? && SlotLaid(iter.start[iter.pos], slot)
    modifies st, iter
    ensures iter.Valid() && (ok ==> iter.pos == old(iter.pos))
    ensures Parsed(st, old(st.End()),
                   DecSingle(iter.start, iter.start[old(iter.pos)], slot, old(st.Rest())), ok, r)
    decreases iter.start, 2
  {
    hide IStream.Rest;
    hide DecValue, FieldOk, DefaultValue, Laid;
    var fields, f, i := iter.start, iter.start[iter.pos], iter.pos;
    assert FieldOk(f);
    ClearedLaid(f);
    r := slot;
    var v;
    if f.htype.OneOf? {
      if slot.which != 0 && slot.which != f.tag {
        ghost var steps;
        FindAgrees(fields, slot.which);
        ok, steps := iter.Find(slot.which);
        if !ok {
          return;
        }
        // nothing to release in static storage: step back to the field
        ok, steps := iter.Find(f.tag);
        LookupUnique(fields, i);
        LookupUnique(fields, iter.pos);
      }
      ok, v := DecodeValue(st, f, Cleared(f));
      r := Union(f.tag, v);
    } else {
      ok, v := DecodeValue(st, f, slot.v);
      r := if f.htype.Required? || !f.HasSize() then Single(v) else Flagged(true, v);
    }
  }

  /** The iterator's search and the first match of the table. */
  lemma FindAgrees(fields: seq<Field>, tag: nat)
    ensures Lookup(fields, tag) < |fields| <==> exists i :: 0 <= i < |fields| && fields[i].tag == tag
  {
  }

  // ---------------------------------------------------------------- messages

  /** What a repeated field makes of the bytes, given its storage and the running count of a fixed-count array. */
  ghost function ArrayParse(f: Field, wt: nat, slot: Slot, count: nat, s: Bytes): (r: Parse<seq<Value>>)
    requires f.htype.Repeated? && SlotLaid(f, slot) && (f.FixedCount() ==> count <= f.arraySize)
    ensures r.Done? && f.FixedCount() ==> |r.value| <= f.arraySize
  {
    var items := slot.items;
    if f.FixedCount() then DecRepeated(f, wt, items[..count], if count < |items| then items[count] else Num(0), s)
    else DecRepeated(f, wt, items, DefaultValue(f, Num(0)), s)
  }

  /** Its storage afterwards. */
  ghost function ArrayStored(f: Field, slot: Slot, received: seq<Value>): Slot
    requires f.htype.Repeated? && SlotLaid(f, slot) && (f.FixedCount() ==> |received| <= f.arraySize)
  {
    if f.FixedCount() then Fixed(received + slot.items[|received|..]) else Many(received)
  }

  /** decode_field in terms of the parse of an array. */
  lemma FieldOfArray(fields: seq<Field>, i: nat, p: Progress, wt: nat, count: nat, s: Bytes)
    requires i < |fields| && fields[i].htype.Repeated? && Presence.InStruct(fields, p.slots, i)
    requires SlotLaid(fields[i], p.slots[SlotOf(fields, i)]) && CountFits(fields, p)
    requires fields[i].FixedCount() ==>
               (p.fixedField == i || FixedDone(fields, p)) && count == if p.fixedField == i then p.fixedCount else 0
    ensures var f, k := fields[i], SlotOf(fields, i);
            var a := ArrayParse(f, wt, p.slots[k], count, s);
            var r := DecField(fields, i, p, wt, s);
            && (r.Done? <==> a.Done?)
            && (a.Done? ==> r.rest == a.rest && r.value.slots == p.slots[k := ArrayStored(f, p.slots[k], a.value)])
            && (a.Done? && f.FixedCount() ==> r.value.fixedCount == |a.value|)
  {
    hide DecRepeated, DefaultValue;
  }

  /** decode_field in terms of the parse of a single value. */
  lemma FieldOfSingle(fields: seq<Field>, i: nat, p: Progress, wt: nat, s: Bytes)
    requires i < |fields| && !fields[i].htype.Repeated? && Presence.InStruct(fields, p.slots, i)
    ensures var f, k := fields[i], SlotOf(fields, i);
            var a := DecSingle(fields, f, p.slots[k], s);
            var r := DecField(fields, i, p, wt, s);
            && (r.Done? <==> a.Done?)
            && (a.Done? ==> r.rest == a.rest && r.value.slots == p.slots[k := a.value])
  {
    hide DecSingle;
  }

  /** A repeated field of a structure: `count` is the running count of a fixed-count array. */
  method DecodeArray(st: IStream, wt: nat, f: Field, slot: Slot, count: nat) returns (ok: bool, r: Slot, newCount: nat)
    requires st.Valid() && FieldOk(f) && f.htype.Repeated? && SlotLaid(f, slot)
    requires f.FixedCount() ==> count <= f.arraySize
    modifies st
    ensures st.Valid() && st.End() <= old(st.End())
    ensures var p := ArrayParse(f, wt, slot, count, old(st.Rest()));
            && (ok <==> p.Done?)
            && (ok ==> st.Rest() == p.rest && st.End() == old(st.End()))
            && (ok ==> newCount == |p.value| && r == ArrayStored(f, slot, p.value))
    decreases f, 3
  {
    hide IStream.Rest;
    hide DecRepeated, FieldOk, DefaultValue;
    var items := slot.items;
    var prev := if !f.FixedCount() then DefaultValue(f, Num(0)) else if count < |items| then items[count] else Num(0);
    var received;
    ok, received := DecodeRepeated(st, wt, f, if f.FixedCount() then items[..count] else items, prev);
    r, newCount := slot, |received|;
    if ok {
      r := if f.FixedCount() then Fixed(received + items[|received|..]) else Many(received);
    }
  }

  /** Any entry of a structure that is laid out. */
  lemma LaidAt(fields: seq<Field>, slots: seq<Slot>, i: nat)
    requires TableOk(fields) && Laid(fields, slots) && i < |fields|
    ensures FieldOk(fields[i]) && Presence.InStruct(fields, slots, i) && SlotOf(fields, i) < |slots|
    ensures SlotLaid(fields[i], slots[SlotOf(fields, i)])
  {
    assert Presence.InStruct(fields, slots, i);
  }

  /** The running count of an entry stays within the array. */
  lemma CountInside(fields: seq<Field>, i: nat, p: Progress, count: nat)
    requires i < |fields| && CountFits(fields, p) && count == if p.fixedField == i then p.fixedCount else 0
    ensures count <= fields[i].arraySize
  {
  }

  /** decode_field on the entry under the iterator. */
  method DecodeField(st: IStream, wt: nat, iter: FieldIter, dest: Struct, count: nat, ghost p: Progress)
    returns (ok: bool, newCount: nat)
    requires st.Valid() && iter.Valid() && TableOk(iter.start) && iter.start != []
    requires Laid(iter.start, p.slots) && CountFits(iter.start, p) && dest.slots == p.slots
    requires iter.start[iter.pos].FixedCount() ==>
               (p.fixedField == iter.pos || FixedDone(iter.start, p))
               && count == if p.fixedField == iter.pos then p.fixedCount else 0
    modifies st, iter, dest
    ensures st.Valid() && st.End() <= old(st.End()) && iter.Valid() && (ok ==> iter.pos == old(iter.pos))
    ensures var r := DecField(iter.start, old(iter.pos), p, wt, old(st.Rest()));
            && (ok <==> r.Done?)
            && (ok ==> dest.slots == r.value.slots && st.Rest() == r.rest && st.End() == old(st.End()))
            && (ok && iter.start[old(iter.pos)].FixedCount() ==> newCount == r.value.fixedCount)
    decreases iter.start, 3
  {
    hide IStream.Rest;
    hide DecField, ArrayParse, ArrayStored, DecSingle, FieldOk, TableOk, Laid, SlotLaid, SlotOf, FixedDone, CountFits;
    var fields, f, k := iter.start, iter.start[iter.pos], SlotOf(iter.start, iter.pos);
    CountInside(fields, iter.pos, p, if p.fixedField == iter.pos then p.fixedCount else 0);
    LaidAt(fields, dest.slots, iter.pos);
    newCount := count;
    var slot;
    if f.htype.Repeated? {
      FieldOfArray(fields, iter.pos, p, wt, count, st.Rest());
      ok, slot, newCount := DecodeArray(st, wt, f, dest.slots[k], count);
    } else {
      FieldOfSingle(fields, iter.pos, p, wt, st.Rest());
      ok, slot := DecodeSingle(st, iter, dest.slots[k]);
    }
    if ok {
      dest.slots := dest.slots[k := slot];
    }
  }

  /** Seeking on to the end of the table counts its required fields, wherever the iterator stood. */
  method CountRequired(iter: FieldIter) returns (count: nat)
    requires iter.Valid()
    modifies iter
    ensures count == RequiredBefore(iter.start, |iter.start|)
  {
    if iter.start == [] {
      return 0;
    }
    var more, lastRequired := true, false;
    count := 0;
    ghost var at := iter.pos;
    while more
      invariant iter.Valid() && at <= |iter.start|
      invariant more ==> at == iter.pos
      invariant !more ==> at == |iter.start|
      invariant !more ==> count + (if lastRequired then 1 else 0) == RequiredBefore(iter.start, at)
      decreases |iter.start| - at
    {
      count := iter.requiredIndex;
      lastRequired := iter.start[iter.pos].htype.Required?;
      more := iter.Next();
      at := at + 1;
    }
    if lastRequired {
      count := count + 1;
    }
  }

  /** The number of required fields the mask has room for. */
  ghost function Tracked(fields: seq<Field>): (n: nat)
    ensures n <= MAX_REQUIRED
  {
    var all := RequiredBefore(fields, |fields|);
    if all <= MAX_REQUIRED then all else MAX_REQUIRED
  }

  /** The variables of the field loop hold the progress `p`. */
  ghost predicate Tracks(
      iter: FieldIter, dest: Struct, fixedField: int, fixedCount: nat, fieldsSeen: array<nat>, p: Progress)
    reads iter, dest, fieldsSeen
  {
    && fieldsSeen.Length == 2 && iter.Valid() && dest.slots == p.slots
    && fixedField == p.fixedField && fixedCount == p.fixedCount
    && -1 <= fixedField < |iter.start| && Stands(fieldsSeen[..], p.seen, Tracked(iter.start))
    && Laid(iter.start, p.slots) && CountFits(iter.start, p)
  }

  /** The loop in terms of its first tag. */
  lemma LoopTurn(fields: seq<Field>, p: Progress, s: Bytes)
    requires s != []
    ensures DecTag(s).BadTag? ==> DecLoop(fields, p, s) == LoopFail
    ensures DecTag(s).EndTag? ==> DecLoop(fields, p, s) == Stopped(p, DecTag(s).rest)
    ensures DecTag(s).Tag? ==>
              var r := DecStep(fields, p, DecTag(s).wireType, DecTag(s).tag, DecTag(s).rest);
              DecLoop(fields, p, s) == if r.Fail? then LoopFail else DecLoop(fields, r.value, r.rest)
  {
    hide DecTag, DecStep;
  }

  /** A step on a tag, by what the iterator finds. */
  lemma StepCases(fields: seq<Field>, p: Progress, wt: nat, tag: nat, s: Bytes)
    ensures fields == [] && tag == 0 ==>
              DecStep(fields, p, wt, tag, s) == if Dec32(s).Fail? then Fail else Done(p, Dec32(s).rest)
    ensures !(fields == [] && tag == 0) && Lookup(fields, tag) == |fields| ==>
              DecStep(fields, p, wt, tag, s) == if Skip(wt, s).Fail? then Fail else Done(p, Skip(wt, s).rest)
    ensures fields != [] && Lookup(fields, tag) < |fields| ==>
              DecStep(fields, p, wt, tag, s) == DecField(fields, Lookup(fields, tag), p, wt, s)
  {
    hide DecField, Dec32, Skip;
  }

  /** One turn of the field loop: a zero tag stops it, unknown fields are skipped, the others decoded. */
  method DecodeNext(
      st: IStream, iter: FieldIter, dest: Struct, fixedField: int, fixedCount: nat,
      fieldsSeen: array<nat>, ghost p: Progress)
    returns (ok: bool, stopped: bool, newField: int, newCount: nat, ghost q: Progress)
    requires st.Valid() && st.left > 0 && Tracks(iter, dest, fixedField, fixedCount, fieldsSeen, p)
    requires TableOk(iter.start)
    modifies st, iter, dest, fieldsSeen
    ensures st.Valid() && st.End() <= old(st.End())
    ensures DecLoop(iter.start, p, old(st.Rest()))
         == if !ok then LoopFail else if stopped then Stopped(q, st.Rest()) else DecLoop(iter.start, q, st.Rest())
    ensures ok ==> st.End() == old(st.End()) && st.left < old(st.left)
    ensures ok ==> Tracks(iter, dest, newField, newCount, fieldsSeen, q)
    decreases iter.start, 4, 1
  {
    hide IStream.Rest;
    hide DecLoop, DecStep, DecTag, DecField, Skip, Dec32, Laid, TableOk, Word, Lookup, CountFits, Stands, Tracked;
    hide Delimited;
    ghost var fields, before := iter.start, st.Rest();
    var wt, tag, eof;
    q, stopped, newField, newCount := p, false, fixedField, fixedCount;
    assert |before| == st.left;
    LoopTurn(fields, p, before);
    ok, wt, tag, eof := DecodeTag(st);
    if !ok {
      ok, stopped := eof, eof;
      return;
    }
    ghost var rest, steps := st.Rest(), 0;
    StepCases(fields, p, wt, tag, rest);
    FindAgrees(fields, tag);
    ok, steps := iter.Find(tag);
    if !ok {
      ok := SkipField(st, wt);
    } else if iter.start == [] {
      // the terminator of an empty table, taken for a bool of tag 0
      var ignored;
      ok, ignored, eof := DecodeVarint32(st);
    } else {
      LookupAtFound(fields, iter.pos, tag);
      ok, newField, newCount := DecodeKnown(st, wt, iter, dest, fixedField, fixedCount, fieldsSeen, p);
    }
    if ok {
      StepDecodeLaid(fields, p, wt, tag, rest);
      q := DecStep(fields, p, wt, tag, rest).value;
      assert |st.Rest()| == st.left;
    }
  }

  /** pb_decode_noinit. */
  method DecodeNoInit(st: IStream, fields: seq<Field>, dest: Struct) returns (ok: bool)
    requires st.Valid() && TableOk(fields) && Laid(fields, dest.slots)
    modifies st, dest
    ensures Parsed(st, old(st.End()), DecMessage(fields, old(dest.slots), old(st.Rest())), ok, dest.slots)
    decreases fields, 5
  {
    hide IStream.Rest;
    hide DecLoop, FixedDone, RequiredSeen, Laid, TableOk, Word;
    ghost var s, start, end := st.Rest(), Start(dest.slots), st.End();
    ghost var p := start;
    var fieldsSeen := new nat[2](_ => 0);
    assert fieldsSeen[..] == [0, 0];
    NothingSeen(fieldsSeen[..], Tracked(fields));
    var fixedField, fixedCount := -1, 0;
    var iter := new FieldIter(fields, 0);
    var stopped := false;
    assert Tracks(iter, dest, fixedField, fixedCount, fieldsSeen, p);
    hide Tracks, Stands, Tracked, CountFits, DecMessage;
    while !stopped && st.left > 0
      invariant iter.start == fields && fieldsSeen.Length == 2 && st.Valid() && st.End() == end
      invariant Tracks(iter, dest, fixedField, fixedCount, fieldsSeen, p)
      invariant DecLoop(fields, start, s) == if stopped then Stopped(p, st.Rest()) else DecLoop(fields, p, st.Rest())
      decreases st.left
    {
      ok, stopped, fixedField, fixedCount, p := DecodeNext(st, iter, dest, fixedField, fixedCount, fieldsSeen, p);
      if !ok {
        return;
      }
    }
    if !stopped {
      assert st.Rest() == [];
      LoopAtEnd(fields, p);
    }
    ok := FinalChecks(iter, dest, fixedField, fixedCount, fieldsSeen, p);
  }

  /** The checks after the field loop: no half-received fixed-count array, and every required field seen. */
  method FinalChecks(
      iter: FieldIter, dest: Struct, fixedField: int, fixedCount: nat, fieldsSeen: array<nat>, ghost p: Progress)
    returns (ok: bool)
    requires Tracks(iter, dest, fixedField, fixedCount, fieldsSeen, p)
    modifies iter
    ensures ok <==> FixedDone(iter.start, p) && RequiredSeen(iter.start, p.seen)
  {
    hide Laid, Word;
    if fixedField != -1 && fixedCount != iter.start[fixedField].arraySize {
      return false;
    }
    var count := CountRequired(iter);
    if count > MAX_REQUIRED {
      count := MAX_REQUIRED;
    }
    ok := AllMarked(fieldsSeen, count, p.seen);
  }

  lemma LoopAtEnd(fields: seq<Field>, p: Progress)
    ensures DecLoop(fields, p, []) == Ended(p)
  {
  }

  lemma NothingSeen(mask: seq<nat>, count: nat)
    requires mask == [0, 0] && count <= 64
    ensures Stands(mask, {}, count)
  {
    EmptyWord(0, 0);
    EmptyWord(32, 0);
  }

  lemma {:induction false} EmptyWord(base: nat, lo: nat)
    requires lo <= 32
    ensures Word({}, base, lo, 32) == 0
    decreases 32 - lo
  {
    if lo < 32 { EmptyWord(base, lo + 1); }
  }

  lemma LookupAtFound(fields: seq<Field>, i: nat, tag: nat)
    requires TableOk(fields) && i < |fields| && fields[i].tag == tag
    ensures Lookup(fields, tag) == i
  {
    LookupUnique(fields, i);
  }

  /** A field of the table: fixed-count bookkeeping, the required mask, then the data. */
  method DecodeKnown(
      st: IStream, wt: nat, iter: FieldIter, dest: Struct, fixedField: int, fixedCount: nat,
      fieldsSeen: array<nat>, ghost p: Progress)
    returns (ok: bool, newField: int, newCount: nat)
    requires st.Valid() && iter.Valid() && TableOk(iter.start) && iter.start != []
    requires Laid(iter.start, p.slots) && CountFits(iter.start, p) && dest.slots == p.slots
    requires fixedField == p.fixedField && fixedCount == p.fixedCount && -1 <= fixedField < |iter.start|
    requires fieldsSeen.Length == 2 && Stands(fieldsSeen[..], p.seen, Tracked(iter.start))
    modifies st, iter, dest, fieldsSeen
    ensures st.Valid() && st.End() <= old(st.End()) && iter.Valid()
    ensures var r := DecField(iter.start, old(iter.pos), p, wt, old(st.Rest()));
            && (ok <==> r.Done?)
            && (ok ==> dest.slots == r.value.slots && st.Rest() == r.rest && st.End() == old(st.End()))
            && (ok ==> newField == r.value.fixedField && newCount == r.value.fixedCount)
            && (ok ==> -1 <= newField < |iter.start|)
            && (ok ==> Stands(fieldsSeen[..], r.value.seen, Tracked(iter.start)))
    decreases iter.start, 4, 0
  {
    hide IStream.Rest;
    hide DecRepeated, DecSingle, Laid, TableOk, Word;
    var fields, i := iter.start, iter.pos;
    var f := fields[i];
    newField, newCount := fixedField, fixedCount;
    if f.FixedCount() && newField != i {
      if newField != -1 && newCount != fields[newField].arraySize {
        ok := false;
        return;
      }
      newField, newCount := i, 0;
    }
    if f.htype.Required? && iter.requiredIndex < MAX_REQUIRED {
      RequiredMonotone(fields, i + 1, |fields|);
      Mark(fieldsSeen, iter.requiredIndex, p.seen, Tracked(fields));
    }
    var count;
    ok, count := DecodeField(st, wt, iter, dest, newCount, p);
    if f.FixedCount() {
      newCount := count;
    }
  }

  // ---------------------------------------------------------------- defaults

  /** pb_field_set_to_default on the data of a field. */
  method SetValueToDefault(f: Field, prev: Value) returns (v: Value)
    ensures v == DefaultValue(f, prev)
    decreases f, 0
  {
    if f.ltype.LSubmessage? {
      var inner := new Struct(if prev.Msg? then prev.slots else []);
      SetToDefaults(f.sub, inner);
      return Msg(inner.slots);
    } else if f.default.Custom? {
      return f.default.v;
    }
    match f.ltype
    case LBytes => v := Blob([]);
    case LString => v := Blob([]);
    case LFixedLengthBytes => v := Blob(seq(f.dataSize, _ => 0));
    case _ => v := Num(0);
  }

  /** pb_field_set_to_default. */
  method SetSlotToDefault(f: Field, prev: Slot) returns (slot: Slot)
    ensures slot == DefaultSlot(f, prev) && RoundTrip.ResetSlot(f, slot)
    ensures f.FixedCount() && SlotLaid(f, prev) ==> slot == prev
    decreases f, 1
  {
    RoundTrip.DefaultSlotReset(f, prev);
    hide DefaultValue, RoundTrip.ResetSlot;
    if f.htype.Repeated? {
      slot := if f.HasSize() then Many([]) else Fixed(EntriesOf(f, prev));
    } else if f.htype.OneOf? {
      slot := Union(0, if prev.Union? then prev.v else Num(0));
    } else {
      var flagged := f.htype.Optional? && f.HasSize();
      var was := if flagged then prev.Flagged? else prev.Single?;
      var v := SetValueToDefault(f, if was then prev.v else Num(0));
      slot := if flagged then Flagged(false, v) else Single(v);
    }
  }

  /** pb_message_set_to_defaults: one slot after another; the members of a union share theirs. */
  method SetToDefaults(fields: seq<Field>, dest: Struct)
    modifies dest
    ensures dest.slots == Defaults(fields, old(dest.slots))
    decreases fields, 2
  {
    hide DefaultSlot;
    var iter := new FieldIter(fields, 0);
    var prev, r := dest.slots, [];
    var more := fields != [];
    ghost var n := 0;
    while more
      invariant iter.Valid() && iter.start == fields && n <= |fields| && dest.slots == prev && (more ==> fields != [])
      invariant if more then n == iter.pos else n == |fields|
      invariant r == DefaultsTo(fields, prev, n)
      decreases |fields| - n
    {
      if !InUnion(fields, iter.pos) {
        var slot := SetSlotToDefault(fields[iter.pos], if |r| < |prev| then prev[|r|] else Single(Num(0)));
        r := r + [slot];
      }
      more := iter.Next();
      n := n + 1;
    }
    dest.slots := r;
  }

  // ---------------------------------------------------------------- entry points

  /** pb_decode. */
  method Decode(st: IStream, fields: seq<Field>, dest: Struct) returns (ok: bool)
    requires st.Valid() && TableOk(fields)
    modifies st, dest
    ensures Parsed(st, old(st.End()), Dec(fields, old(dest.slots), old(st.Rest())), ok, dest.slots)
    decreases fields, 6
  {
    hide IStream.Rest;
    hide DecMessage, Laid, TableOk, DefaultsTo;
    DefaultsLaid(fields, dest.slots);
    SetToDefaults(fields, dest);
    ok := DecodeNoInit(st, fields, dest);
  }

  /** pb_decode_delimited: after every successful close the parent stands behind the whole message. */
  method DecodeDelimited(st: IStream, fields: seq<Field>, dest: Struct) returns (ok: bool)
    requires st.Valid() && TableOk(fields)
    modifies st, dest
    ensures Parsed(st, old(st.End()), DecDelimited(fields, old(dest.slots), old(st.Rest())), ok, dest.slots)
  {
    hide IStream.Rest;
    hide Dec, Laid, TableOk, DefaultsTo, Delimited;
    var substream;
    ok, substream := MakeSubstream(st);
    if !ok {
      return;
    }
    var status := Decode(substream, fields, dest);
    ok := CloseSubstream(st, substream);
    ok := status;
  }

  /** pb_decode_nullterminated. */
  method DecodeNullTerminated(st: IStream, fields: seq<Field>, dest: Struct) returns (ok: bool)
    requires st.Valid() && TableOk(fields)
    modifies st, dest
    ensures Parsed(st, old(st.End()), Dec(fields, old(dest.slots), old(st.Rest())), ok, dest.slots)
  {
    ok := Decode(st, fields, dest);
  }
}
