/**
 The encoder as it runs: an output stream over a buffer, or a sizing stream that only counts, and the
 methods of pb_encode.c that write to it. Every method is proved to emit exactly what the functions of
 module Encoding say, and to fail exactly when those fail or the stream is full.
 */
module Encoder {
  import opened Wire
  import opened Descriptor
  import opened Encoding
  import Integers
  import opened Iterator

  // ---------------------------------------------------------------- what a stream shows

  /** A stream at one moment: its limit, cursor, count and the whole buffer. */
  datatype View = View(sizing: bool, maxSize: nat, state: nat, written: nat, bytes: Bytes)
  {
    /** The room that is left lies inside the buffer. */
    ghost predicate Valid() {
      !sizing ==> written <= maxSize && state + (maxSize - written) <= |bytes|
    }

    ghost predicate Room(n: nat) { sizing || written + n <= maxSize }
  }

  /** `b` with the bytes from `at` on overwritten by `e`. */
  function Splice(b: Bytes, at: nat, e: Bytes): (r: Bytes)
    requires at + |e| <= |b|
    ensures |r| == |b|
  {
    b[..at] + e + b[at + |e|..]
  }

  /** Writing twice in a row is writing once. */
  lemma SpliceTwice(b: Bytes, at: nat, d: Bytes, e: Bytes)
    requires at + |d| + |e| <= |b|
    ensures Splice(Splice(b, at, d), at + |d|, e) == Splice(b, at, d + e)
  {
    var c := Splice(b, at, d);
    assert c[..at + |d|] == b[..at] + d;
    assert c[at + |d| + |e|..] == b[at + |d| + |e|..];
  }

  /** The stream after exactly the bytes `e`: counted, and written unless it only sizes. */
  ghost predicate Advanced(a: View, e: Bytes, z: View) {
    && z.written == a.written + |e|
    && if a.sizing then z.bytes == a.bytes
       else z.state == a.state + |e| && a.state + |e| <= |a.bytes| && z.bytes == Splice(a.bytes, a.state, e)
  }

  /**
   What a call that emits `o` does to the stream: it succeeds exactly when there is an output and room
   for it; a failed call leaves the bytes before the cursor alone.
   */
  ghost predicate Emits(a: View, o: Output, ok: bool, z: View) {
    && z.Valid() && z.sizing == a.sizing && z.maxSize == a.maxSize && |z.bytes| == |a.bytes|
    && (ok <==> o.Wrote? && a.Room(|o.bytes|))
    && (ok ==> Advanced(a, o.bytes, z))
    && (!ok ==> if a.sizing then z.bytes == a.bytes
                else a.state <= z.state && (a.state <= |a.bytes| ==> z.bytes[..a.state] == a.bytes[..a.state]))
  }

  /** Two calls in a row emit the concatenation. */
  lemma EmitsBoth(a: View, d: Output, b: View, e: Output, ok: bool, z: View)
    requires a.Valid() && Emits(a, d, true, b) && Emits(b, e, ok, z)
    ensures Emits(a, Append(d, e), ok, z)
  {
    if !a.sizing {
      if ok { SpliceTwice(a.bytes, a.state, d.bytes, e.bytes); }
      assert b.bytes[..b.state][..a.state] == b.bytes[..a.state] == a.bytes[..a.state];
      assert !ok ==> z.bytes[..a.state] == z.bytes[..b.state][..a.state];
    }
  }

  /** When the first call fails, so does the whole. */
  lemma EmitsFirstFails(a: View, d: Output, e: Output, z: View)
    requires Emits(a, d, false, z)
    ensures Emits(a, Append(d, e), false, z)
  {
  }

  lemma EmitsNothing(a: View)
    requires a.Valid()
    ensures Emits(a, Wrote([]), true, a)
  {
  }

  // ---------------------------------------------------------------- output streams

  /** pb_ostream_t. A sizing stream has no callback: it counts without writing and is never full. */
  class OStream {
    const sizing: bool
    const buf: array<Byte>
    const maxSize: nat
    var state: nat
    var written: nat

    ghost function Look(): View
      reads this, buf
    {
      View(sizing, maxSize, state, written, buf[..])
    }

    ghost predicate Valid()
      reads this, buf
    {
      Look().Valid()
    }

    /** pb_ostream_from_buffer. */
    constructor FromBuffer(b: array<Byte>)
      ensures Valid() && !sizing && buf == b && maxSize == b.Length && state == 0 && written == 0
    {
      sizing, buf, maxSize := false, b, b.Length;
      state, written := 0, 0;
    }

    /** PB_OSTREAM_SIZING. */
    constructor Sizing()
      ensures Valid() && sizing && written == 0 && fresh(buf)
    {
      sizing, maxSize := true, 0;
      buf := new Byte[0];
      state, written := 0, 0;
    }

    /** The substream of pb_encode_submessage: the parent's buffer and cursor, with a limit of its own. */
    constructor Sub(b: array<Byte>, at: nat, size: nat)
      requires at + size <= b.Length
      ensures Valid() && !sizing && buf == b && maxSize == size && state == at && written == 0
    {
      sizing, buf, maxSize := false, b, size;
      state, written := at, 0;
    }

    /** pb_write on data. */
    method Write(data: Bytes) returns (ok: bool)
      requires Valid()
      modifies this, buf
      ensures Emits(old(Look()), Wrote(data), ok, Look())
    {
      var count := |data|;
      ghost var b := buf[..];
      if count > 0 && !sizing {
        if written + count > maxSize {
          return false;
        }
        CopyIn(data);
      }
      if count == 0 && !sizing { assert Splice(b, state, data) == b; }
      written := written + count;
      return true;
    }

    /** buf_write. */
    method CopyIn(data: Bytes)
      requires Valid() && !sizing && written + |data| <= maxSize
      modifies this`state, buf
      ensures state == old(state) + |data| && buf[..] == Splice(old(buf[..]), old(state), data)
    {
      var at := state;
      state := at + |data|;
      ghost var b := buf[..];
      var i := 0;
      while i < |data|
        invariant i <= |data| && state == at + |data|
        invariant forall k :: 0 <= k < buf.Length ==> buf[k] == if at <= k < at + i then data[k - at] else b[k]
      {
        buf[at + i] := data[i];
        i := i + 1;
      }
      assert buf[..] == Splice(b, at, data);
    }

    /** pb_write without data, on a sizing stream. */
    method Count(size: nat)
      requires Valid() && sizing
      modifies this`written
      ensures Valid() && written == old(written) + size
    {
      written := written + size;
    }
  }

  // ---------------------------------------------------------------- varints and fixed words

  /** (value & 0x7F) | 0x80 and value >> 7. */
  function LowDigit(v: nat): Byte { v % 128 + 128 }

  function HighDigits(v: nat): (r: nat)
    ensures v > 0 ==> r < v
  {
    v / 128
  }

  /** The digits of a value, all with the continuation bit, as the loop of pb_encode_varint leaves them. */
  function Digits(v: nat): (r: Bytes)
    ensures v > 0 ==> |r| > 0 && r[|r| - 1] >= 128
  {
    if v == 0 then [] else [LowDigit(v)] + Digits(HighDigits(v))
  }

  /** Clearing the continuation bit of the last digit gives the varint. */
  lemma {:induction false} DigitsAreVarint(v: nat)
    requires v > 0
    ensures |Digits(v)| == |EncVarint(v)|
    ensures var k := |Digits(v)| - 1; EncVarint(v) == Digits(v)[..k] + [Digits(v)[k] - 128]
  {
    if v >= 128 {
      DigitsAreVarint(v / 128);
      var d := Digits(v / 128);
      var k := |d| - 1;
      assert Digits(v)[..k + 1] == [v % 128 + 128] + d[..k];
    } else {
      assert Digits(v) == [v + 128];
    }
  }

  /** The loop of pb_encode_varint over its ten-byte buffer, which never overflows. */
  method FillDigits(buffer: array<Byte>, value: nat) returns (i: nat)
    requires 0 < value < TWO64 && buffer.Length == 10
    modifies buffer
    ensures 0 < i <= 10 && buffer[..i] == Digits(value)
  {
    AtMostTenDigits(value);
    hide *;
    var v := value;
    ghost var done: Bytes := [];
    i := 0;
    while v != 0
      invariant i == |done| <= 10 && (forall j :: 0 <= j < i ==> buffer[j] == done[j])
      invariant done + Digits(v) == Digits(value)
      decreases v
    {
      NextDigit(done, v);
      SamePlace(done, Digits(v), Digits(value));
      buffer[i] := LowDigit(v);
      done := done + [LowDigit(v)];
      v := HighDigits(v);
      i := i + 1;
    }
    NoDigits();
    assert buffer[..i] == done == done + [];
  }

  lemma SamePlace(a: Bytes, b: Bytes, c: Bytes)
    requires a + b == c
    ensures |a| + |b| == |c|
  {
  }

  lemma AtMostTenDigits(v: nat)
    requires 0 < v < TWO64
    ensures 0 < |Digits(v)| <= 10
  {
    VarintAtMostTen(v);
    DigitsAreVarint(v);
  }

  lemma NoDigits()
    ensures Digits(0) == []
  {
  }

  /** One digit more in front of the digits that are left. */
  lemma NextDigit(low: Bytes, v: nat)
    requires v > 0
    ensures |Digits(v)| > 0
    ensures low + Digits(v) == (low + [LowDigit(v)]) + Digits(HighDigits(v))
  {
  }

  /** pb_encode_varint. */
  method EncodeVarint(st: OStream, value: nat) returns (ok: bool)
    requires st.Valid() && value < TWO64
    modifies st, st.buf
    ensures Emits(old(st.Look()), Wrote(EncVarint(value)), ok, st.Look())
  {
    hide Emits, Digits;
    if value <= 0x7F {
      ok := st.Write([value]);
      return;
    }
    var buffer := new Byte[10];
    var i := FillDigits(buffer, value);
    ghost var all, k := buffer[..i], i - 1;
    DigitsAreVarint(value);
    buffer[i - 1] := buffer[i - 1] % 128;
    assert buffer[..i] == all[..k] + [all[k] - 128];
    ok := st.Write(buffer[..i]);
  }

  /** pb_encode_fixed32. */
  method EncodeFixed32(st: OStream, n: nat) returns (ok: bool)
    requires st.Valid() && n < TWO32
    modifies st, st.buf
    ensures Emits(old(st.Look()), Wrote(LittleEndian(n, 4)), ok, st.Look())
  {
    var bytes: Bytes := [n % 0x100, (n / 0x100) % 0x100, (n / 0x1_0000) % 0x100, (n / 0x100_0000) % 0x100];
    LittleEndianBytes(n, 4);
    assert LittleEndian(n, 4) == bytes;
    ok := st.Write(bytes);
  }

  /** pb_encode_fixed64. */
  method EncodeFixed64(st: OStream, n: nat) returns (ok: bool)
    requires st.Valid() && n < TWO64
    modifies st, st.buf
    ensures Emits(old(st.Look()), Wrote(LittleEndian(n, 8)), ok, st.Look())
  {
    var bytes: Bytes := [
      n % 0x100, (n / 0x100) % 0x100, (n / 0x1_0000) % 0x100, (n / 0x100_0000) % 0x100,
      (n / 0x1_0000_0000) % 0x100, (n / 0x100_0000_0000) % 0x100,
      (n / 0x1_0000_0000_0000) % 0x100, (n / 0x100_0000_0000_0000) % 0x100];
    LittleEndianBytes(n, 8);
    assert LittleEndian(n, 8) == bytes;
    ok := st.Write(bytes);
  }

  /** Byte `i` of a little-endian word is the number shifted right by `8 * i` bits. */
  lemma {:induction false} LittleEndianBytes(n: nat, count: nat)
    requires count <= 8
    ensures forall i :: 0 <= i < count ==> LittleEndian(n, count)[i] == (n / Byte256(i)) % 256
  {
    if count > 0 {
      LittleEndianBytes(n / 256, count - 1);
      forall i | 0 < i < count
        ensures LittleEndian(n, count)[i] == (n / Byte256(i)) % 256
      {
        assert LittleEndian(n, count)[i] == LittleEndian(n / 256, count - 1)[i - 1];
        DivTwice(n, i);
      }
    }
  }

  /** 256 to the power `i`, for the bytes of a 64-bit word. */
  function Byte256(i: nat): (p: nat)
    requires i < 8
    ensures p > 0
  {
    if i == 0 then 1 else if i == 1 then 0x100 else if i == 2 then 0x1_0000 else if i == 3 then 0x100_0000
    else if i == 4 then 0x1_0000_0000 else if i == 5 then 0x100_0000_0000
    else if i == 6 then 0x1_0000_0000_0000 else 0x100_0000_0000_0000
  }

  lemma DivTwice(n: nat, i: nat)
    requires 0 < i < 8
    ensures (n / 256) / Byte256(i - 1) == n / Byte256(i)
  {
  }

  // ---------------------------------------------------------------- tags, strings, submessages

  /** When a prefix of the output already fails, so does the output. */
  lemma EmitsPrefixFails(a: View, d: Output, whole: Output, z: View)
    requires Emits(a, d, false, z)
    requires whole.Wrote? ==> d.Wrote? && d.bytes <= whole.bytes
    ensures Emits(a, whole, false, z)
  {
  }

  /** pb_encode_tag. */
  method EncodeTag(st: OStream, wt: nat, tag: nat) returns (ok: bool)
    requires st.Valid() && wt < 8 && tag <= PB_SIZE_MAX
    modifies st, st.buf
    ensures Emits(old(st.Look()), Wrote(EncTag(tag, wt)), ok, st.Look())
  {
    ok := EncodeVarint(st, 8 * tag + wt);
  }

  /** pb_encode_tag_for_field. */
  method EncodeTagForField(st: OStream, f: Field) returns (ok: bool)
    requires st.Valid() && f.tag <= PB_SIZE_MAX
    modifies st, st.buf
    ensures Emits(old(st.Look()), Wrote(EncTag(f.tag, WireType(f.ltype))), ok, st.Look())
  {
    ok := EncodeTag(st, WireType(f.ltype), f.tag);
  }

  /** pb_encode_string. */
  method EncodeString(st: OStream, b: Bytes) returns (ok: bool)
    requires st.Valid() && |b| < TWO64
    modifies st, st.buf
    ensures Emits(old(st.Look()), Wrote(EncString(b)), ok, st.Look())
  {
    hide EncVarint;
    ghost var a, head := st.Look(), Wrote(EncVarint(|b|));
    ok := EncodeVarint(st, |b|);
    if !ok {
      EmitsFirstFails(a, head, Wrote(b), st.Look());
      return;
    }
    ghost var m := st.Look();
    ok := st.Write(b);
    EmitsBoth(a, head, m, Wrote(b), ok, st.Look());
  }

  lemma CStringNext(b: Bytes, max: nat, size: nat)
    requires size < max && size < |b| && b[size] != 0
    ensures b[..size] + CString(b[size..], max - size) == b[..size + 1] + CString(b[size + 1..], max - (size + 1))
  {
    var s := b[size..];
    assert s[0] == b[size] && s[1..] == b[size + 1..];
    assert b[..size] + [b[size]] == b[..size + 1];
  }

  /** The scan for the terminator in pb_enc_string. */
  method StringLength(b: Bytes, max: nat) returns (size: nat)
    ensures size <= |b| && b[..size] == CString(b, max)
  {
    hide CString;
    size := 0;
    assert b[0..] == b && b[..0] + CString(b, max) == CString(b, max);
    while size < max && size < |b| && b[size] != 0
      invariant size <= |b| && size <= max
      invariant CString(b, max) == b[..size] + CString(b[size..], max - size)
    {
      CStringNext(b, max, size);
      size := size + 1;
    }
    CStringStops(b[size..], max - size);
  }

  lemma CStringStops(b: Bytes, max: nat)
    requires b == [] || max == 0 || b[0] == 0
    ensures CString(b, max) == []
  {
  }

  /**
   pb_encode_submessage: size the message with a counting stream, then write it through a substream of
   exactly that size. The check that the second pass wrote as much as the first counted always passes.
   */
  method EncodeSubmessage(st: OStream, fields: seq<Field>, slots: seq<Slot>) returns (ok: bool)
    requires st.Valid() && TableOk(fields) && IsStruct(fields, slots)
    modifies st, st.buf
    ensures Emits(old(st.Look()), EncDelimited(fields, slots), ok, st.Look())
    decreases fields, 6
  {
    hide EncTo, IsStruct, TableOk, EncVarint;
    ghost var a, o := st.Look(), Enc(fields, slots);
    var substream := new OStream.Sizing();
    var sized := Encode(substream, fields, slots);
    assert st.Look() == a;
    if !sized {
      return false;
    }
    var size := substream.written;
    assert o.Wrote? && size == |o.bytes| < TWO64 by { EncFits(fields, slots); }
    ghost var head, body := Wrote(EncVarint(size)), Wrote(o.bytes);
    ok := EncodeVarint(st, size);
    if !ok {
      EmitsFirstFails(a, head, body, st.Look());
      return;
    }
    ghost var m := st.Look();
    if st.sizing {
      st.Count(size);
      EmitsBoth(a, head, m, body, true, st.Look());
      return;
    }
    if st.written + size > st.maxSize {
      EmitsBoth(a, head, m, body, false, st.Look());
      return false;
    }
    substream := new OStream.Sub(st.buf, st.state, size);
    var status := Encode(substream, fields, slots);
    st.written := st.written + substream.written;
    st.state := substream.state;
    assert status && substream.written == size;
    ok := status && substream.written == size;
    EmitsBoth(a, head, m, body, true, st.Look());
  }

  lemma EncFits(fields: seq<Field>, slots: seq<Slot>)
    requires IsStruct(fields, slots) && Enc(fields, slots).Wrote?
    ensures |Enc(fields, slots).bytes| < TWO64
  {
  }

  // ---------------------------------------------------------------- values and arrays

  /** The pb_enc_* functions. */
  method EncodeValue(st: OStream, f: Field, v: Value) returns (ok: bool)
    requires st.Valid() && FieldOk(f) && ValueShaped(f, v)
    modifies st, st.buf
    ensures Emits(old(st.Look()), EncValue(f, v), ok, st.Look())
    decreases f, 0
  {
    hide Emits, EncVarint, EncString, LittleEndian, EncTo, TableOk, CString, IsStruct;
    match f.ltype
    case LBool => ok := EncodeVarint(st, if v.n != 0 then 1 else 0);
    case LVarint => ok := EncodeInteger(st, f, v);
    case LUVarint => ok := EncodeInteger(st, f, v);
    case LSVarint => ok := EncodeInteger(st, f, v);
    case LFixed32 => ok := EncodeFixed32(st, v.n % TWO32);
    case LFixed64 => ok := EncodeFixed64(st, ToU64(v.n));
    case LBytes =>
      if |v.b| + BYTES_OFFSET > f.dataSize {
        ok := Refuse(st);
        return;
      }
      ok := EncodeString(st, v.b);
    case LString =>
      var size := StringLength(v.b, f.dataSize);
      ok := EncodeString(st, v.b[..size]);
    case LFixedLengthBytes => ok := EncodeString(st, v.b);
    case LSubmessage => ok := EncodeSubmessage(st, f.sub, v.slots);
  }

  /** An error return that writes nothing. */
  method Refuse(st: OStream) returns (ok: bool)
    requires st.Valid()
    ensures Emits(st.Look(), Error, ok, st.Look())
  {
    ok := false;
  }

  /**
   pb_enc_varint, pb_enc_uvarint and pb_enc_svarint: an integer of any of the four widths is read as the
   number it is, which extends its sign to 64 bits, and zigzag fields are mapped first.
   */
  method EncodeInteger(st: OStream, f: Field, v: Value) returns (ok: bool)
    requires st.Valid() && v.Num? && Integers.IsInteger(f.ltype)
    modifies st, st.buf
    ensures Emits(old(st.Look()), EncValue(f, v), ok, st.Look())
  {
    if !IntegerSize(f.dataSize) {
      return false;
    }
    if f.ltype.LSVarint? {
      ok := EncodeVarint(st, ZigZag(v.n));
    } else {
      ok := EncodeVarint(st, ToU64(v.n));
    }
  }

  /** A tag and a value. */
  method EncodeTagged(st: OStream, f: Field, v: Value) returns (ok: bool)
    requires st.Valid() && FieldOk(f) && ValueShaped(f, v)
    modifies st, st.buf
    ensures Emits(old(st.Look()), EncTagged(f, v), ok, st.Look())
    decreases f, 1
  {
    hide EncTag, EncValue, ValueShaped;
    ghost var a, head := st.Look(), Wrote(EncTag(f.tag, WireType(f.ltype)));
    ok := EncodeTagForField(st, f);
    if !ok {
      EmitsFirstFails(a, head, EncValue(f, v), st.Look());
      return;
    }
    ghost var m := st.Look();
    ok := EncodeValue(st, f, v);
    EmitsBoth(a, head, m, EncValue(f, v), ok, st.Look());
  }

  /** Items written one after another. */
  method EncodeItems(st: OStream, f: Field, items: seq<Value>) returns (ok: bool)
    requires st.Valid() && FieldOk(f) && ItemsShaped(f, items)
    modifies st, st.buf
    ensures Emits(old(st.Look()), EncPacked(f, items), ok, st.Look())
    decreases f, 2, 0
  {
    hide EncValue, ValueShaped, FieldOk, Emits;
    ghost var a := st.Look();
    EmitsNothing(a);
    var i := 0;
    while i < |items|
      invariant i <= |items| && st.Valid()
      invariant Emits(a, EncPacked(f, items[..i]), true, st.Look())
    {
      ghost var m := st.Look();
      assert ValueShaped(f, items[i]);
      ok := EncodeValue(st, f, items[i]);
      EncPackedNext(f, items, i);
      EmitsBoth(a, EncPacked(f, items[..i]), m, EncValue(f, items[i]), ok, st.Look());
      if !ok {
        EncPackedPrefix(f, items, i + 1);
        EmitsPrefixFails(a, EncPacked(f, items[..i + 1]), EncPacked(f, items), st.Look());
        return;
      }
      EmitsValid(a, EncPacked(f, items[..i + 1]), ok, st.Look());
      i := i + 1;
    }
    assert items[..i] == items;
    ok := true;
  }

  lemma EmitsValid(a: View, o: Output, ok: bool, z: View)
    requires Emits(a, o, ok, z)
    ensures z.Valid()
  {
  }

  lemma EncPackedNext(f: Field, items: seq<Value>, i: nat)
    requires i < |items|
    ensures EncPacked(f, items[..i + 1]) == Append(EncPacked(f, items[..i]), EncValue(f, items[i]))
  {
    hide EncValue;
    assert items[..i + 1][..i] == items[..i];
  }

  lemma EncUnpackedNext(f: Field, items: seq<Value>, i: nat)
    requires i < |items|
    ensures EncUnpacked(f, items[..i + 1]) == Append(EncUnpacked(f, items[..i]), EncTagged(f, items[i]))
  {
    hide EncTagged;
    assert items[..i + 1][..i] == items[..i];
  }

  /** Fixed-size items need no sizing pass. */
  lemma {:induction false} FixedItemsSize(f: Field, items: seq<Value>)
    requires EncPacked(f, items).Wrote?
    ensures f.ltype.LFixed32? ==> |EncPacked(f, items).bytes| == 4 * |items|
    ensures f.ltype.LFixed64? ==> |EncPacked(f, items).bytes| == 8 * |items|
    decreases |items|
  {
    if items != [] { FixedItemsSize(f, items[..|items| - 1]); }
  }

  /** A shaped fixed-size item always has an encoding. */
  lemma {:induction false} FixedItemsWritten(f: Field, items: seq<Value>)
    requires (f.ltype.LFixed32? || f.ltype.LFixed64?) && forall j :: 0 <= j < |items| ==> ValueShaped(f, items[j])
    ensures EncPacked(f, items).Wrote?
    decreases |items|
  {
    if items != [] {
      assert ValueShaped(f, items[|items| - 1]);
      FixedItemsWritten(f, items[..|items| - 1]);
    }
  }

  /** The sizing half of encode_array's packed branch. */
  method PackedSize(f: Field, items: seq<Value>) returns (ok: bool, size: nat)
    requires FieldOk(f) && ItemsShaped(f, items)
    ensures ok <==> EncPacked(f, items).Wrote?
    ensures ok ==> size == |EncPacked(f, items).bytes|
    decreases f, 2, 1
  {
    hide EncValue, ValueShaped, FieldOk;
    if f.ltype.LFixed32? {
      FixedItemsWritten(f, items);
      FixedItemsSize(f, items);
      return true, 4 * |items|;
    } else if f.ltype.LFixed64? {
      FixedItemsWritten(f, items);
      FixedItemsSize(f, items);
      return true, 8 * |items|;
    }
    var sizestream := new OStream.Sizing();
    ok := EncodeItems(sizestream, f, items);
    size := sizestream.written;
  }

  /** encode_array. The count may exceed the array, but then nothing of it is read. */
  method EncodeArray(st: OStream, f: Field, items: seq<Value>) returns (ok: bool)
    requires st.Valid() && FieldOk(f) && (|items| <= f.arraySize ==> ItemsShaped(f, items))
    modifies st, st.buf
    ensures Emits(old(st.Look()), EncArray(f, items), ok, st.Look())
    decreases f, 4
  {
    hide EncPacked, EncUnpacked, FieldOk, ItemsShaped;
    ghost var a := st.Look();
    if |items| == 0 {
      EmitsNothing(a);
      return true;
    }
    if |items| > f.arraySize {
      return false;
    }
    if f.Packable() {
      ok := EncodePackedArray(st, f, items);
    } else {
      ok := EncodeUnpackedArray(st, f, items);
    }
  }

  method EncodePackedArray(st: OStream, f: Field, items: seq<Value>) returns (ok: bool)
    requires st.Valid() && FieldOk(f) && ItemsShaped(f, items) && f.Packable()
    modifies st, st.buf
    ensures Emits(old(st.Look()), Append(Wrote(EncTag(f.tag, WT_STRING)), Framed(EncPacked(f, items))), ok, st.Look())
    decreases f, 3, 1
  {
    hide EncTag, EncPacked, ValueShaped, EncVarint;
    ghost var a, head, o := st.Look(), Wrote(EncTag(f.tag, WT_STRING)), EncPacked(f, items);
    assert f.tag <= PB_SIZE_MAX;
    ok := EncodeTag(st, WT_STRING, f.tag);
    if !ok {
      EmitsFirstFails(a, head, Framed(o), st.Look());
      return;
    }
    ghost var m := st.Look();
    var sized, size := PackedSize(f, items);
    if !sized {
      EmitsErrorAfter(a, head, m);
      return false;
    }
    ghost var length, data := Wrote(EncVarint(size)), Wrote(o.bytes);
    ok := EncodeVarint(st, size);
    if !ok {
      EmitsFirstFails(m, length, data, st.Look());
      EmitsBoth(a, head, m, Framed(o), false, st.Look());
      return;
    }
    ghost var n := st.Look();
    if st.sizing {
      st.Count(size);
      ok := true;
    } else {
      ok := EncodeItems(st, f, items);
    }
    EmitsBoth(m, length, n, data, ok, st.Look());
    EmitsBoth(a, head, m, Framed(o), ok, st.Look());
  }

  /** An error after a successful write. */
  lemma EmitsErrorAfter(a: View, d: Output, m: View)
    requires a.Valid() && Emits(a, d, true, m)
    ensures Emits(a, Append(d, Error), false, m)
  {
    EmitsBoth(a, d, m, Error, false, m);
  }

  method EncodeUnpackedArray(st: OStream, f: Field, items: seq<Value>) returns (ok: bool)
    requires st.Valid() && FieldOk(f) && ItemsShaped(f, items)
    modifies st, st.buf
    ensures Emits(old(st.Look()), EncUnpacked(f, items), ok, st.Look())
    decreases f, 3, 1
  {
    hide EncTagged, EncPacked, ValueShaped, FieldOk, Emits;
    ghost var a := st.Look();
    EmitsNothing(a);
    var i := 0;
    while i < |items|
      invariant i <= |items| && st.Valid()
      invariant Emits(a, EncUnpacked(f, items[..i]), true, st.Look())
    {
      ghost var m := st.Look();
      assert ValueShaped(f, items[i]);
      ok := EncodeTagged(st, f, items[i]);
      EncUnpackedNext(f, items, i);
      EmitsBoth(a, EncUnpacked(f, items[..i]), m, EncTagged(f, items[i]), ok, st.Look());
      if !ok {
        EncUnpackedPrefix(f, items, i + 1);
        EmitsPrefixFails(a, EncUnpacked(f, items[..i + 1]), EncUnpacked(f, items), st.Look());
        return;
      }
      EmitsValid(a, EncUnpacked(f, items[..i + 1]), ok, st.Look());
      i := i + 1;
    }
    assert items[..i] == items;
    ok := true;
  }

  // ---------------------------------------------------------------- fields and messages

  /** pb_check_proto3_default_value. */
  method CheckDefault(f: Field, slot: Slot) returns (r: bool)
    requires SlotShaped(f, slot)
    ensures r == IsDefault(f, slot)
    decreases f, 1
  {
    hide AllDefault, IsStruct;
    if f.htype.Required? {
      return false;
    } else if f.htype.Repeated? {
      if f.HasSize() {
        return |slot.items| == 0;
      }
      return false;
    } else if f.htype.OneOf? {
      return slot.which == 0;
    } else if f.HasSize() {
      return !slot.has;
    }
    if f.ltype.LBytes? {
      return |slot.v.b| == 0;
    } else if f.ltype.LString? {
      return |slot.v.b| == 0 || slot.v.b[0] == 0;
    } else if f.ltype.LFixedLengthBytes? {
      return f.dataSize == 0;
    } else if f.ltype.LSubmessage? {
      r := CheckAllDefault(f.sub, slot.v.slots);
      return;
    }
    return slot.v.n == 0;
  }

  /** Its loop over the fields of a submessage. */
  method CheckAllDefault(fields: seq<Field>, slots: seq<Slot>) returns (r: bool)
    requires IsStruct(fields, slots)
    ensures r == AllDefault(fields, slots, |fields|)
    decreases fields, 2
  {
    hide IsDefault, SlotShaped, Enc;
    var iter := new FieldIter(fields, 0);
    if fields == [] {
      return true;
    }
    var more := true;
    ghost var n := 0;
    while more
      invariant iter.Valid() && iter.start == fields && n <= |fields|
      invariant if more then n == iter.pos else n == |fields|
      invariant AllDefault(fields, slots, n)
      decreases |fields| - n
    {
      var k := SlotOf(fields, iter.pos);
      var isDefault := CheckDefault(fields[iter.pos], slots[k]);
      if !isDefault {
        NotAllDefault(fields, slots, n, |fields|);
        return false;
      }
      more := iter.Next();
      n := n + 1;
    }
    return true;
  }

  lemma {:induction false} NotAllDefault(fields: seq<Field>, slots: seq<Slot>, i: nat, n: nat)
    requires i < n <= |fields| && SlotOf(fields, i) < |slots| && !IsDefault(fields[i], slots[SlotOf(fields, i)])
    ensures !AllDefault(fields, slots, n)
    decreases n
  {
    hide IsDefault;
    if i < n - 1 { NotAllDefault(fields, slots, i, n - 1); }
  }

  /** encode_basic_field. */
  method EncodeField(st: OStream, f: Field, slot: Slot) returns (ok: bool)
    requires st.Valid() && FieldOk(f) && SlotShaped(f, slot)
    modifies st, st.buf
    ensures Emits(old(st.Look()), EncField(f, slot), ok, st.Look())
    decreases f, 5
  {
    hide EncTagged, EncArray, Emits, FieldOk, ValueShaped, ItemsShaped;
    EmitsNothing(st.Look());
    var implicitHas := true;
    if f.Implicit() {
      var isDefault := CheckDefault(f, slot);
      implicitHas := !isDefault;
    }
    match f.htype
    case Required => ok := EncodeTagged(st, f, slot.v);
    case Optional =>
      if if f.HasSize() then slot.has else implicitHas {
        ok := EncodeTagged(st, f, slot.v);
      } else {
        ok := true;
      }
    case Repeated => ok := EncodeArray(st, f, slot.items);
    case OneOf =>
      if slot.which == f.tag {
        ok := EncodeTagged(st, f, slot.v);
      } else {
        ok := true;
      }
  }

  /** pb_encode. */
  method Encode(st: OStream, fields: seq<Field>, slots: seq<Slot>) returns (ok: bool)
    requires st.Valid() && TableOk(fields) && IsStruct(fields, slots)
    modifies st, st.buf
    ensures Emits(old(st.Look()), Enc(fields, slots), ok, st.Look())
    decreases fields, 5
  {
    hide EncField, Emits, SlotShaped, FieldOk;
    ghost var a := st.Look();
    EmitsNothing(a);
    var iter := new FieldIter(fields, 0);
    if fields == [] {
      return true;
    }
    var more := true;
    ghost var n := 0;
    while more
      invariant iter.Valid() && iter.start == fields && n <= |fields| && st.Valid()
      invariant if more then n == iter.pos else n == |fields|
      invariant Emits(a, EncTo(fields, slots, n), true, st.Look())
      decreases |fields| - n
    {
      var f, slot := fields[iter.pos], slots[SlotOf(fields, iter.pos)];
      assert FieldOk(f) && SlotShaped(f, slot);
      ghost var m := st.Look();
      ok := EncodeField(st, f, slot);
      EmitsBoth(a, EncTo(fields, slots, n), m, EncField(f, slot), ok, st.Look());
      if !ok {
        EncToPrefix(fields, slots, n + 1, |fields|);
        EmitsPrefixFails(a, EncTo(fields, slots, n + 1), Enc(fields, slots), st.Look());
        return;
      }
      EmitsValid(a, EncTo(fields, slots, n + 1), ok, st.Look());
      more := iter.Next();
      n := n + 1;
    }
    ok := true;
  }

  /** pb_get_encoded_size. */
  method GetEncodedSize(fields: seq<Field>, slots: seq<Slot>) returns (ok: bool, size: nat)
    requires TableOk(fields) && IsStruct(fields, slots)
    ensures ok <==> Enc(fields, slots).Wrote?
    ensures ok ==> size == |Enc(fields, slots).bytes|
  {
    hide EncTo, IsStruct, TableOk;
    var st := new OStream.Sizing();
    ok := Encode(st, fields, slots);
    size := st.written;
  }

  /** pb_encode_delimited. */
  method EncodeDelimited(st: OStream, fields: seq<Field>, slots: seq<Slot>) returns (ok: bool)
    requires st.Valid() && TableOk(fields) && IsStruct(fields, slots)
    modifies st, st.buf
    ensures Emits(old(st.Look()), EncDelimited(fields, slots), ok, st.Look())
  {
    ok := EncodeSubmessage(st, fields, slots);
  }

  /** pb_encode_nullterminated. */
  method EncodeNullTerminated(st: OStream, fields: seq<Field>, slots: seq<Slot>) returns (ok: bool)
    requires st.Valid() && TableOk(fields) && IsStruct(fields, slots)
    modifies st, st.buf
    ensures Emits(old(st.Look()), EncNullTerminated(fields, slots), ok, st.Look())
  {
    hide EncTo, IsStruct, TableOk;
    ghost var a := st.Look();
    ok := Encode(st, fields, slots);
    if !ok {
      EmitsFirstFails(a, Enc(fields, slots), Wrote([0]), st.Look());
      return;
    }
    ghost var m := st.Look();
    ok := st.Write([0]);
    EmitsBoth(a, Enc(fields, slots), m, Wrote([0]), ok, st.Look());
  }

  /**
   The sizing pass agrees with the writing pass: encoding into a buffer succeeds exactly when sizing
   does and the size fits, fills exactly that many bytes from the start, and leaves the others alone.
   */
  method EncodeToBuffer(buf: array<Byte>, fields: seq<Field>, slots: seq<Slot>)
    returns (ok: bool, length: nat, sized: bool, size: nat)
    requires TableOk(fields) && IsStruct(fields, slots)
    modifies buf
    ensures ok <==> sized && size <= buf.Length
    ensures ok ==> length == size && length <= buf.Length
    ensures ok ==> Enc(fields, slots) == Wrote(buf[..length]) && buf[length..] == old(buf[length..])
  {
    hide EncTo, IsStruct, TableOk;
    sized, size := GetEncodedSize(fields, slots);
    var st := new OStream.FromBuffer(buf);
    ok := Encode(st, fields, slots);
    length := st.written;
  }
}
