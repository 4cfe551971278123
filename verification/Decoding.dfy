/** What the decoder makes of a byte stream: pb_decode as a function. */
module Decoding {
  import opened Wire
  import opened Descriptor
  import Encoding

  /** PB_MAX_REQUIRED_FIELDS. */
  const MAX_REQUIRED: nat := 64

  // ---------------------------------------------------------------- tags, skipping, substreams

  datatype TagResult = BadTag | EndTag(rest: Bytes) | Tag(wireType: nat, tag: nat, rest: Bytes)

  /** pb_decode_tag on a non-empty stream. A zero word ends the message. */
  function DecTag(s: Bytes): (r: TagResult)
    ensures r.EndTag? ==> IsSuffix(r.rest, s) && |r.rest| < |s|
    ensures r.Tag? ==> IsSuffix(r.rest, s) && |r.rest| < |s| && (r.wireType != 0 || r.tag != 0)
  {
    match Dec32(s)
    case Fail => BadTag
    case Done(w, rest) => if w == 0 then EndTag(rest) else Tag(w % 8, w / 8, rest)
  }

  /** pb_skip_varint: any number of continuation bytes. */
  function SkipVarint(s: Bytes): (r: Parse<()>)
    ensures r.Done? ==> IsSuffix(r.rest, s) && |r.rest| < |s|
  {
    if s == [] then Fail else if s[0] >= 128 then SkipVarint(s[1..]) else Done((), s[1..])
  }

  function TakeUnit(s: Bytes, n: nat): (r: Parse<()>)
    ensures r.Done? ==> IsSuffix(r.rest, s)
  {
    match Take(s, n)
    case Fail => Fail
    case Done(_, rest) => Done((), rest)
  }

  /** A length-delimited piece: pb_make_string_substream, or pb_decode_varint32 then pb_read. */
  function Delimited(s: Bytes): (r: Parse<Bytes>)
    ensures r.Done? ==> IsSuffix(r.rest, s) && |r.rest| < |s| && |r.value| < |s|
  {
    match Dec32(s)
    case Fail => Fail
    case Done(n, rest) => Take(rest, n)
  }

  /** pb_skip_field. */
  function Skip(wt: nat, s: Bytes): (r: Parse<()>)
    ensures r.Done? ==> IsSuffix(r.rest, s)
  {
    if wt == Encoding.WT_VARINT then SkipVarint(s)
    else if wt == Encoding.WT_64BIT then TakeUnit(s, 8)
    else if wt == Encoding.WT_STRING then
      match Delimited(s)
      case Fail => Fail
      case Done(_, rest) => Done((), rest)
    else if wt == Encoding.WT_32BIT then TakeUnit(s, 4)
    else Fail
  }

  // ---------------------------------------------------------------- scalars

  /** The C cast of an unsigned value to a signed integer of `bytes` bytes (two's complement). */
  function ToSigned(v: nat, bytes: nat): int
    requires Encoding.IntegerSize(bytes)
  {
    var m := Modulus(bytes);
    if v % m < m / 2 then v % m else v % m - m
  }

  function Modulus(bytes: nat): (m: nat)
    requires Encoding.IntegerSize(bytes)
    ensures m > 0
  {
    if bytes == 1 then 0x100 else if bytes == 2 then 0x1_0000 else if bytes == 4 then TWO32 else TWO64
  }

  /** pb_dec_varint after the varint: fields below 64 bits go through int32_t, then must fit. */
  function NarrowSigned(v: nat, bytes: nat): Option<int>
    requires Encoding.IntegerSize(bytes)
  {
    Clamp(if bytes == 8 then ToSigned(v, 8) else ToSigned(v, 4), bytes)
  }

  /** The cast to the field's width, and the check that it lost nothing. */
  function Clamp(n: int, bytes: nat): Option<int>
    requires Encoding.IntegerSize(bytes)
  {
    if ToSigned(n % TWO64, bytes) == n then Some(n) else None
  }

  function NarrowUnsigned(v: nat, bytes: nat): Option<int>
    requires Encoding.IntegerSize(bytes)
  {
    if v % Modulus(bytes) == v then Some(v) else None
  }

  /** pb_decode_svarint: undo the zigzag mapping. */
  function UnZigZag(v: nat): int {
    if v % 2 == 1 then ToSigned((TWO64 - 1 - v / 2) % TWO64, 8) else ToSigned(v / 2, 8)
  }

  function FromLittleEndian(b: Bytes): nat {
    if b == [] then 0 else b[0] + 256 * FromLittleEndian(b[1..])
  }

  /** What an integer field makes of a 64-bit varint. */
  function Integer(lt: LType, bytes: nat, v: nat): Option<int> {
    if !Encoding.IntegerSize(bytes) then None
    else if lt.LVarint? then NarrowSigned(v, bytes)
    else if lt.LUVarint? then NarrowUnsigned(v, bytes)
    else Clamp(UnZigZag(v), bytes)
  }

  // ---------------------------------------------------------------- fields

  /** The pb_dec_* functions: decode one item over what the storage holds. */
  function DecValue(f: Field, prev: Value, s: Bytes): (r: Parse<Value>)
    ensures r.Done? ==> IsSuffix(r.rest, s)
    decreases f, 0, 0
  {
    match f.ltype
    case LBool =>
      (match Dec32(s)
       case Fail => Fail
       case Done(v, rest) => Done(Num(if v != 0 then 1 else 0), rest))
    case LFixed32 =>
      (match Take(s, 4)
       case Fail => Fail
       case Done(b, rest) => Done(Num(FromLittleEndian(b)), rest))
    case LFixed64 =>
      (match Take(s, 8)
       case Fail => Fail
       case Done(b, rest) => Done(Num(FromLittleEndian(b)), rest))
    case LBytes =>
      (match Dec32(s)
       case Fail => Fail
       case Done(n, rest) => if n + BYTES_OFFSET > f.dataSize then Fail else ToBlob(Take(rest, n)))
    case LString =>
      (match Dec32(s)
       case Fail => Fail
       case Done(n, rest) =>
         // the room for the terminator is computed in 32 bits
         if (n + 1) % TWO32 < n || n + 1 > f.dataSize then Fail else ToBlob(Take(rest, n)))
    case LFixedLengthBytes =>
      (match Dec32(s)
       case Fail => Fail
       case Done(n, rest) =>
         if n == 0 then Done(Blob(seq(f.dataSize, _ => 0)), rest)
         else if n != f.dataSize then Fail
         else ToBlob(Take(rest, n)))
    case LSubmessage =>
      (match Delimited(s)
       case Fail => Fail
       case Done(body, rest) =>
         var slots := if prev.Msg? then prev.slots else [];
         var start := if f.htype.Repeated? then Defaults(f.sub, slots) else slots;
         match DecMessage(f.sub, start, body)
         case Fail => Fail
         case Done(slots', _) => Done(Msg(slots'), rest))
    case _ =>
      (match Dec64(s)
       case Fail => Fail
       case Done(v, rest) =>
         match Integer(f.ltype, f.dataSize, v)
         case None => Fail
         case Some(n) => Done(Num(n), rest))
  }

  function ToBlob(r: Parse<Bytes>): Parse<Value> {
    match r
    case Fail => Fail
    case Done(b, rest) => Done(Blob(b), rest)
  }

  /** The loop over a packed array: items until the data or the room is used up. */
  function DecPacked(f: Field, cur: seq<Value>, s: Bytes): (r: Parse<seq<Value>>)
    ensures r.Done? ==> cur <= r.value && |r.value| <= if |cur| <= f.arraySize then f.arraySize else |cur|
    decreases f, 1, f.arraySize - |cur|
  {
    if s == [] || |cur| >= f.arraySize then Done(cur, s)
    else
      match DecValue(f, DefaultValue(f, Num(0)), s)
      case Fail => Fail
      case Done(v, rest) => DecPacked(f, cur + [v], rest)
  }

  /** A repeated field: `cur` is what it received so far, `prev` what the next entry holds. */
  function DecRepeated(f: Field, wt: nat, cur: seq<Value>, prev: Value, s: Bytes): (r: Parse<seq<Value>>)
    ensures r.Done? ==> IsSuffix(r.rest, s) && cur <= r.value
    ensures r.Done? ==> |r.value| <= if |cur| <= f.arraySize then f.arraySize else |cur|
    decreases f, 2, 0
  {
    if wt == Encoding.WT_STRING && f.Packable() then
      match Delimited(s)
      case Fail => Fail
      case Done(body, rest) =>
        match DecPacked(f, cur, body)
        case Fail => Fail
        case Done(cur', left) => if left != [] then Fail else Done(cur', rest)
    else if |cur| >= f.arraySize then Fail
    else
      match DecValue(f, prev, s)
      case Fail => Fail
      case Done(v, rest) => Done(cur + [v], rest)
  }

  /** A field that is neither repeated nor fixed-count: the new contents of its slot. */
  function DecSingle(fields: seq<Field>, f: Field, slot: Slot, s: Bytes): (r: Parse<Slot>)
    ensures r.Done? ==> IsSuffix(r.rest, s)
    decreases f, 3, 0
  {
    match f.htype
    case Required =>
      if !slot.Single? then Fail
      else (match DecValue(f, slot.v, s) case Fail => Fail case Done(v, rest) => Done(Single(v), rest))
    case Optional =>
      if f.HasSize() then
        if !slot.Flagged? then Fail
        else (match DecValue(f, slot.v, s) case Fail => Fail case Done(v, rest) => Done(Flagged(true, v), rest))
      else
        if !slot.Single? then Fail
        else (match DecValue(f, slot.v, s) case Fail => Fail case Done(v, rest) => Done(Single(v), rest))
    case Repeated => Fail
    case OneOf =>
      // pb_release_union_field: the old selector must name some entry of the table
      if !slot.Union? || (slot.which != 0 && slot.which != f.tag && Lookup(fields, slot.which) == |fields|) then Fail
      else
        // a submessage is cleared first, even when the selector already names it
        match DecValue(f, Cleared(f), s) case Fail => Fail case Done(v, rest) => Done(Union(f.tag, v), rest)
  }

  /** memset to zero, then pb_message_set_to_defaults. */
  function Cleared(f: Field): Value {
    DefaultValue(f, Num(0))
  }

  /** Only a submessage depends on the storage it is decoded over. */
  lemma StorageIrrelevant(f: Field, prev: Value, s: Bytes)
    requires !f.ltype.LSubmessage?
    ensures DecValue(f, prev, s) == DecValue(f, Num(0), s)
  {
    hide Dec32, Dec64;
  }

  // ---------------------------------------------------------------- messages

  /**
   The decoder's variables: the structure, the fixed-count field being received (-1 for none) with its
   running count, and the required fields seen, by their index among the required fields.
   */
  datatype Progress = Progress(slots: seq<Slot>, fixedField: int, fixedCount: nat, seen: set<nat>)

  /** A fixed-count field is done unless some but not all of its entries came. */
  predicate FixedDone(fields: seq<Field>, p: Progress) {
    0 <= p.fixedField < |fields| ==> p.fixedCount == fields[p.fixedField].arraySize
  }

  /** decode_field for entry `i`. */
  function DecField(fields: seq<Field>, i: nat, p: Progress, wt: nat, s: Bytes): (r: Parse<Progress>)
    requires i < |fields|
    ensures r.Done? ==> IsSuffix(r.rest, s)
    decreases fields, |s|, 0
  {
    var f, k := fields[i], SlotOf(fields, i);
    var seen := if f.htype.Required? && RequiredBefore(fields, i) < MAX_REQUIRED
                then p.seen + {RequiredBefore(fields, i)} else p.seen;
    if k >= |p.slots| then Fail
    else if f.FixedCount() then
      if p.fixedField != i && !FixedDone(fields, p) then Fail
      else
        var count := if p.fixedField == i then p.fixedCount else 0;
        if !p.slots[k].Fixed? || |p.slots[k].items| != f.arraySize || count > f.arraySize then Fail
        else
          var items := p.slots[k].items;
          match DecRepeated(f, wt, items[..count], if count < |items| then items[count] else Num(0), s)
          case Fail => Fail
          case Done(cur, rest) =>
            Done(Progress(p.slots[k := Fixed(cur + items[|cur|..])], i, |cur|, seen), rest)
    else if f.htype.Repeated? then
      if !p.slots[k].Many? then Fail
      else
        match DecRepeated(f, wt, p.slots[k].items, DefaultValue(f, Num(0)), s)
        case Fail => Fail
        case Done(cur, rest) => Done(p.(slots := p.slots[k := Many(cur)], seen := seen), rest)
    else
      match DecSingle(fields, f, p.slots[k], s)
      case Fail => Fail
      case Done(slot, rest) => Done(p.(slots := p.slots[k := slot], seen := seen), rest)
  }

  /** One field of the message, after its tag. */
  function DecStep(fields: seq<Field>, p: Progress, wt: nat, tag: nat, s: Bytes): (r: Parse<Progress>)
    ensures r.Done? ==> IsSuffix(r.rest, s)
    decreases fields, |s|, 1
  {
    if fields == [] && tag == 0 then
      // the iterator of an empty table stands on its terminator, which has tag 0 and the type of a bool
      match Dec32(s) case Fail => Fail case Done(_, rest) => Done(p, rest)
    else
      var i := Lookup(fields, tag);
      if i == |fields| then
        match Skip(wt, s) case Fail => Fail case Done(_, rest) => Done(p, rest)
      else DecField(fields, i, p, wt, s)
  }

  datatype LoopResult = LoopFail | Ended(p: Progress) | Stopped(p: Progress, rest: Bytes)

  /** The field loop of pb_decode_noinit: it ends with the stream, or stops at a zero tag. */
  function DecLoop(fields: seq<Field>, p: Progress, s: Bytes): (r: LoopResult)
    ensures r.Stopped? ==> IsSuffix(r.rest, s)
    decreases fields, |s|, 2
  {
    if s == [] then Ended(p)
    else
      match DecTag(s)
      case BadTag => LoopFail
      case EndTag(rest) => Stopped(p, rest)
      case Tag(wt, tag, rest) =>
        match DecStep(fields, p, wt, tag, rest)
        case Fail => LoopFail
        case Done(p', rest') => DecLoop(fields, p', rest')
  }

  /** Every required field the decoder keeps track of was seen. */
  predicate RequiredSeen(fields: seq<Field>, seen: set<nat>) {
    forall k: nat :: k < RequiredBefore(fields, |fields|) && k < MAX_REQUIRED ==> k in seen
  }

  /** The checks after the loop. */
  function Finish(fields: seq<Field>, p: Progress, rest: Bytes): Parse<seq<Slot>> {
    if FixedDone(fields, p) && RequiredSeen(fields, p.seen) then Done(p.slots, rest) else Fail
  }

  function Start(slots: seq<Slot>): Progress {
    Progress(slots, -1, 0, {})
  }

  /** pb_decode_noinit. */
  function DecMessage(fields: seq<Field>, slots: seq<Slot>, s: Bytes): (r: Parse<seq<Slot>>)
    ensures r.Done? ==> IsSuffix(r.rest, s)
    decreases fields, |s|, 3
  {
    match DecLoop(fields, Start(slots), s)
    case LoopFail => Fail
    case Ended(p) => Finish(fields, p, [])
    case Stopped(p, rest) => Finish(fields, p, rest)
  }

  /** pb_decode. */
  function Dec(fields: seq<Field>, slots: seq<Slot>, s: Bytes): (r: Parse<seq<Slot>>)
    ensures r.Done? ==> IsSuffix(r.rest, s)
  {
    DecMessage(fields, Defaults(fields, slots), s)
  }

  /** pb_decode_delimited: whatever the message leaves of its substream is skipped. */
  function DecDelimited(fields: seq<Field>, prev: seq<Slot>, s: Bytes): Parse<seq<Slot>> {
    match Delimited(s)
    case Fail => Fail
    case Done(body, rest) =>
      match Dec(fields, prev, body)
      case Fail => Fail
      case Done(slots, _) => Done(slots, rest)
  }
}
