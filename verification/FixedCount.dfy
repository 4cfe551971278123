/** Fixed-count arrays across messages: when two encoded messages, one after the other, merge. */
module FixedCount {
  import opened Wire
  import opened Descriptor
  import opened Encoding
  import opened Decoding
  import opened Merge
  import RoundTrip
  import Limits
  import Presence
  import Versions

  // ---------------------------------------------------------------- what decoding consumes

  /** Over any storage, decoding an encoded value fails or consumes exactly its encoding. */
  lemma ValueConsumed(f: Field, v: Value, prev: Value, t: Bytes)
    requires EncValue(f, v).Wrote? && |EncValue(f, v).bytes| < TWO63
    ensures var r := DecValue(f, prev, EncValue(f, v).bytes + t); r.Done? ==> r.rest == t
  {
    hide Dec32, Dec64, EncVarint, Integer, Delimited, EncString, EncTo, LittleEndian, DecMessage, CString;
    hide FromLittleEndian;
    var e := EncValue(f, v).bytes;
    match f.ltype
    case LBool => Dec32RoundTrip(if v.n != 0 then 1 else 0, t);
    case LFixed32 => TakeAppend(e, t);
    case LFixed64 => TakeAppend(e, t);
    case LBytes => Lengths(v.b, t);
    case LString => Lengths(CString(v.b, f.dataSize), t);
    case LFixedLengthBytes => Lengths(v.b, t);
    case LSubmessage => Lengths(EncTo(f.sub, v.slots, |f.sub|).bytes, t);
    case LVarint => Dec64RoundTrip(ToU64(v.n), t);
    case LUVarint => Dec64RoundTrip(ToU64(v.n), t);
    case LSVarint => Dec64RoundTrip(ZigZag(v.n), t);
  }

  /** A length of 2^32 or more is refused. */
  lemma Lengths(b: Bytes, t: Bytes)
    requires |EncString(b)| < TWO63
    ensures Delimited(EncString(b) + t) == if |b| < TWO32 then Done(b, t) else Fail
    ensures Dec32(EncString(b) + t) == if |b| < TWO32 then Done(|b|, b + t) else Fail
    ensures |b| < TWO32 ==> Take(b + t, |b|) == Done(b, t)
    ensures |b| == 0 ==> b + t == t
  {
    Limits.LongLengthsRefused(b, t);
    if |b| < TWO32 { RoundTrip.StringRoundTrip(b, t); }
  }

  /** The same of one element or value under its tag, and of a packed run. */
  lemma FieldConsumes(fields: seq<Field>, i: nat, p: Progress, v: Value, t: Bytes)
    requires i < |fields| && EncValue(fields[i], v).Wrote? && |EncValue(fields[i], v).bytes| < TWO63
    requires fields[i].htype.Repeated? ==> !fields[i].Packable()
    ensures var r := DecField(fields, i, p, WireType(fields[i].ltype), EncValue(fields[i], v).bytes + t);
            r.Done? ==> r.rest == t && r.value.fixedField == if fields[i].FixedCount() then i else p.fixedField
  {
    hide DecValue, EncValue;
    var f, k := fields[i], SlotOf(fields, i);
    if k < |p.slots| {
      var slot, count := p.slots[k], if p.fixedField == i then p.fixedCount else 0;
      if f.FixedCount() && slot.Fixed? && |slot.items| == f.arraySize && count < f.arraySize {
        ValueConsumed(f, v, slot.items[count], t);
      }
      if slot.Single? || slot.Flagged? { ValueConsumed(f, v, slot.v, t); }
      ValueConsumed(f, v, DefaultValue(f, Num(0)), t);
    }
  }

  lemma RunConsumes(fields: seq<Field>, i: nat, p: Progress, run: Bytes, t: Bytes)
    requires i < |fields| && fields[i].htype.Repeated? && fields[i].Packable() && |EncString(run)| < TWO63
    ensures var r := DecField(fields, i, p, WT_STRING, EncString(run) + t);
            r.Done? ==> r.rest == t && r.value.fixedField == if fields[i].FixedCount() then i else p.fixedField
  {
    hide DecPacked, EncString, Delimited;
    Lengths(run, t);
  }

  // ---------------------------------------------------------------- one entry after another

  /** A fixed-count array with entries, which the encoder always writes. */
  predicate Full(f: Field) { f.FixedCount() && f.arraySize > 0 }

  /** The array under way once the loop is past some bytes: entry `i`, if it was one of these. */
  function UnderWay(fields: seq<Field>, i: nat, before: int): int
    requires i < |fields|
  {
    if Full(fields[i]) then i else before
  }

  /** The loop is past the bytes `e` of entry `i`, with progress `q`. */
  predicate Passed(fields: seq<Field>, i: nat, p: Progress, e: Bytes, t: Bytes, q: Progress)
    requires i < |fields|
  {
    && DecLoop(fields, p, e + t) == DecLoop(fields, q, t)
    && FirstFixed(fields, p.slots, e + t)
       == (if e != [] && Full(fields[i]) then Some(i) else FirstFixed(fields, q.slots, t))
    && q.fixedField == if e == [] then p.fixedField else UnderWay(fields, i, p.fixedField)
  }

  lemma NothingPassed(fields: seq<Field>, i: nat, p: Progress, t: Bytes)
    requires i < |fields|
    ensures Passed(fields, i, p, [], t, p)
  {
    hide DecLoop, FirstFixed;
    assert [] + t == t;
  }

  /** What the bytes come to first, in terms of their first tag. */
  lemma FirstTag(fields: seq<Field>, slots: seq<Slot>, s: Bytes, wt: nat, tag: nat, rest: Bytes)
    requires s != [] && DecTag(s) == Tag(wt, tag, rest)
    ensures FirstFixed(fields, slots, s)
         == if TouchesFixed(fields, tag) then Some(Lookup(fields, tag))
            else var r := DecStep(fields, Start(slots), wt, tag, rest);
                 if r.Fail? then None else FirstFixed(fields, r.value.slots, r.rest)
  {
    hide DecStep, Lookup, DecTag;
  }

  /** A step on a field of the table. */
  lemma StepOnField(fields: seq<Field>, i: nat, p: Progress, wt: nat, s: Bytes)
    requires TableOk(fields) && i < |fields|
    ensures Lookup(fields, fields[i].tag) == i && (TouchesFixed(fields, fields[i].tag) <==> fields[i].FixedCount())
    ensures DecStep(fields, p, wt, fields[i].tag, s) == DecField(fields, i, p, wt, s)
  {
    LookupUnique(fields, i);
    hide DecField, Lookup;
  }

  lemma PieceFirst(fields: seq<Field>, i: nat, p: Progress, wt: nat, s: Bytes)
    requires TableOk(fields) && i < |fields| && wt < 8
    ensures EncTag(fields[i].tag, wt) != []
    ensures FirstFixed(fields, p.slots, EncTag(fields[i].tag, wt) + s)
         == if fields[i].FixedCount() then Some(i)
            else match DecField(fields, i, p, wt, s)
                 case Fail => None
                 case Done(q, rest) => FirstFixed(fields, q.slots, rest)
  {
    var tag := fields[i].tag;
    assert FieldOk(fields[i]);
    hide DecField, DecStep, DecTag, FieldOk, FirstFixed, TouchesFixed, Lookup, TableOk, EncTag;
    Versions.TagRead(tag, wt, s);
    TagIsSomething(tag, wt);
    StepOnField(fields, i, p, wt, s);
    FirstTag(fields, p.slots, EncTag(tag, wt) + s, wt, tag, s);
    if !fields[i].FixedCount() {
      StepOnSlots(fields, p, wt, tag, s);
    }
  }

  /** A tag and what belongs to it. */
  lemma PiecePassed(fields: seq<Field>, i: nat, p: Progress, wt: nat, payload: Bytes, t: Bytes) returns (q: Progress)
    requires TableOk(fields) && i < |fields| && wt < 8 && (fields[i].FixedCount() ==> fields[i].arraySize > 0)
    requires var r := DecField(fields, i, p, wt, payload + t);
             r.Done? ==> r.rest == t && r.value.fixedField == if fields[i].FixedCount() then i else p.fixedField
    requires !DecLoop(fields, p, EncTag(fields[i].tag, wt) + payload + t).LoopFail?
    ensures EncTag(fields[i].tag, wt) + payload != []
    ensures Passed(fields, i, p, EncTag(fields[i].tag, wt) + payload, t, q)
  {
    var s, tag := payload + t, EncTag(fields[i].tag, wt);
    hide DecField, DecLoop, FirstFixed, EncTag, TableOk;
    assert tag + payload + t == tag + s;
    RoundTrip.KnownField(fields, i, p, wt, s);
    q := DecField(fields, i, p, wt, s).value;
    PieceFirst(fields, i, p, wt, s);
  }

  lemma TagIsSomething(tag: nat, wt: nat)
    ensures EncTag(tag, wt) != []
  {
    hide EncVarint;
  }

  /** What is passed in two pieces. */
  lemma PassedTwice(fields: seq<Field>, i: nat, p: Progress, d: Bytes, m: Progress, e: Bytes, t: Bytes, q: Progress)
    requires i < |fields| && Passed(fields, i, p, d, e + t, m) && Passed(fields, i, m, e, t, q)
    ensures Passed(fields, i, p, d + e, t, q)
  {
    hide DecLoop, FirstFixed;
    assert d + e + t == d + (e + t);
    if d == [] {
      assert d + (e + t) == e + t && d + e == e;
    } else if e == [] {
      assert d + e == d;
    }
  }

  lemma TaggedPassed(fields: seq<Field>, i: nat, p: Progress, v: Value, t: Bytes) returns (q: Progress)
    requires TableOk(fields) && i < |fields| && (fields[i].FixedCount() ==> fields[i].arraySize > 0)
    requires EncTagged(fields[i], v).Wrote? && |EncTagged(fields[i], v).bytes| < TWO63
    requires fields[i].htype.Repeated? ==> !fields[i].Packable()
    requires !DecLoop(fields, p, EncTagged(fields[i], v).bytes + t).LoopFail?
    ensures EncTagged(fields[i], v).bytes != [] && Passed(fields, i, p, EncTagged(fields[i], v).bytes, t, q)
  {
    hide DecLoop, EncValue, DecField, Passed;
    FieldConsumes(fields, i, p, v, t);
    q := PiecePassed(fields, i, p, WireType(fields[i].ltype), EncValue(fields[i], v).bytes, t);
  }

  lemma {:induction false} ItemsPassed(fields: seq<Field>, i: nat, p: Progress, items: seq<Value>, t: Bytes)
    returns (q: Progress)
    requires TableOk(fields) && i < |fields| && (fields[i].FixedCount() ==> fields[i].arraySize > 0)
    requires EncUnpacked(fields[i], items).Wrote? && |EncUnpacked(fields[i], items).bytes| < TWO63
    requires fields[i].htype.Repeated? && !fields[i].Packable()
    requires !DecLoop(fields, p, EncUnpacked(fields[i], items).bytes + t).LoopFail?
    ensures Passed(fields, i, p, EncUnpacked(fields[i], items).bytes, t, q)
    decreases |items|
  {
    hide DecLoop, EncTagged, Passed;
    var f := fields[i];
    if items == [] {
      q := p;
      NothingPassed(fields, i, p, t);
    } else {
      var front, last := EncUnpacked(f, items[..|items| - 1]), EncTagged(f, items[|items| - 1]);
      assert EncUnpacked(f, items).bytes + t == front.bytes + (last.bytes + t);
      var m := ItemsPassed(fields, i, p, items[..|items| - 1], last.bytes + t);
      PassedLoop(fields, i, p, front.bytes, last.bytes + t, m);
      q := TaggedPassed(fields, i, m, items[|items| - 1], t);
      PassedTwice(fields, i, p, front.bytes, m, last.bytes, t, q);
    }
  }

  lemma PassedLoop(fields: seq<Field>, i: nat, p: Progress, e: Bytes, t: Bytes, q: Progress)
    requires i < |fields| && Passed(fields, i, p, e, t, q)
    ensures DecLoop(fields, p, e + t) == DecLoop(fields, q, t)
  {
    hide DecLoop;
  }

  lemma ArrayPassed(fields: seq<Field>, i: nat, p: Progress, items: seq<Value>, t: Bytes) returns (q: Progress)
    requires TableOk(fields) && i < |fields| && fields[i].htype.Repeated?
    requires EncArray(fields[i], items).Wrote? && |EncArray(fields[i], items).bytes| < TWO63
    requires !DecLoop(fields, p, EncArray(fields[i], items).bytes + t).LoopFail?
    ensures Passed(fields, i, p, EncArray(fields[i], items).bytes, t, q)
  {
    hide DecLoop, EncPacked, EncUnpacked, DecField, Passed, EncTag, EncString;
    var f := fields[i];
    if items == [] {
      q := p;
      NothingPassed(fields, i, p, t);
    } else if f.Packable() {
      var run := EncPacked(f, items).bytes;
      RunConsumes(fields, i, p, run, t);
      q := PiecePassed(fields, i, p, WT_STRING, EncString(run), t);
    } else {
      q := ItemsPassed(fields, i, p, items, t);
    }
  }

  /** Whatever an entry writes, a loop that does not fail gets past exactly that. */
  lemma EntryPassed(fields: seq<Field>, i: nat, p: Progress, slot: Slot, t: Bytes) returns (q: Progress)
    requires TableOk(fields) && i < |fields|
    requires EncField(fields[i], slot).Wrote? && |EncField(fields[i], slot).bytes| < TWO63
    requires !DecLoop(fields, p, EncField(fields[i], slot).bytes + t).LoopFail?
    ensures Passed(fields, i, p, EncField(fields[i], slot).bytes, t, q)
    ensures Full(fields[i]) ==> EncField(fields[i], slot).bytes != []
  {
    hide DecLoop, EncTagged, EncArray, IsDefault, Passed;
    var f := fields[i];
    if f.htype.Repeated? {
      Presence.ArrayNotEmpty(f, slot.items);
      q := ArrayPassed(fields, i, p, slot.items, t);
    } else if EncField(f, slot).bytes == [] {
      q := p;
      NothingPassed(fields, i, p, t);
    } else {
      q := TaggedPassed(fields, i, p, slot.v, t);
    }
  }

  // ---------------------------------------------------------------- a whole message

  /** The first of the first `n` entries that is such an array, the last one, and their number. */
  function FirstFull(fields: seq<Field>, n: nat): (r: Option<nat>)
    requires n <= |fields|
    ensures r.Some? ==> r.value < n
  {
    if n == 0 then None
    else if FirstFull(fields, n - 1).Some? then FirstFull(fields, n - 1)
    else if Full(fields[n - 1]) then Some(n - 1) else None
  }

  function LastFull(fields: seq<Field>, n: nat, before: int): int
    requires n <= |fields|
  {
    if n == 0 then before else UnderWay(fields, n - 1, LastFull(fields, n - 1, before))
  }

  function FullCount(fields: seq<Field>, n: nat): nat
    requires n <= |fields|
  {
    if n == 0 then 0 else FullCount(fields, n - 1) + if Full(fields[n - 1]) then 1 else 0
  }

  /** The first and the last such array are one and the same exactly when there is one. */
  lemma {:induction false} OnlyOne(fields: seq<Field>, n: nat)
    requires n <= |fields|
    ensures FullCount(fields, n) == 0 <==> FirstFull(fields, n) == None
    ensures FullCount(fields, n) == 0 ==> LastFull(fields, n, -1) == -1
    ensures FullCount(fields, n) > 0 ==> 0 <= LastFull(fields, n, -1) < n && Full(fields[LastFull(fields, n, -1)])
    ensures FullCount(fields, n) > 0 ==> FirstFull(fields, n).value <= LastFull(fields, n, -1)
    ensures FullCount(fields, n) == 1 <==> FirstFull(fields, n) == Some(LastFull(fields, n, -1))
  {
    if n > 0 { OnlyOne(fields, n - 1); }
  }

  /** What the loop comes to in an encoded message: its fixed-count arrays, from the first to the last. */
  lemma {:induction false} MessagePassed(fields: seq<Field>, m: seq<Slot>, p: Progress, n: nat, t: Bytes)
    returns (q: Progress)
    requires TableOk(fields) && n <= |fields|
    requires EncTo(fields, m, n).Wrote? && |EncTo(fields, m, n).bytes| < TWO63
    requires !DecLoop(fields, p, EncTo(fields, m, n).bytes + t).LoopFail?
    ensures DecLoop(fields, p, EncTo(fields, m, n).bytes + t) == DecLoop(fields, q, t)
    ensures q.fixedField == LastFull(fields, n, p.fixedField)
    ensures FirstFixed(fields, p.slots, EncTo(fields, m, n).bytes + t)
         == if FirstFull(fields, n).Some? then FirstFull(fields, n) else FirstFixed(fields, q.slots, t)
    decreases n
  {
    hide DecLoop, EncField, FirstFixed;
    if n == 0 {
      q := p;
      assert [] + t == t;
    } else {
      var front, last := EncTo(fields, m, n - 1), EncField(fields[n - 1], m[SlotOf(fields, n - 1)]);
      assert EncTo(fields, m, n).bytes + t == front.bytes + (last.bytes + t);
      var r := MessagePassed(fields, m, p, n - 1, last.bytes + t);
      q := EntryPassed(fields, n - 1, r, m[SlotOf(fields, n - 1)], t);
    }
  }

  /**
   Two encoded messages, each decodable where it stands, merge when concatenated if and only if the number
   of non-empty fixed-count arrays of the table is not one: with none there is nothing to resume, and with
   several each message begins with another one than the message before it ended with.
   */
  lemma EncodedMessagesMerge(fields: seq<Field>, slots: seq<Slot>, m1: seq<Slot>, m2: seq<Slot>)
    requires TableOk(fields)
    requires Enc(fields, m1).Wrote? && |Enc(fields, m1).bytes| < TWO63
    requires Enc(fields, m2).Wrote? && |Enc(fields, m2).bytes| < TWO63
    requires DecMessage(fields, slots, Enc(fields, m1).bytes).Done?
    requires DecMessage(fields, DecMessage(fields, slots, Enc(fields, m1).bytes).value, Enc(fields, m2).bytes).Done?
    ensures var one := DecMessage(fields, slots, Enc(fields, m1).bytes).value;
            DecMessage(fields, slots, Enc(fields, m1).bytes + Enc(fields, m2).bytes)
            == DecMessage(fields, one, Enc(fields, m2).bytes)
            <==> FullCount(fields, |fields|) != 1
  {
    hide DecLoop, EncTo, FirstFixed;
    var n, a, b := |fields|, Enc(fields, m1).bytes, Enc(fields, m2).bytes;
    assert a + [] == a && b + [] == b;
    var p := MessagePassed(fields, m1, Start(slots), n, []);
    RoundTrip.LoopEnd(fields, p, []);
    var q := MessagePassed(fields, m2, Start(p.slots), n, []);
    NoFirstFixed(fields, q.slots);
    ConcatOfComplete(fields, slots, a, b);
    OnlyOne(fields, n);
  }

  lemma NoFirstFixed(fields: seq<Field>, slots: seq<Slot>)
    ensures FirstFixed(fields, slots, []) == None
  {
  }
}
