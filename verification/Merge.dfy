/** How the decoder treats concatenated messages and unknown fields. */
module Merge {
  import opened Wire
  import opened Descriptor
  import opened Decoding
  import Encoding

  // ---------------------------------------------------------------- bytes that follow do not matter

  lemma DelimitedStable(s: Bytes, t: Bytes)
    requires Delimited(s).Done?
    ensures Delimited(s + t) == Done(Delimited(s).value, Delimited(s).rest + t)
  {
    Dec32Stable(s, t);
    TakeStable(Dec32(s).rest, t, Dec32(s).value);
  }

  lemma {:induction false} SkipVarintStable(s: Bytes, t: Bytes)
    requires SkipVarint(s).Done?
    ensures SkipVarint(s + t) == Done((), SkipVarint(s).rest + t)
  {
    assert (s + t)[1..] == s[1..] + t;
    if s[0] >= 128 { SkipVarintStable(s[1..], t); }
  }

  lemma SkipStable(wt: nat, s: Bytes, t: Bytes)
    requires Skip(wt, s).Done?
    ensures Skip(wt, s + t) == Done((), Skip(wt, s).rest + t)
  {
    if wt == Encoding.WT_VARINT {
      SkipVarintStable(s, t);
    } else if wt == Encoding.WT_64BIT {
      TakeStable(s, t, 8);
    } else if wt == Encoding.WT_STRING {
      DelimitedStable(s, t);
    } else {
      TakeStable(s, t, 4);
    }
  }

  lemma DecValueStable(f: Field, prev: Value, s: Bytes, t: Bytes)
    requires DecValue(f, prev, s).Done?
    ensures DecValue(f, prev, s + t) == Done(DecValue(f, prev, s).value, DecValue(f, prev, s).rest + t)
  {
    hide Dec32, Dec64, DecMessage, Defaults, Integer;
    match f.ltype
    case LBool => Dec32Stable(s, t);
    case LFixed32 => TakeStable(s, t, 4);
    case LFixed64 => TakeStable(s, t, 8);
    case LBytes =>
      Dec32Stable(s, t);
      TakeStable(Dec32(s).rest, t, Dec32(s).value);
    case LString =>
      Dec32Stable(s, t);
      TakeStable(Dec32(s).rest, t, Dec32(s).value);
    case LFixedLengthBytes =>
      Dec32Stable(s, t);
      if Dec32(s).value != 0 { TakeStable(Dec32(s).rest, t, Dec32(s).value); }
    case LSubmessage => DelimitedStable(s, t);
    case _ => Dec64Stable(s, t);
  }

  lemma DecRepeatedStable(f: Field, wt: nat, cur: seq<Value>, prev: Value, s: Bytes, t: Bytes)
    requires DecRepeated(f, wt, cur, prev, s).Done?
    ensures DecRepeated(f, wt, cur, prev, s + t)
         == Done(DecRepeated(f, wt, cur, prev, s).value, DecRepeated(f, wt, cur, prev, s).rest + t)
  {
    hide DecPacked, DecValue;
    if wt == Encoding.WT_STRING && f.Packable() {
      DelimitedStable(s, t);
    } else {
      DecValueStable(f, prev, s, t);
    }
  }

  lemma DecSingleStable(fields: seq<Field>, f: Field, slot: Slot, s: Bytes, t: Bytes)
    requires DecSingle(fields, f, slot, s).Done?
    ensures DecSingle(fields, f, slot, s + t)
         == Done(DecSingle(fields, f, slot, s).value, DecSingle(fields, f, slot, s).rest + t)
  {
    hide DecValue;
    DecValueStable(f, if slot.Union? then Cleared(f) else slot.v, s, t);
  }

  lemma DecFieldStable(fields: seq<Field>, i: nat, p: Progress, wt: nat, s: Bytes, t: Bytes)
    requires i < |fields| && DecField(fields, i, p, wt, s).Done?
    ensures DecField(fields, i, p, wt, s + t)
         == Done(DecField(fields, i, p, wt, s).value, DecField(fields, i, p, wt, s).rest + t)
  {
    hide DecRepeated, DecSingle;
    var f, slot := fields[i], p.slots[SlotOf(fields, i)];
    if f.FixedCount() {
      var count := if p.fixedField == i then p.fixedCount else 0;
      DecRepeatedStable(f, wt, slot.items[..count], if count < |slot.items| then slot.items[count] else Num(0), s, t);
    } else if f.htype.Repeated? {
      DecRepeatedStable(f, wt, slot.items, DefaultValue(f, Num(0)), s, t);
    } else {
      DecSingleStable(fields, f, slot, s, t);
    }
  }

  lemma DecStepStable(fields: seq<Field>, p: Progress, wt: nat, tag: nat, s: Bytes, t: Bytes)
    requires DecStep(fields, p, wt, tag, s).Done?
    ensures DecStep(fields, p, wt, tag, s + t)
         == Done(DecStep(fields, p, wt, tag, s).value, DecStep(fields, p, wt, tag, s).rest + t)
  {
    hide DecField, Dec32, Skip;
    if fields == [] && tag == 0 {
      Dec32Stable(s, t);
    } else if Lookup(fields, tag) == |fields| {
      SkipStable(wt, s, t);
    } else {
      DecFieldStable(fields, Lookup(fields, tag), p, wt, s, t);
    }
  }

  /** Appending bytes to a message: after its end the loop goes on with them; after a zero tag they are left. */
  lemma {:induction false} LoopConcat(fields: seq<Field>, p: Progress, a: Bytes, b: Bytes)
    ensures DecLoop(fields, p, a).Ended? ==> DecLoop(fields, p, a + b) == DecLoop(fields, DecLoop(fields, p, a).p, b)
    ensures DecLoop(fields, p, a).Stopped?
         ==> DecLoop(fields, p, a + b) == Stopped(DecLoop(fields, p, a).p, DecLoop(fields, p, a).rest + b)
    decreases |a|
  {
    hide Dec32, DecStep;
    if a == [] {
      assert a + b == b;
    } else if !DecLoop(fields, p, a).LoopFail? {
      Dec32Stable(a, b);
      match DecTag(a)
      case EndTag(rest) =>
      case Tag(wt, tag, rest) =>
        DecStepStable(fields, p, wt, tag, rest, b);
        var r := DecStep(fields, p, wt, tag, rest);
        LoopConcat(fields, r.value, r.rest, b);
    }
  }

  // ---------------------------------------------------------------- concatenation is merging

  /** Required fields already seen are carried along and change nothing else. */
  function SeenMore(p: Progress, more: set<nat>): Progress {
    p.(seen := p.seen + more)
  }

  lemma StepSeenMore(fields: seq<Field>, p: Progress, more: set<nat>, wt: nat, tag: nat, s: Bytes)
    ensures DecStep(fields, SeenMore(p, more), wt, tag, s).Done? == DecStep(fields, p, wt, tag, s).Done?
    ensures DecStep(fields, p, wt, tag, s).Done? ==>
              DecStep(fields, SeenMore(p, more), wt, tag, s)
              == Done(SeenMore(DecStep(fields, p, wt, tag, s).value, more), DecStep(fields, p, wt, tag, s).rest)
  {
    hide DecRepeated, DecSingle, Skip, Dec32;
    var i := Lookup(fields, tag);
    if i < |fields| {
      var req := RequiredBefore(fields, i);
      assert p.seen + {req} + more == p.seen + more + {req};
    }
  }

  lemma {:induction false} LoopSeenMore(fields: seq<Field>, p: Progress, more: set<nat>, s: Bytes)
    ensures DecLoop(fields, SeenMore(p, more), s)
         == match DecLoop(fields, p, s)
            case LoopFail => LoopFail
            case Ended(q) => Ended(SeenMore(q, more))
            case Stopped(q, rest) => Stopped(SeenMore(q, more), rest)
    decreases |s|
  {
    hide DecTag, DecStep;
    if s != [] && DecTag(s).Tag? {
      var tg := DecTag(s);
      StepSeenMore(fields, p, more, tg.wireType, tg.tag, tg.rest);
      var r := DecStep(fields, p, tg.wireType, tg.tag, tg.rest);
      if r.Done? { LoopSeenMore(fields, r.value, more, r.rest); }
    }
  }

  lemma StepSeenGrows(fields: seq<Field>, p: Progress, wt: nat, tag: nat, s: Bytes)
    ensures var r := DecStep(fields, p, wt, tag, s); r.Done? ==> p.seen <= r.value.seen
  {
    hide DecRepeated, DecSingle, Skip, Dec32;
  }

  /** The loop only adds to the required fields seen. */
  lemma {:induction false} LoopSeenGrows(fields: seq<Field>, p: Progress, s: Bytes)
    ensures var r := DecLoop(fields, p, s); !r.LoopFail? ==> p.seen <= r.p.seen
    decreases |s|
  {
    hide DecTag, DecStep;
    if s != [] && DecTag(s).Tag? {
      var tg := DecTag(s);
      StepSeenGrows(fields, p, tg.wireType, tg.tag, tg.rest);
      var r := DecStep(fields, p, tg.wireType, tg.tag, tg.rest);
      if r.Done? { LoopSeenGrows(fields, r.value, r.rest); }
    }
  }

  /** The same progress with another fixed-count array under way, or with none. */
  function WithFixed(p: Progress, field: int, count: nat): Progress {
    p.(fixedField := field, fixedCount := count)
  }

  /** The tag belongs to a fixed-count array. */
  predicate TouchesFixed(fields: seq<Field>, tag: nat) {
    Lookup(fields, tag) < |fields| && fields[Lookup(fields, tag)].FixedCount()
  }

  /** Other fields neither look at the array under way nor change it. */
  lemma StepFixedFree(fields: seq<Field>, p: Progress, field: int, count: nat, wt: nat, tag: nat, s: Bytes)
    requires !TouchesFixed(fields, tag)
    ensures var r, q := DecStep(fields, p, wt, tag, s), DecStep(fields, WithFixed(p, field, count), wt, tag, s);
            && (r.Fail? <==> q.Fail?)
            && (r.Done? ==> r.value.fixedField == p.fixedField && r.value.fixedCount == p.fixedCount
                            && q == Done(WithFixed(r.value, field, count), r.rest))
  {
    hide DecRepeated, DecSingle, Skip, Dec32;
  }

  /** Whatever was counted and seen before, such a field does the same to the structure. */
  lemma StepOnSlots(fields: seq<Field>, p: Progress, wt: nat, tag: nat, s: Bytes)
    requires !TouchesFixed(fields, tag)
    ensures var r, q := DecStep(fields, p, wt, tag, s), DecStep(fields, Start(p.slots), wt, tag, s);
            && (r.Fail? <==> q.Fail?)
            && (r.Done? ==> r.value.slots == q.value.slots && r.rest == q.rest)
  {
    hide DecStep;
    assert p == SeenMore(p.(seen := {}), p.seen);
    StepSeenMore(fields, p.(seen := {}), p.seen, wt, tag, s);
    StepFixedFree(fields, p.(seen := {}), -1, 0, wt, tag, s);
  }

  /** The fixed-count array that the bytes come to first, before they end, stop or go wrong. */
  function FirstFixed(fields: seq<Field>, slots: seq<Slot>, s: Bytes): Option<nat>
    decreases |s|
  {
    if s == [] then None
    else
      match DecTag(s)
      case BadTag => None
      case EndTag(_) => None
      case Tag(wt, tag, rest) =>
        if TouchesFixed(fields, tag) then Some(Lookup(fields, tag))
        else
          match DecStep(fields, Start(slots), wt, tag, rest)
          case Fail => None
          case Done(q, more) => FirstFixed(fields, q.slots, more)
  }

  /** What a loop leaves when the required fields were all seen before it. */
  function Conclude(fields: seq<Field>, r: LoopResult): Parse<seq<Slot>> {
    match r
    case LoopFail => Fail
    case Ended(p) => if FixedDone(fields, p) then Done(p.slots, []) else Fail
    case Stopped(p, rest) => if FixedDone(fields, p) then Done(p.slots, rest) else Fail
  }

  /** Going on from `p` and starting afresh from its structure come to the same, up to the next fixed-count array. */
  lemma {:induction false} SameUnlessResumed(fields: seq<Field>, p: Progress, s: Bytes)
    requires FixedDone(fields, p) && -1 <= p.fixedField < |fields|
    requires FirstFixed(fields, p.slots, s) == Some(p.fixedField) ==> fields[p.fixedField].arraySize == 0
    ensures Conclude(fields, DecLoop(fields, p, s)) == Conclude(fields, DecLoop(fields, WithFixed(p, -1, 0), s))
    decreases |s|
  {
    hide DecTag, DecStep;
    if s != [] && DecTag(s).Tag? {
      var tg, q := DecTag(s), WithFixed(p, -1, 0);
      var wt, tag, rest := tg.wireType, tg.tag, tg.rest;
      if TouchesFixed(fields, tag) {
        FirstTouch(fields, p, wt, tag, rest);
      } else {
        StepFixedFree(fields, p, -1, 0, wt, tag, rest);
        StepOnSlots(fields, p, wt, tag, rest);
        var r := DecStep(fields, p, wt, tag, rest);
        if r.Done? { SameUnlessResumed(fields, r.value, r.rest); }
      }
    }
  }

  /** An array without entries, or another one than that under way, is begun alike. */
  lemma FirstTouch(fields: seq<Field>, p: Progress, wt: nat, tag: nat, s: Bytes)
    requires FixedDone(fields, p) && -1 <= p.fixedField < |fields| && TouchesFixed(fields, tag)
    requires Lookup(fields, tag) == p.fixedField ==> fields[p.fixedField].arraySize == 0
    ensures DecStep(fields, p, wt, tag, s) == DecStep(fields, WithFixed(p, -1, 0), wt, tag, s)
  {
    hide DecRepeated;
  }

  /** The array under way is full, and a message that came to it again would have to fill it anew. */
  lemma {:induction false} NeverBoth(fields: seq<Field>, p: Progress, s: Bytes)
    requires 0 <= p.fixedField < |fields| && fields[p.fixedField].arraySize > 0
    requires p.fixedCount == fields[p.fixedField].arraySize
    ensures var anew := WithFixed(p, p.fixedField, 0);
            Conclude(fields, DecLoop(fields, p, s)).Fail? || Conclude(fields, DecLoop(fields, anew, s)).Fail?
    decreases |s|
  {
    hide DecTag, DecStep;
    if s != [] && DecTag(s).Tag? {
      var tg := DecTag(s);
      var wt, tag, rest := tg.wireType, tg.tag, tg.rest;
      if TouchesFixed(fields, tag) {
        if Lookup(fields, tag) == p.fixedField {
          AgainOnFull(fields, p, p.fixedField, wt, tag, rest);
          var r := DecStep(fields, p, wt, tag, rest);
          if r.Done? { NeverBoth(fields, p.(seen := r.value.seen), r.rest); }
        } else {
          OtherOnOpen(fields, WithFixed(p, p.fixedField, 0), wt, tag, rest);
        }
      } else {
        StepFixedFree(fields, p, p.fixedField, 0, wt, tag, rest);
        var r := DecStep(fields, p, wt, tag, rest);
        if r.Done? { NeverBoth(fields, r.value, r.rest); }
      }
    }
  }

  /** A full array takes an empty run at most, which leaves an empty one empty. */
  lemma FullTakesNothing(f: Field, wt: nat, items: seq<Value>, prev: Value, next: Value, s: Bytes)
    requires |items| == f.arraySize > 0
    ensures var r := DecRepeated(f, wt, items, prev, s);
            r.Done? ==> r.value == items && DecRepeated(f, wt, [], next, s) == Done([], r.rest)
  {
    hide DecValue;
  }

  /** So a step on a full array changes nothing, and started afresh it leaves the array as empty as before. */
  lemma AgainOnFull(fields: seq<Field>, p: Progress, start: int, wt: nat, tag: nat, s: Bytes)
    requires TouchesFixed(fields, tag) && Lookup(fields, tag) == p.fixedField
    requires fields[p.fixedField].arraySize > 0 && p.fixedCount == fields[p.fixedField].arraySize
    requires start == p.fixedField || start == -1
    ensures var r := DecStep(fields, p, wt, tag, s);
            r.Done? ==> r.value == p.(seen := r.value.seen)
                        && DecStep(fields, WithFixed(p, start, 0), wt, tag, s)
                           == Done(WithFixed(r.value, p.fixedField, 0), r.rest)
  {
    hide DecRepeated;
    var f, k := fields[p.fixedField], SlotOf(fields, p.fixedField);
    if k < |p.slots| && p.slots[k].Fixed? && |p.slots[k].items| == f.arraySize {
      var items := p.slots[k].items;
      assert items[..|items|] == items && items + items[|items|..] == items;
      assert items[..0] == [] && [] + items[0..] == items;
      assert p.slots[k := Fixed(items)] == p.slots;
      FullTakesNothing(f, wt, items, Num(0), items[0], s);
    }
  }

  /** No other fixed-count array can begin while one is half received. */
  lemma OtherOnOpen(fields: seq<Field>, p: Progress, wt: nat, tag: nat, s: Bytes)
    requires TouchesFixed(fields, tag) && Lookup(fields, tag) != p.fixedField && !FixedDone(fields, p)
    ensures DecStep(fields, p, wt, tag, s).Fail?
  {
  }

  /** The array that was received last comes first again: its count would go on where a new message starts over. */
  predicate Resumes(fields: seq<Field>, p: Progress, b: Bytes) {
    && 0 <= p.fixedField < |fields| && fields[p.fixedField].arraySize > 0
    && FirstFixed(fields, p.slots, b) == Some(p.fixedField)
  }

  lemma {:induction false} ResumedNeverBoth(fields: seq<Field>, p: Progress, s: Bytes)
    requires FixedDone(fields, p) && Resumes(fields, p, s)
    ensures Conclude(fields, DecLoop(fields, p, s)).Fail?
         || Conclude(fields, DecLoop(fields, WithFixed(p, -1, 0), s)).Fail?
    decreases |s|
  {
    hide DecTag, DecStep;
    var tg := DecTag(s);
    var wt, tag, rest := tg.wireType, tg.tag, tg.rest;
    var r := DecStep(fields, p, wt, tag, rest);
    if TouchesFixed(fields, tag) {
      AgainOnFull(fields, p, -1, wt, tag, rest);
      if r.Done? { NeverBoth(fields, r.value, r.rest); }
    } else {
      StepFixedFree(fields, p, -1, 0, wt, tag, rest);
      StepOnSlots(fields, p, wt, tag, rest);
      if r.Done? { ResumedNeverBoth(fields, r.value, r.rest); }
    }
  }

  /** Decoding a message over a structure that has its required fields already. */
  function Merged(fields: seq<Field>, slots: seq<Slot>, b: Bytes): Parse<seq<Slot>> {
    Conclude(fields, DecLoop(fields, Start(slots), b))
  }

  lemma SameOverSeen(fields: seq<Field>, p: Progress, b: Bytes)
    ensures Merged(fields, p.slots, b) == Conclude(fields, DecLoop(fields, WithFixed(p, -1, 0), b))
  {
    hide DecLoop;
    assert WithFixed(p, -1, 0) == SeenMore(Start(p.slots), p.seen);
    LoopSeenMore(fields, Start(p.slots), p.seen, b);
  }

  /**
   Decoding the concatenation of two messages is decoding the second over the result of the first, and
   whatever required fields the first one held need not come again; unless the second comes first to the
   very fixed-count array that the first one came to last, and then they never both succeed.
   */
  lemma ConcatIsMerge(fields: seq<Field>, slots: seq<Slot>, a: Bytes, b: Bytes)
    requires DecLoop(fields, Start(slots), a).Ended? && DecMessage(fields, slots, a).Done?
    ensures var p := DecLoop(fields, Start(slots), a).p;
            var whole, merged := DecMessage(fields, slots, a + b), Merged(fields, p.slots, b);
            && DecMessage(fields, slots, a).value == p.slots
            && (!Resumes(fields, p, b) ==> whole == merged)
            && (Resumes(fields, p, b) ==> whole.Fail? || merged.Fail?)
  {
    hide DecLoop;
    var p := DecLoop(fields, Start(slots), a).p;
    LoopConcat(fields, Start(slots), a, b);
    LoopSeenGrows(fields, p, b);
    SameOverSeen(fields, p, b);
    LoopInTable(fields, Start(slots), a);
    if Resumes(fields, p, b) {
      ResumedNeverBoth(fields, p, b);
    } else {
      SameUnlessResumed(fields, p, b);
    }
    assert DecMessage(fields, slots, a + b) == Conclude(fields, DecLoop(fields, p, b));
  }

  lemma StepInTable(fields: seq<Field>, p: Progress, wt: nat, tag: nat, s: Bytes)
    requires -1 <= p.fixedField < |fields| && DecStep(fields, p, wt, tag, s).Done?
    ensures -1 <= DecStep(fields, p, wt, tag, s).value.fixedField < |fields|
  {
    hide DecRepeated, DecSingle, Skip, Dec32;
  }

  lemma {:induction false} LoopInTable(fields: seq<Field>, p: Progress, s: Bytes)
    requires -1 <= p.fixedField < |fields|
    ensures !DecLoop(fields, p, s).LoopFail? ==> -1 <= DecLoop(fields, p, s).p.fixedField < |fields|
    decreases |s|
  {
    hide DecTag, DecStep;
    if s != [] && DecTag(s).Tag? {
      var tg := DecTag(s);
      var r := DecStep(fields, p, tg.wireType, tg.tag, tg.rest);
      if r.Done? {
        StepInTable(fields, p, tg.wireType, tg.tag, tg.rest);
        LoopInTable(fields, r.value, r.rest);
      }
    }
  }

  /** In particular, when the second message is complete in itself: exactly when its own decoding is the result. */
  lemma ConcatOfComplete(fields: seq<Field>, slots: seq<Slot>, a: Bytes, b: Bytes)
    requires DecLoop(fields, Start(slots), a).Ended? && DecMessage(fields, slots, a).Done?
    requires DecMessage(fields, DecMessage(fields, slots, a).value, b).Done?
    ensures DecMessage(fields, slots, a + b) == DecMessage(fields, DecMessage(fields, slots, a).value, b)
       <==> !Resumes(fields, DecLoop(fields, Start(slots), a).p, b)
  {
    hide DecLoop, Resumes;
    ConcatIsMerge(fields, slots, a, b);
  }

  // ---------------------------------------------------------------- unknown fields

  /** A sequence of well-formed fields whose tags are not in the table. */
  predicate UnknownFields(fields: seq<Field>, x: Bytes)
    decreases |x|
  {
    x == []
    || (DecTag(x).Tag? && DecTag(x).tag != 0 && Lookup(fields, DecTag(x).tag) == |fields|
        && Skip(DecTag(x).wireType, DecTag(x).rest).Done?
        && UnknownFields(fields, Skip(DecTag(x).wireType, DecTag(x).rest).rest))
  }

  lemma {:induction false} UnknownFieldsIgnored(fields: seq<Field>, p: Progress, x: Bytes)
    requires UnknownFields(fields, x)
    ensures DecLoop(fields, p, x) == Ended(p)
    decreases |x|
  {
    hide DecTag, Skip;
    if x != [] {
      UnknownFieldsIgnored(fields, p, Skip(DecTag(x).wireType, DecTag(x).rest).rest);
    }
  }

  /**
   Forward compatibility: unknown fields inserted after any whole fields change nothing, neither the
   structure nor the running count of a fixed-count array received so far.
   */
  lemma UnknownFieldsInserted(fields: seq<Field>, slots: seq<Slot>, a: Bytes, x: Bytes, b: Bytes)
    requires DecLoop(fields, Start(slots), a).Ended? && UnknownFields(fields, x)
    ensures DecLoop(fields, Start(slots), a + x + b) == DecLoop(fields, Start(slots), a + b)
    ensures DecMessage(fields, slots, a + x + b) == DecMessage(fields, slots, a + b)
  {
    hide DecLoop;
    var p := DecLoop(fields, Start(slots), a).p;
    assert a + x + b == a + (x + b);
    LoopConcat(fields, Start(slots), a, x + b);
    LoopConcat(fields, Start(slots), a, b);
    UnknownFieldsIgnored(fields, p, x);
    LoopConcat(fields, p, x, b);
  }
}
