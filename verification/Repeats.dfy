/** Singular fields that come more than once: messages are merged, the last of other values wins. */
module Repeats {
  import opened Wire
  import opened Descriptor
  import opened Encoding
  import opened Decoding
  import opened RoundTrip
  import opened Arrivals
  import Merge
  import Packed
  import Presence

  /** A tag with something behind it, and more after that. */
  lemma Tagged(tag: nat, wt: nat, x: Bytes, t: Bytes)
    ensures EncTag(tag, wt) + x + t == EncTag(tag, wt) + (x + t)
  {
  }

  /** The storage of an entry that is neither repeated nor in a union. */
  predicate Stored(f: Field, slot: Slot) {
    match f.htype
    case Required => slot.Single?
    case Optional => if f.HasSize() then slot.Flagged? else slot.Single?
    case Repeated => false
    case OneOf => false
  }

  /** The progress once a singular entry has received a value. */
  function Received(fields: seq<Field>, i: nat, p: Progress, v: Value): Progress
    requires i < |fields| && Presence.InStruct(fields, p.slots, i)
  {
    p.(slots := p.slots[SlotOf(fields, i) := Holding(fields[i], v)], seen := SeenWith(fields, i, p.seen))
  }

  /** How the field loop goes on. */
  function AfterValue(fields: seq<Field>, i: nat, p: Progress, r: Parse<Value>): LoopResult
    requires i < |fields| && Presence.InStruct(fields, p.slots, i)
  {
    match r
    case Fail => LoopFail
    case Done(v, rest) => DecLoop(fields, Received(fields, i, p, v), rest)
  }

  /** One more value of such an entry, decoded over what it holds. */
  lemma SingularStep(fields: seq<Field>, i: nat, p: Progress, wt: nat, s: Bytes)
    requires TableOk(fields) && i < |fields| && wt < 8
    requires Presence.InStruct(fields, p.slots, i) && Stored(fields[i], p.slots[SlotOf(fields, i)])
    ensures DecLoop(fields, p, EncTag(fields[i].tag, wt) + s)
         == AfterValue(fields, i, p, DecValue(fields[i], p.slots[SlotOf(fields, i)].v, s))
  {
    hide DecLoop, DecValue, EncTag;
    KnownField(fields, i, p, wt, s);
  }

  lemma ReceivedTwice(fields: seq<Field>, i: nat, p: Progress, v: Value, w: Value)
    requires i < |fields| && Presence.InStruct(fields, p.slots, i)
    ensures Presence.InStruct(fields, Received(fields, i, p, v).slots, i)
    ensures Received(fields, i, Received(fields, i, p, v), w) == Received(fields, i, p, w)
    ensures Received(fields, i, p, v).slots[SlotOf(fields, i)] == Holding(fields[i], v)
  {
    var k := SlotOf(fields, i);
    assert p.slots[k := Holding(fields[i], v)][k := Holding(fields[i], w)] == p.slots[k := Holding(fields[i], w)];
    hide RequiredBefore;
  }

  // ---------------------------------------------------------------- submessages are merged

  /** What one submessage after another makes of a structure, the second over what the first left. */
  function Successively(sub: seq<Field>, before: seq<Slot>, a: Bytes, b: Bytes): Parse<seq<Slot>> {
    match DecMessage(sub, before, a)
    case Fail => Fail
    case Done(one, _) => DecMessage(sub, one, b)
  }

  /** The structure that a singular submessage entry holds. */
  predicate HoldsMessage(fields: seq<Field>, i: nat, p: Progress)
    requires i < |fields|
  {
    && fields[i].ltype.LSubmessage? && Presence.InStruct(fields, p.slots, i)
    && Stored(fields[i], p.slots[SlotOf(fields, i)]) && p.slots[SlotOf(fields, i)].v.Msg?
  }

  function Inside(fields: seq<Field>, i: nat, p: Progress): seq<Slot>
    requires i < |fields| && HoldsMessage(fields, i, p)
  {
    p.slots[SlotOf(fields, i)].v.slots
  }

  /** The structure that a submessage is decoded into: an entry of an array is set to its defaults first. */
  function StartOf(f: Field, prev: Value): seq<Slot> {
    var before := if prev.Msg? then prev.slots else [];
    if f.htype.Repeated? then Defaults(f.sub, before) else before
  }

  function AsValue(r: Parse<seq<Slot>>, t: Bytes): Parse<Value> {
    match r
    case Fail => Fail
    case Done(inside, _) => Done(Msg(inside), t)
  }

  lemma OneSubmessage(f: Field, prev: Value, b: Bytes, t: Bytes)
    requires f.ltype.LSubmessage? && !f.htype.Repeated? && |b| < TWO32 && prev.Msg?
    ensures DecValue(f, prev, EncString(b) + t)
         == AsValue(DecMessage(f.sub, prev.slots, b), t)
  {
    hide EncString, Delimited, DecMessage;
    StringRoundTrip(b, t);
  }

  /** An entry's tag, a length and that many bytes. */
  function Occurrence(f: Field, wt: nat, a: Bytes): Bytes {
    EncTag(f.tag, wt) + EncString(a)
  }

  lemma OccurrenceStep(fields: seq<Field>, i: nat, p: Progress, wt: nat, a: Bytes, t: Bytes)
    requires TableOk(fields) && i < |fields| && wt < 8 && HoldsMessage(fields, i, p) && |a| < TWO32
    ensures DecLoop(fields, p, Occurrence(fields[i], wt, a) + t)
         == AfterValue(fields, i, p, AsValue(DecMessage(fields[i].sub, Inside(fields, i, p), a), t))
  {
    hide DecLoop, DecValue, DecMessage, EncTag, EncString, Received, SlotOf, TableOk;
    Tagged(fields[i].tag, wt, EncString(a), t);
    SingularStep(fields, i, p, wt, EncString(a) + t);
    OneSubmessage(fields[i], p.slots[SlotOf(fields, i)].v, a, t);
  }

  /**
   A required or optional submessage that comes twice is decoded twice over one structure: the second time
   over what the first left, so that what only the first has is kept.
   */
  lemma SubmessagesMerge(fields: seq<Field>, i: nat, p: Progress, wt: nat, a: Bytes, b: Bytes, t: Bytes)
    requires TableOk(fields) && i < |fields| && wt < 8 && HoldsMessage(fields, i, p) && |a| < TWO32 && |b| < TWO32
    ensures DecLoop(fields, p, Occurrence(fields[i], wt, a) + (Occurrence(fields[i], wt, b) + t))
         == AfterValue(fields, i, p, AsValue(Successively(fields[i].sub, Inside(fields, i, p), a, b), t))
  {
    hide DecLoop, DecValue, DecMessage, EncTag, EncString, Received, SlotOf, TableOk;
    var f, inside, second := fields[i], Inside(fields, i, p), Occurrence(fields[i], wt, b) + t;
    OccurrenceStep(fields, i, p, wt, a, second);
    var r := DecMessage(f.sub, inside, a);
    if r.Done? {
      var q := Received(fields, i, p, Msg(r.value));
      ReceivedStored(fields, i, p, Msg(r.value));
      OccurrenceStep(fields, i, q, wt, b, t);
      if DecMessage(f.sub, r.value, b).Done? {
        ReceivedTwice(fields, i, p, Msg(r.value), Msg(DecMessage(f.sub, r.value, b).value));
      }
    }
  }

  lemma ReceivedStored(fields: seq<Field>, i: nat, p: Progress, v: Value)
    requires i < |fields| && Presence.InStruct(fields, p.slots, i) && Stored(fields[i], p.slots[SlotOf(fields, i)])
    ensures var q := Received(fields, i, p, v);
            Presence.InStruct(fields, q.slots, i) && Stored(fields[i], q.slots[SlotOf(fields, i)])
            && q.slots[SlotOf(fields, i)].v == v
  {
    hide SlotOf;
  }

  /** Of the merged structure, an entry none of whose tags comes in the second message is what the first made it. */
  lemma FirstIsKept(sub: seq<Field>, before: seq<Slot>, a: Bytes, b: Bytes, j: nat)
    requires j < |sub| && Successively(sub, before, a, b).Done?
    requires SlotOf(sub, j) < |DecMessage(sub, before, a).value|
    requires Untouched(sub, SlotOf(sub, j), TagsRead(sub, Start(DecMessage(sub, before, a).value), b))
    ensures |Successively(sub, before, a, b).value| == |DecMessage(sub, before, a).value|
    ensures Successively(sub, before, a, b).value[SlotOf(sub, j)] == DecMessage(sub, before, a).value[SlotOf(sub, j)]
  {
    hide DecLoop, Untouched, SlotOf;
    UntouchedKept(sub, Start(DecMessage(sub, before, a).value), b, SlotOf(sub, j));
  }

  /**
   So two occurrences are one occurrence of the two encodings in a row, as the Protocol Buffers encoding has
   it, unless the second resumes the fixed-count array that the first ended with.
   */
  lemma MergeIsConcat(fields: seq<Field>, i: nat, p: Progress, wt: nat, a: Bytes, b: Bytes, t: Bytes)
    requires TableOk(fields) && i < |fields| && wt < 8 && HoldsMessage(fields, i, p) && |a + b| < TWO32
    requires DecLoop(fields[i].sub, Start(Inside(fields, i, p)), a).Ended?
    requires Successively(fields[i].sub, Inside(fields, i, p), a, b).Done?
    requires !Merge.Resumes(fields[i].sub, DecLoop(fields[i].sub, Start(Inside(fields, i, p)), a).p, b)
    ensures DecLoop(fields, p, Occurrence(fields[i], wt, a) + (Occurrence(fields[i], wt, b) + t))
         == DecLoop(fields, p, Occurrence(fields[i], wt, a + b) + t)
  {
    hide DecLoop, DecValue, EncTag, EncString, Received, SlotOf, TableOk, Merge.Resumes, Occurrence;
    SubmessagesMerge(fields, i, p, wt, a, b, t);
    Merge.ConcatOfComplete(fields[i].sub, Inside(fields, i, p), a, b);
    OccurrenceStep(fields, i, p, wt, a + b, t);
  }

  // ---------------------------------------------------------------- other values: the last one wins

  /** An entry that is no message and comes twice holds the second value, as if the first had not come. */
  lemma LastWins(fields: seq<Field>, i: nat, p: Progress, wt: nat, wu: nat, x: Bytes, s: Bytes)
    requires TableOk(fields) && i < |fields| && wt < 8 && wu < 8 && !fields[i].ltype.LSubmessage?
    requires Presence.InStruct(fields, p.slots, i) && Stored(fields[i], p.slots[SlotOf(fields, i)])
    requires Packed.ElementOk(fields[i], x)
    ensures var f := fields[i];
            DecLoop(fields, p, EncTag(f.tag, wt) + x + (EncTag(f.tag, wu) + s))
            == DecLoop(fields, p, EncTag(f.tag, wu) + s)
  {
    hide DecLoop, DecValue, EncTag, Received, SlotOf, TableOk;
    var f, second, was := fields[i], EncTag(fields[i].tag, wu) + s, p.slots[SlotOf(fields, i)].v;
    Tagged(f.tag, wt, x, second);
    SingularStep(fields, i, p, wt, x + second);
    ElementIn(f, was, x, second);
    var v := DecValue(f, Num(0), x).value;
    var q := Received(fields, i, p, v);
    ReceivedStored(fields, i, p, v);
    SingularStep(fields, i, q, wu, s);
    SingularStep(fields, i, p, wu, s);
    StorageIrrelevant(f, v, s);
    StorageIrrelevant(f, was, s);
    if DecValue(f, Num(0), s).Done? {
      ReceivedTwice(fields, i, p, v, DecValue(f, Num(0), s).value);
    }
  }

  lemma ElementIn(f: Field, prev: Value, x: Bytes, t: Bytes)
    requires !f.ltype.LSubmessage? && Packed.ElementOk(f, x)
    ensures DecValue(f, prev, x + t) == Done(DecValue(f, Num(0), x).value, t)
  {
    StorageIrrelevant(f, prev, x);
    hide DecValue;
    Merge.DecValueStable(f, prev, x, t);
    assert [] + t == t;
  }

  // ---------------------------------------------------------------- unions

  /** A selector is clear or names an entry of the table. */
  predicate Selects(fields: seq<Field>, which: nat) {
    which == 0 || exists i :: 0 <= i < |fields| && fields[i].tag == which
  }

  predicate HoldsUnion(fields: seq<Field>, i: nat, p: Progress)
    requires i < |fields|
  {
    fields[i].htype.OneOf? && Presence.InStruct(fields, p.slots, i) && p.slots[SlotOf(fields, i)].Union?
  }

  /** The progress once a member of a union has been received. */
  function Selected(fields: seq<Field>, i: nat, p: Progress, v: Value): Progress
    requires i < |fields| && HoldsUnion(fields, i, p)
  {
    p.(slots := p.slots[SlotOf(fields, i) := Union(fields[i].tag, v)])
  }

  function AfterMember(fields: seq<Field>, i: nat, p: Progress, r: Parse<Value>): LoopResult
    requires i < |fields| && HoldsUnion(fields, i, p)
  {
    match r
    case Fail => LoopFail
    case Done(v, rest) => DecLoop(fields, Selected(fields, i, p, v), rest)
  }

  /**
   A member of a union is decoded from scratch, whatever the union held, and becomes the selected one. It is
   refused exactly when its value is, or when the selector named nothing in the table.
   */
  lemma UnionStep(fields: seq<Field>, i: nat, p: Progress, wt: nat, s: Bytes)
    requires TableOk(fields) && i < |fields| && wt < 8 && HoldsUnion(fields, i, p)
    ensures DecLoop(fields, p, EncTag(fields[i].tag, wt) + s)
         == if !Selects(fields, p.slots[SlotOf(fields, i)].which) then LoopFail
            else AfterMember(fields, i, p, DecValue(fields[i], Cleared(fields[i]), s))
  {
    hide DecLoop, DecValue, EncTag, DefaultValue, SlotOf;
    KnownField(fields, i, p, wt, s);
    hide TableOk;
  }

  /**
   Of two members of a union, or one that comes twice, the last one wins: the result is the same as if the
   first had not come.
   */
  lemma LastMemberWins(fields: seq<Field>, i: nat, j: nat, p: Progress, wt: nat, wu: nat, x: Bytes, s: Bytes)
    requires TableOk(fields) && i < |fields| && j < |fields| && wt < 8 && wu < 8
    requires HoldsUnion(fields, i, p) && fields[j].htype.OneOf? && SlotOf(fields, i) == SlotOf(fields, j)
    requires Selects(fields, p.slots[SlotOf(fields, i)].which)
    requires DecValue(fields[i], Cleared(fields[i]), x).Done? && DecValue(fields[i], Cleared(fields[i]), x).rest == []
    ensures DecLoop(fields, p, EncTag(fields[i].tag, wt) + x + (EncTag(fields[j].tag, wu) + s))
         == DecLoop(fields, p, EncTag(fields[j].tag, wu) + s)
  {
    hide DecLoop, DecValue, EncTag, DefaultValue, SlotOf, TableOk;
    var f, second := fields[i], EncTag(fields[j].tag, wu) + s;
    Tagged(f.tag, wt, x, second);
    UnionStep(fields, i, p, wt, x + second);
    Merge.DecValueStable(f, Cleared(f), x, second);
    assert [] + second == second;
    var q := Selected(fields, i, p, DecValue(f, Cleared(f), x).value);
    UnionStep(fields, j, q, wu, s);
    UnionStep(fields, j, p, wu, s);
    var r := DecValue(fields[j], Cleared(fields[j]), s);
    if r.Done? { assert Selected(fields, j, q, r.value) == Selected(fields, j, p, r.value); }
  }
}
