/** What the tags in a stream decide: which messages are complete, and which fields stay as they were. */
module Arrivals {
  import opened Wire
  import opened Descriptor
  import opened Decoding
  import RoundTrip
  import Encoding

  /** The tags that the field loop reads before it ends, stops or fails. */
  function TagsRead(fields: seq<Field>, p: Progress, s: Bytes): set<nat>
    decreases |s|
  {
    if s == [] || !DecTag(s).Tag? then {}
    else
      var tg := DecTag(s);
      match DecStep(fields, p, tg.wireType, tg.tag, tg.rest)
      case Fail => {tg.tag}
      case Done(q, rest) => {tg.tag} + TagsRead(fields, q, rest)
  }

  // ---------------------------------------------------------------- required fields

  /** The required entries in front of entry `i`. */
  function RequiredInFront(fields: seq<Field>, i: nat): set<nat>
    requires i <= |fields|
  {
    set j: nat | j < i && fields[j].htype.Required?
  }

  lemma {:induction false} CountInFront(fields: seq<Field>, i: nat)
    requires i <= |fields|
    ensures |RequiredInFront(fields, i)| == RequiredBefore(fields, i)
  {
    if i > 0 {
      CountInFront(fields, i - 1);
      var more := if fields[i - 1].htype.Required? then {i - 1} else {};
      assert RequiredInFront(fields, i) == RequiredInFront(fields, i - 1) + more;
    }
  }

  /** Every index of a required field is that of some entry. */
  lemma {:induction false} EntryOfIndex(fields: seq<Field>, k: nat, n: nat) returns (i: nat)
    requires n <= |fields| && k < RequiredBefore(fields, n)
    ensures i < n && fields[i].htype.Required? && RequiredBefore(fields, i) == k
  {
    if k < RequiredBefore(fields, n - 1) {
      i := EntryOfIndex(fields, k, n - 1);
    } else {
      i := n - 1;
    }
  }

  lemma EarlierIndex(fields: seq<Field>, i: nat, j: nat)
    requires i < j <= |fields| && fields[i].htype.Required?
    ensures RequiredBefore(fields, i) < RequiredBefore(fields, j)
  {
    RequiredMonotone(fields, i + 1, j);
  }

  lemma SameIndex(fields: seq<Field>, i: nat, j: nat)
    requires i < |fields| && j < |fields| && fields[i].htype.Required? && fields[j].htype.Required?
    requires RequiredBefore(fields, i) == RequiredBefore(fields, j)
    ensures i == j
  {
    hide RequiredBefore;
    if i < j {
      EarlierIndex(fields, i, j);
    } else if j < i {
      EarlierIndex(fields, j, i);
    }
  }

  /** A step marks its own field, if it is required and among those kept track of, and no other. */
  lemma StepMarks(fields: seq<Field>, p: Progress, wt: nat, tag: nat, s: Bytes, i: nat)
    requires UniqueTags(fields) && i < |fields| && fields[i].htype.Required? && RequiredBefore(fields, i) < 64
    requires DecStep(fields, p, wt, tag, s).Done?
    ensures RequiredBefore(fields, i) in DecStep(fields, p, wt, tag, s).value.seen
       <==> RequiredBefore(fields, i) in p.seen || fields[i].tag == tag
  {
    hide DecRepeated, DecSingle, Skip, Dec32, RequiredBefore, Lookup;
    LookupUnique(fields, i);
    var j := Lookup(fields, tag);
    if j < |fields| && fields[j].htype.Required? && RequiredBefore(fields, j) == RequiredBefore(fields, i) {
      SameIndex(fields, i, j);
    }
  }

  lemma {:induction false} LoopMarks(fields: seq<Field>, p: Progress, s: Bytes, i: nat)
    requires UniqueTags(fields) && i < |fields| && fields[i].htype.Required? && RequiredBefore(fields, i) < 64
    requires !DecLoop(fields, p, s).LoopFail?
    ensures RequiredBefore(fields, i) in DecLoop(fields, p, s).p.seen
       <==> RequiredBefore(fields, i) in p.seen || fields[i].tag in TagsRead(fields, p, s)
    decreases |s|
  {
    hide DecTag, DecStep, RequiredBefore, UniqueTags;
    if s != [] && DecTag(s).Tag? {
      var tg := DecTag(s);
      var r := DecStep(fields, p, tg.wireType, tg.tag, tg.rest);
      StepMarks(fields, p, tg.wireType, tg.tag, tg.rest, i);
      LoopMarks(fields, r.value, r.rest, i);
    }
  }

  /**
   Which messages are complete: when the field loop has not failed and no fixed-count array is half received,
   decoding succeeds if and only if each of the first 64 required entries has had its tag read. Those behind
   them may be missing.
   */
  lemma RequiredExactly(fields: seq<Field>, slots: seq<Slot>, s: Bytes)
    requires UniqueTags(fields) && !DecLoop(fields, Start(slots), s).LoopFail?
    requires FixedDone(fields, DecLoop(fields, Start(slots), s).p)
    ensures DecMessage(fields, slots, s).Done?
       <==> forall i :: 0 <= i < |fields| && fields[i].htype.Required? && |RequiredInFront(fields, i)| < 64 ==>
              fields[i].tag in TagsRead(fields, Start(slots), s)
  {
    hide DecLoop, UniqueTags, RequiredBefore, RequiredInFront;
    var tags, seen := TagsRead(fields, Start(slots), s), DecLoop(fields, Start(slots), s).p.seen;
    forall i | 0 <= i < |fields| && fields[i].htype.Required?
      ensures |RequiredInFront(fields, i)| == RequiredBefore(fields, i) < RequiredBefore(fields, |fields|)
      ensures RequiredBefore(fields, i) < 64 ==> (RequiredBefore(fields, i) in seen <==> fields[i].tag in tags)
    {
      CountInFront(fields, i);
      EarlierIndex(fields, i, |fields|);
      if RequiredBefore(fields, i) < 64 { LoopMarks(fields, Start(slots), s, i); }
    }
    if forall i :: 0 <= i < |fields| && fields[i].htype.Required? && |RequiredInFront(fields, i)| < 64 ==>
                     fields[i].tag in tags
    {
      forall k: nat | k < RequiredBefore(fields, |fields|) && k < 64
        ensures k in seen
      {
        var i := EntryOfIndex(fields, k, |fields|);
      }
    }
  }

  // ---------------------------------------------------------------- fields that do not come

  /** None of the entries that share this slot has had its tag read. */
  predicate Untouched(fields: seq<Field>, k: nat, tags: set<nat>) {
    forall i :: 0 <= i < |fields| && SlotOf(fields, i) == k ==> fields[i].tag !in tags
  }

  lemma StepLeaves(fields: seq<Field>, p: Progress, wt: nat, tag: nat, s: Bytes, k: nat)
    requires k < |p.slots| && DecStep(fields, p, wt, tag, s).Done?
    ensures var q := DecStep(fields, p, wt, tag, s).value;
            |q.slots| == |p.slots| && (Untouched(fields, k, {tag}) ==> q.slots[k] == p.slots[k])
  {
    hide DecRepeated, DecSingle, Skip, Dec32, RequiredBefore, SlotOf;
    var j := Lookup(fields, tag);
    if j < |fields| { assert fields[j].tag in {tag}; }
  }

  /** A slot keeps its contents through any bytes in which no tag of its entries is read. */
  lemma {:induction false} UntouchedKept(fields: seq<Field>, p: Progress, s: Bytes, k: nat)
    requires k < |p.slots| && !DecLoop(fields, p, s).LoopFail?
    ensures var q := DecLoop(fields, p, s).p;
            |q.slots| == |p.slots| && (Untouched(fields, k, TagsRead(fields, p, s)) ==> q.slots[k] == p.slots[k])
    decreases |s|
  {
    hide DecTag, DecStep, SlotOf;
    if s != [] && DecTag(s).Tag? {
      var tg := DecTag(s);
      var r := DecStep(fields, p, tg.wireType, tg.tag, tg.rest);
      StepLeaves(fields, p, tg.wireType, tg.tag, tg.rest, k);
      UntouchedKept(fields, r.value, r.rest, k);
    }
  }

  /** What an entry that is not a submessage holds when it has not come: literally. */
  predicate Unset(f: Field, slot: Slot) {
    var zero := match f.ltype
                case LBytes => Blob([])
                case LString => Blob([])
                case LFixedLengthBytes => Blob(seq(f.dataSize, _ => 0))
                case _ => Num(0);
    var v := if f.default.Custom? then f.default.v else zero;
    match f.htype
    case Required => f.ltype.LSubmessage? || slot == Single(v)
    case Optional =>
      if f.HasSize() then slot.Flagged? && !slot.has && (f.ltype.LSubmessage? || slot.v == v)
      else f.ltype.LSubmessage? || slot == Single(v)
    case Repeated => f.HasSize() ==> slot == Many([])
    case OneOf => slot.Union? && slot.which == 0
  }

  lemma ResetIsUnset(f: Field, slot: Slot)
    requires RoundTrip.ResetSlot(f, slot)
    ensures Unset(f, slot)
  {
  }

  /**
   pb_decode gives a field that does not come its default, whatever the structure held: its own, or zero, with
   its flag off, its count zero or its union's selector clear; and a submessage the same inside.
   */
  lemma AbsentIsDefault(fields: seq<Field>, prev: seq<Slot>, s: Bytes, i: nat)
    requires i < |fields| && Dec(fields, prev, s).Done?
    requires Untouched(fields, SlotOf(fields, i), TagsRead(fields, Start(Defaults(fields, prev)), s))
    ensures SlotOf(fields, i) < |Dec(fields, prev, s).value|
    ensures var slot := Dec(fields, prev, s).value[SlotOf(fields, i)];
            Unset(fields[i], slot) && RoundTrip.ResetSlot(fields[i], slot)
  {
    var d := Defaults(fields, prev);
    SlotInRange(fields, i);
    hide DecLoop, Unset, SlotOf, DefaultsTo;
    UntouchedKept(fields, Start(d), s, SlotOf(fields, i));
    RoundTrip.InitialState(fields, prev);
    InitialSlot(fields, d, i);
    ResetIsUnset(fields[i], d[SlotOf(fields, i)]);
  }

  lemma InitialSlot(fields: seq<Field>, d: seq<Slot>, i: nat)
    requires i < |fields| && RoundTrip.ResetMessage(fields, d, |fields|)
    ensures SlotOf(fields, i) < |d| && RoundTrip.ResetSlot(fields[i], d[SlotOf(fields, i)])
  {
  }

  // ---------------------------------------------------------------- fixed-count arrays

  /** No other fixed-count array may come while one is half received, with whatever behind its tag. */
  lemma HalfReceivedRefuses(fields: seq<Field>, i: nat, j: nat, p: Progress, wt: nat, s: Bytes)
    requires TableOk(fields) && i < |fields| && j < |fields| && i != j && wt < 8
    requires fields[i].FixedCount() && fields[j].FixedCount()
    requires p.fixedField == i && p.fixedCount != fields[i].arraySize
    ensures DecLoop(fields, p, Encoding.EncTag(fields[j].tag, wt) + s) == LoopFail
  {
    hide DecLoop, Encoding.EncTag, DecRepeated, DecSingle;
    RoundTrip.KnownField(fields, j, p, wt, s);
  }
}
