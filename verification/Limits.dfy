/** Where the round trip and merging stop: the exact conditions, and inputs beyond them. */
module Limits {
  import opened Wire
  import opened Descriptor
  import opened Encoding
  import opened Decoding
  import opened RoundTrip

  // ---------------------------------------------------------------- unterminated strings

  /** A string that fills its buffer without a terminator is encoded, but decodes only if a byte is left for one. */
  lemma StringNeedsTerminator(f: Field, b: Bytes, d: Value, t: Bytes)
    requires f.ltype.LString? && f.dataSize <= PB_SIZE_MAX && |b| <= f.dataSize && 0 !in b
    ensures EncValue(f, Blob(b)) == Wrote(EncString(b))
    ensures DecValue(f, d, EncString(b) + t) == if |b| < f.dataSize then Done(Blob(b), t) else Fail
  {
    hide EncString, Dec32, CString;
    CStringWhole(b, f.dataSize);
    StringRoundTrip(b, t);
  }

  // ---------------------------------------------------------------- custom defaults

  /** A zero that the encoder omits comes back exactly when the field has no other default. */
  lemma OmittedZeroComesBack(f: Field, v: Value, prev: Slot)
    requires f.Implicit() && !f.ltype.LSubmessage? && ValueOk(f, v) && IsZero(f, v)
    ensures EncField(f, Single(v)) == Wrote([])
    ensures SameSlot(f, Single(v), DefaultSlot(f, prev)) <==> OmissionOk(f, v)
  {
    if f.ltype.LFixedLengthBytes? {
      assert v.b == [] == seq(f.dataSize, _ => 0);
    }
  }

  // ---------------------------------------------------------------- lengths beyond 32 bits

  lemma {:induction false} PaddedTopLarge(w: nat, groups: nat)
    requires PaddedTop(w, groups)
    ensures w >= Shl(1, 7 * groups)
    decreases groups
  {
    if groups > 0 {
      PaddedTopLarge(w / 128, groups - 1);
      ShlSeven(1, 7 * (groups - 1));
    }
  }

  /** The encoder writes any length; the decoder reads back those below 2^32 and refuses the others. */
  lemma LongLengthsRefused(b: Bytes, t: Bytes)
    requires |b| < TWO63
    ensures Dec32(EncString(b) + t) == if |b| < TWO32 then Done(|b|, b + t) else Fail
    ensures Delimited(EncString(b) + t) == if |b| < TWO32 then Done(b, t) else Fail
  {
    hide Dec32, EncVarint, Shl, PaddedTop;
    if |b| < TWO32 {
      StringRoundTrip(b, t);
    } else {
      assert EncString(b) + t == EncVarint(|b|) + (b + t);
      Dec32Canonical(|b|, b + t);
      if PaddedTop(|b| / TWO35, 4) {
        PaddedTopLarge(|b| / TWO35, 4);
        ShlValues(1);
        assert false;
      }
    }
  }

  // ---------------------------------------------------------------- one fixed-count array does not merge

  /** A table of one fixed-count array of one bool, with tag 1. */
  const ONE_BOOL: seq<Field> := [Field(1, LBool, Repeated, 0, 0, 1, 1, [], Zeros)]

  lemma OneBoolTag(b: Byte, t: Bytes)
    requires b < 128
    ensures var s := [8, b] + t; s != [] && DecTag(s) == Tag(0, 1, [b] + t) && Dec32([b] + t) == Done(b, t)
  {
    var s := [8, b] + t;
    assert s[1..] == [b] + t && s[1..][1..] == t;
  }

  lemma OneBoolEntry(cur: seq<Value>, b: Byte, t: Bytes)
    requires b < 128 && |cur| <= 1
    ensures DecRepeated(ONE_BOOL[0], 0, cur, Num(0), [b] + t)
         == if |cur| == 1 then Fail else Done([Num(if b != 0 then 1 else 0)], t)
  {
    OneBoolTag(b, t);
    hide Dec32;
    assert |cur| == 0 ==> cur + [Num(if b != 0 then 1 else 0)] == [Num(if b != 0 then 1 else 0)];
  }

  lemma OneBoolField(p: Progress, b: Byte, t: Bytes)
    requires b < 128 && (p.slots == [Fixed([Num(0)])] || p.slots == [Fixed([Num(1)])])
    requires -1 <= p.fixedField <= 0 && p.fixedCount <= 1 && (p.fixedField == 0 ==> p.fixedCount == 1)
    ensures DecField(ONE_BOOL, 0, p, 0, [b] + t)
         == if p.fixedField == 0 then Fail
            else Done(Progress([Fixed([Num(if b != 0 then 1 else 0)])], 0, 1, p.seen), t)
  {
    var items, v := p.slots[0].items, Num(if b != 0 then 1 else 0);
    var cur := items[..if p.fixedField == 0 then 1 else 0];
    OneBoolEntry(cur, b, t);
    StorageFree(cur, items[0], [b] + t);
    hide DecRepeated;
    assert SlotOf(ONE_BOOL, 0) == 0;
    assert [v] + items[1..] == [v] && p.slots[0 := Fixed([v])] == [Fixed([v])];
  }

  lemma OneBoolStep(p: Progress, b: Byte, t: Bytes)
    requires b < 128 && (p.slots == [Fixed([Num(0)])] || p.slots == [Fixed([Num(1)])])
    requires -1 <= p.fixedField <= 0 && p.fixedCount <= 1 && (p.fixedField == 0 ==> p.fixedCount == 1)
    ensures DecLoop(ONE_BOOL, p, [8, b] + t)
         == if p.fixedField == 0 then LoopFail
            else DecLoop(ONE_BOOL, Progress([Fixed([Num(if b != 0 then 1 else 0)])], 0, 1, p.seen), t)
  {
    OneBoolTag(b, t);
    OneBoolField(p, b, t);
    assert Lookup(ONE_BOOL, 1) == 0;
    hide DecField, DecTag, Lookup;
  }

  lemma StorageFree(cur: seq<Value>, prev: Value, s: Bytes)
    ensures DecRepeated(ONE_BOOL[0], 0, cur, prev, s) == DecRepeated(ONE_BOOL[0], 0, cur, Num(0), s)
  {
    StorageIrrelevant(ONE_BOOL[0], prev, s);
    hide DecValue;
  }

  /** Two messages that each decode, one over the result of the other, while their concatenation does not. */
  lemma FixedCountNotMerged()
    ensures var slots := [Fixed([Num(0)])];
            && DecMessage(ONE_BOOL, slots, [8, 1]) == Done([Fixed([Num(1)])], [])
            && DecMessage(ONE_BOOL, [Fixed([Num(1)])], [8, 1]) == Done([Fixed([Num(1)])], [])
            && DecMessage(ONE_BOOL, slots, [8, 1] + [8, 1]) == Fail
  {
    hide DecLoop;
    var slots, done := [Fixed([Num(0)])], Progress([Fixed([Num(1)])], 0, 1, {});
    assert [8, 1] + [] == [8, 1];
    OneBoolStep(Start(slots), 1, []);
    OneBoolStep(Start([Fixed([Num(1)])]), 1, []);
    OneBoolStep(Start(slots), 1, [8, 1]);
    OneBoolStep(done, 1, []);
    LoopEnd(ONE_BOOL, done, []);
    NoRequired();
  }

  lemma NoRequired()
    ensures RequiredBefore(ONE_BOOL, |ONE_BOOL|) == 0
  {
  }
}
