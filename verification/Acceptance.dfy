/** Exactly what the decoder accepts: of each kind of value, of unknown fields, and at the end of a message. */
module Acceptance {
  import opened Wire
  import opened Varints
  import opened Descriptor
  import opened Encoding
  import opened Decoding
  import opened RoundTrip
  import opened Integers
  import Merge
  import Packed
  import Arrivals
  import Repeats

  // ---------------------------------------------------------------- single values

  /** A bool takes any number below 2^32, in any form of up to ten bytes, and is set unless all digits are zero. */
  lemma BoolAccepted(f: Field, prev: Value, e: Bytes, t: Bytes)
    requires f.ltype.LBool? && IsVarint(e) && |e| <= 10 && Base128(e) < TWO32
    ensures DecValue(f, prev, e + t) == Done(Num(if forall i :: 0 <= i < |e| ==> e[i] % 128 == 0 then 0 else 1), t)
  {
    hide Dec32, IsVarint;
    Dec32Reads(e, t);
    SmallFits(e);
    ZeroDigits(e);
  }

  /** An integer takes any varint of up to ten bytes, modulo 2^64, that is a number of its width, and no other. */
  lemma IntegerAccepted(f: Field, prev: Value, e: Bytes, t: Bytes, n: int)
    requires IsInteger(f.ltype) && IsVarint(e)
    ensures DecValue(f, prev, e + t) == Done(Num(n), t)
       <==> |e| <= 10 && Denotes(f.ltype, f.dataSize, Base128(e) % TWO64, n)
    ensures DecValue(f, prev, e + t).Done? ==>
              DecValue(f, prev, e + t).value.Num? && DecValue(f, prev, e + t).rest == t
  {
    hide Dec64, IsVarint, Integer, Denotes, Base128;
    Dec64Reads(e, t);
    AcceptedIntegers(f.ltype, f.dataSize, Base128(e) % TWO64, n);
  }

  lemma {:induction false} ZeroDigits(e: Bytes)
    ensures Base128(e) == 0 <==> forall i :: 0 <= i < |e| ==> e[i] % 128 == 0
    decreases |e|
  {
    if e != [] {
      ZeroDigits(e[1..]);
      assert forall i :: 0 < i < |e| ==> e[i] == e[1..][i - 1];
      assert forall i :: 0 <= i < |e| - 1 ==> e[1..][i] == e[i + 1];
    }
  }

  /** Numbers below 2^32 need no padding but zeros. */
  lemma {:induction false} DigitsVanish(e: Bytes, n: nat, i: nat)
    requires i < |e| && Base128(e) < Shl(1, 7 * n) && n <= i
    ensures e[i] % 128 == 0
    decreases |e|
  {
    if n == 0 {
      ZeroShift();
      ZeroDigits(e);
    } else {
      ShlSeven(1, 7 * (n - 1));
      BelowTail(e[0] % 128, Base128(e[1..]), Shl(1, 7 * (n - 1)));
      DigitsVanish(e[1..], n - 1, i - 1);
    }
  }

  lemma ZeroShift()
    ensures Shl(1, 0) == 1
  {
  }

  lemma BelowTail(d: nat, r: nat, m: nat)
    requires d + 128 * r < 128 * m
    ensures r < m
  {
  }

  lemma SmallFits(e: Bytes)
    requires IsVarint(e) && Base128(e) < TWO32
    ensures Base128(e) % TWO32 == Base128(e) && Fits32(e, 0, Base128(e))
  {
    hide Shl, Base128;
    ShlValues(1);
    forall i | 0 <= i < |e| && 5 <= i
      ensures Padding(e[i], i, Base128(e))
    {
      DigitsVanish(e, 5, i);
    }
    if |e| == 5 { FifthDigit(e); }
  }

  lemma FifthDigit(e: Bytes)
    requires |e| == 5 && Base128(e) < TWO32
    ensures e[4] % 128 < 16
  {
    var a, b, c, d := e[1..], e[2..], e[3..], e[4..];
    assert a[1..] == b && b[1..] == c && c[1..] == d && d[1..] == [];
    assert Base128(d) == e[4] % 128 + 128 * Base128([]);
    assert Base128(c) >= 128 * Base128(d);
    assert Base128(b) >= 128 * Base128(c);
    assert Base128(a) >= 128 * Base128(b);
    assert Base128(e) >= 128 * Base128(a);
  }

  // ---------------------------------------------------------------- byte strings

  /** Any bytes below 2^32 in number, read by a bytes field: accepted as they are, exactly when its storage has room. */
  lemma BytesAccepted(f: Field, prev: Value, b: Bytes, t: Bytes)
    requires f.ltype.LBytes? && |b| < TWO32
    ensures DecValue(f, prev, EncString(b) + t) == if |b| + 4 <= f.dataSize then Done(Blob(b), t) else Fail
  {
    hide Dec32, EncString;
    StringRoundTrip(b, t);
  }

  /** By a string field: with whatever zero bytes are in them, exactly when a byte is left for the terminator. */
  lemma StringAccepted(f: Field, prev: Value, b: Bytes, t: Bytes)
    requires f.ltype.LString? && |b| < TWO32 && f.dataSize < TWO32
    ensures DecValue(f, prev, EncString(b) + t) == if |b| < f.dataSize then Done(Blob(b), t) else Fail
  {
    hide Dec32, EncString;
    StringRoundTrip(b, t);
  }

  /** By a field of fixed length: exactly when the length is right, or nothing, which stands for zeros. */
  lemma FixedLengthAccepted(f: Field, prev: Value, b: Bytes, t: Bytes)
    requires f.ltype.LFixedLengthBytes? && |b| < TWO32
    ensures DecValue(f, prev, EncString(b) + t)
         == if |b| == f.dataSize then Done(Blob(b), t)
            else if b == [] then Done(Blob(seq(f.dataSize, _ => 0)), t) else Fail
  {
    StringRoundTrip(b, t);
    hide Dec32, EncString, Take;
    if b == [] {
      NothingBefore(b, t);
      if f.dataSize == 0 { NoZeros(f.dataSize); }
    }
  }

  lemma NothingBefore(b: Bytes, t: Bytes)
    requires b == []
    ensures b + t == t
  {
  }

  lemma NoZeros(n: nat)
    requires n == 0
    ensures seq(n, _ => 0) == []
  {
  }

  /** No length-delimited value is read that is not there to its last byte. */
  lemma ShortIsRefused(f: Field, prev: Value, n: nat, b: Bytes)
    requires WireType(f.ltype) == 2 && 0 < n < TWO32 && |b| < n
    ensures DecValue(f, prev, EncVarint(n) + b) == Fail
  {
    hide Dec32, EncVarint;
    Dec32RoundTrip(n, b);
  }

  // ---------------------------------------------------------------- messages in messages

  /** What is behind a zero byte in a submessage is passed over with it. */
  lemma SubmessageEnds(f: Field, prev: Value, body: Bytes, junk: Bytes, t: Bytes)
    requires f.ltype.LSubmessage? && |body + ([0] + junk)| < TWO32
    requires DecLoop(f.sub, Start(Repeats.StartOf(f, prev)), body).Ended?
    ensures DecValue(f, prev, EncString(body + ([0] + junk)) + t) == DecValue(f, prev, EncString(body) + t)
  {
    hide Dec32, EncString, DecLoop, DefaultsTo, Delimited;
    StringRoundTrip(body, t);
    StringRoundTrip(body + ([0] + junk), t);
    ZeroEnds(f.sub, Repeats.StartOf(f, prev), body, junk);
  }

  /** A zero byte behind its last field ends a message, and is read with it. */
  lemma ZeroEnds(fields: seq<Field>, slots: seq<Slot>, body: Bytes, t: Bytes)
    requires DecLoop(fields, Start(slots), body).Ended?
    ensures DecMessage(fields, slots, body + ([0] + t)).Done? <==> DecMessage(fields, slots, body).Done?
    ensures DecMessage(fields, slots, body).Done? ==>
              DecMessage(fields, slots, body).rest == []
              && DecMessage(fields, slots, body + ([0] + t)) == Done(DecMessage(fields, slots, body).value, t)
  {
    hide DecLoop;
    Merge.LoopConcat(fields, Start(slots), body, [0] + t);
    LoopEnd(fields, DecLoop(fields, Start(slots), body).p, t);
  }

  /** pb_decode_delimited likewise: the stream goes on behind the length that was announced. */
  lemma DelimitedEnds(fields: seq<Field>, prev: seq<Slot>, body: Bytes, junk: Bytes, t: Bytes)
    requires |body + ([0] + junk)| < TWO32 && DecLoop(fields, Start(Defaults(fields, prev)), body).Ended?
    ensures DecDelimited(fields, prev, EncString(body + ([0] + junk)) + t)
         == DecDelimited(fields, prev, EncString(body) + t)
  {
    hide Dec32, EncString, DecLoop, DefaultsTo, Delimited;
    StringRoundTrip(body, t);
    StringRoundTrip(body + ([0] + junk), t);
    ZeroEnds(fields, Defaults(fields, prev), body, junk);
  }

  // ---------------------------------------------------------------- tags

  /** Of all tag words only the one that is zero ends a message; a zero tag with another wire type does not. */
  lemma TagAccepted(tag: nat, wt: nat, t: Bytes)
    requires tag < 0x2000_0000 && wt < 8
    ensures DecTag(EncTag(tag, wt) + t) == if tag == 0 && wt == 0 then EndTag(t) else Tag(wt, tag, t)
  {
    hide Dec32, EncVarint;
    Dec32RoundTrip(8 * tag + wt, t);
  }

  /** A message does not end in the middle of a tag: bytes that all announce another one are refused. */
  lemma BrokenTagRefused(fields: seq<Field>, p: Progress, a: Bytes, x: Bytes)
    requires DecLoop(fields, p, a).Ended? && x != [] && forall i :: 0 <= i < |x| ==> x[i] >= 128
    ensures DecLoop(fields, p, a + x) == LoopFail
  {
    Merge.LoopConcat(fields, p, a, x);
    hide Dec32, DecStep;
    Unterminated(x);
  }

  // ---------------------------------------------------------------- unknown fields

  /** The bytes that a field of each wire type takes. */
  predicate Skippable(wt: nat, x: Bytes) {
    match wt
    case 0 => IsVarint(x)
    case 1 => |x| == 8
    case 2 => exists n: nat :: n <= |x| && Dec32(x[..n]) == Done(|x| - n, [])
    case 5 => |x| == 4
    case _ => false
  }

  lemma {:induction false} SkipVarintReads(x: Bytes, t: Bytes)
    requires IsVarint(x)
    ensures SkipVarint(x + t) == Done((), t)
    decreases |x|
  {
    VarintTail(x);
    Cut(x, t);
    hide IsVarint, Base128;
    if |x| == 1 {
      LastDigit(x, 0);
      assert ([x[0]] + t)[1..] == t;
    } else {
      SkipVarintReads(x[1..], t);
      assert ([x[0]] + (x[1..] + t))[1..] == x[1..] + t;
    }
  }

  lemma SkipDelimited(x: Bytes, n: nat, t: Bytes)
    requires n <= |x| && Dec32(x[..n]) == Done(|x| - n, [])
    ensures Skip(2, x + t) == Done((), t)
  {
    hide Dec32;
    assert x + t == x[..n] + (x[n..] + t);
    Dec32Stable(x[..n], x[n..] + t);
    assert [] + (x[n..] + t) == x[n..] + t;
    TakeAppend(x[n..], t);
  }

  lemma SkipAccepts(wt: nat, x: Bytes, t: Bytes)
    requires Skippable(wt, x)
    ensures Skip(wt, x + t) == Done((), t)
  {
    hide Dec32, IsVarint;
    if wt == 0 {
      SkipVarintReads(x, t);
    } else if wt == 2 {
      var n: nat :| n <= |x| && Dec32(x[..n]) == Done(|x| - n, []);
      SkipDelimited(x, n, t);
    } else {
      TakeAppend(x, t);
    }
  }

  lemma {:induction false} SkippedVarint(s: Bytes) returns (k: nat)
    requires SkipVarint(s).Done?
    ensures k < |s| && s[k] < 128
    decreases |s|
  {
    if s[0] < 128 {
      k := 0;
    } else {
      var j := SkippedVarint(s[1..]);
      k := j + 1;
    }
  }

  lemma {:induction false} Dec32LoopTrim(s: Bytes, bitpos: nat, acc: nat)
    requires Dec32Loop(s, bitpos, acc).Done?
    ensures var r := Dec32Loop(s, bitpos, acc); Dec32Loop(s[..|s| - |r.rest|], bitpos, acc) == Done(r.value, [])
    decreases |s|
  {
    hide Digit32;
    var n := |s| - |Dec32Loop(s, bitpos, acc).rest|;
    assert s[..n][1..] == s[1..][..n - 1];
    if s[0] >= 128 {
      Dec32LoopTrim(s[1..], (bitpos + 7) % 256, Digit32(acc, s[0] % 128, bitpos));
    }
  }

  /** The bytes that a 32-bit varint was read from are one by themselves. */
  lemma Dec32Trim(s: Bytes)
    requires Dec32(s).Done?
    ensures Dec32(s[..|s| - |Dec32(s).rest|]) == Done(Dec32(s).value, [])
  {
    hide Dec32Loop;
    var n := |s| - |Dec32(s).rest|;
    assert s[..n][1..] == s[1..][..n - 1];
    if s[0] >= 128 { Dec32LoopTrim(s[1..], 7, s[0] % 128); }
  }

  lemma SkippedString(s: Bytes) returns (n: nat)
    requires Skip(2, s).Done?
    ensures n <= |s| && Skippable(2, s[..n])
  {
    hide Dec32;
    var k := |s| - |Dec32(s).rest|;
    n := k + Dec32(s).value;
    Dec32Trim(s);
    assert s[..n][..k] == s[..k];
  }

  /** What pb_skip_field passes over, for any wire type and any bytes: one whole field, or it fails. */
  lemma SkipExactly(wt: nat, s: Bytes)
    ensures Skip(wt, s).Done? <==> exists n: nat :: n <= |s| && Skippable(wt, s[..n])
  {
    hide Skip, Skippable;
    if n: nat :| n <= |s| && Skippable(wt, s[..n]) {
      SkipAccepts(wt, s[..n], s[n..]);
      assert s[..n] + s[n..] == s;
    } else if Skip(wt, s).Done? {
      var n := Skipped(wt, s);
    }
  }

  lemma Skipped(wt: nat, s: Bytes) returns (n: nat)
    requires Skip(wt, s).Done?
    ensures n <= |s| && Skippable(wt, s[..n])
  {
    hide Dec32;
    if wt == 0 {
      var k := SkippedVarint(s);
      n := FirstVarint(s, k);
    } else if wt == 2 {
      n := SkippedString(s);
    } else {
      n := if wt == 1 then 8 else 4;
    }
  }

  /** A field whose tag no entry has is passed over whole, and what is no whole field of its wire type is refused. */
  lemma UnknownFieldExactly(fields: seq<Field>, p: Progress, tag: nat, wt: nat, s: Bytes)
    requires tag < 0x2000_0000 && wt < 8 && (tag != 0 || (wt != 0 && fields != []))
    requires forall i :: 0 <= i < |fields| ==> fields[i].tag != tag
    ensures (forall n: nat :: n <= |s| ==> !Skippable(wt, s[..n])) ==>
              DecLoop(fields, p, EncTag(tag, wt) + s) == LoopFail
    ensures forall n: nat :: n <= |s| && Skippable(wt, s[..n]) ==>
              DecLoop(fields, p, EncTag(tag, wt) + s) == DecLoop(fields, p, s[n..])
  {
    hide *;
    UnknownStep(fields, p, tag, wt, s);
    SkipExactly(wt, s);
    forall n: nat | n <= |s| && Skippable(wt, s[..n])
      ensures Skip(wt, s) == Done((), s[n..])
    {
      SkipAccepts(wt, s[..n], s[n..]);
      assert s[..n] + s[n..] == s;
    }
  }

  lemma UnknownStep(fields: seq<Field>, p: Progress, tag: nat, wt: nat, s: Bytes)
    requires tag < 0x2000_0000 && wt < 8 && (tag != 0 || (wt != 0 && fields != []))
    requires forall i :: 0 <= i < |fields| ==> fields[i].tag != tag
    ensures DecLoop(fields, p, EncTag(tag, wt) + s)
         == if Skip(wt, s).Fail? then LoopFail else DecLoop(fields, p, Skip(wt, s).rest)
  {
    TagAccepted(tag, wt, s);
    hide Skip, EncTag, DecTag, Lookup, DecField;
    assert EncTag(tag, wt) + s != [];
    assert DecStep(fields, p, wt, tag, s) == if Skip(wt, s).Fail? then Fail else Done(p, Skip(wt, s).rest);
  }

  /** On an empty table a zero tag of another wire type is taken for a bool, whatever that wire type. */
  lemma EmptyTableReadsBool(p: Progress, wt: nat, e: Bytes, t: Bytes)
    requires 0 < wt < 8 && IsVarint(e) && |e| <= 10 && Base128(e) < TWO32
    ensures DecLoop([], p, EncTag(0, wt) + e + t) == DecLoop([], p, t)
  {
    TagAccepted(0, wt, e + t);
    EmptyTableStep(p, wt, e, t);
    hide DecStep, EncTag, DecTag, IsVarint, Base128;
    Repeats.Tagged(0, wt, e, t);
    assert EncTag(0, wt) + (e + t) != [];
  }

  lemma EmptyTableStep(p: Progress, wt: nat, e: Bytes, t: Bytes)
    requires IsVarint(e) && |e| <= 10 && Base128(e) < TWO32
    ensures DecStep([], p, wt, 0, e + t) == Done(p, t)
  {
    Dec32Reads(e, t);
    SmallFits(e);
    hide Dec32, IsVarint, Fits32, Base128, DecField;
  }
}
