/** Bytes, parse results and the bit arithmetic shared by the encoder and the decoder. */
module Wire {

  type Byte = b: int | 0 <= b < 256
  type Bytes = seq<Byte>

  const TWO31: nat := 0x8000_0000
  const TWO32: nat := 0x1_0000_0000
  const TWO35: nat := 0x8_0000_0000
  const TWO63: nat := 0x8000_0000_0000_0000
  const TWO64: nat := 0x1_0000_0000_0000_0000

  datatype Option<+T> = None | Some(value: T)

  /** What a decoder does with the bytes left in its stream. */
  datatype Parse<+T> = Fail | Done(value: T, rest: Bytes)

  /** What an encoder appends to its stream. */
  datatype Output = Error | Wrote(bytes: Bytes)

  function Append(a: Output, b: Output): Output {
    if a.Wrote? && b.Wrote? then Wrote(a.bytes + b.bytes) else Error
  }

  /** `rest` is what is left of `s` after some prefix was consumed. */
  predicate IsSuffix(rest: Bytes, s: Bytes) {
    |rest| <= |s| && rest == s[|s| - |rest|..]
  }

  /** pb_read over a buffer stream: `n` bytes, or end-of-stream. */
  function Take(s: Bytes, n: nat): (r: Parse<Bytes>)
    ensures r.Done? ==> IsSuffix(r.rest, s) && |r.rest| == |s| - n
  {
    if n <= |s| then Done(s[..n], s[n..]) else Fail
  }

  lemma TakeAppend(a: Bytes, t: Bytes)
    ensures Take(a + t, |a|) == Done(a, t)
  {
    assert (a + t)[..|a|] == a;
    assert (a + t)[|a|..] == t;
  }

  // ---------------------------------------------------------------- shifts and bitwise or

  /** The C expression `d << n`, before it is cut to a width. */
  function Shl(d: nat, n: nat): (r: nat)
    ensures d <= r
  {
    if n == 0 then d else 2 * Shl(d, n - 1)
  }

  /** A shift by one base-128 digit. */
  lemma ShlSeven(d: nat, n: nat)
    ensures Shl(d, n + 7) == 128 * Shl(d, n)
  {
    assert Shl(d, n + 7) == 2 * Shl(d, n + 6);
    assert Shl(d, n + 6) == 2 * Shl(d, n + 5);
    assert Shl(d, n + 5) == 2 * Shl(d, n + 4);
    assert Shl(d, n + 4) == 2 * Shl(d, n + 3);
    assert Shl(d, n + 3) == 2 * Shl(d, n + 2);
    assert Shl(d, n + 2) == 2 * Shl(d, n + 1);
  }

  lemma {:induction false} ShlMonotone(d: nat, e: nat, n: nat)
    requires d < e
    ensures Shl(d, n) < Shl(e, n)
  {
    if n > 0 { ShlMonotone(d, e, n - 1); }
  }

  /** Splitting off the lowest base-128 digit. */
  lemma {:induction false} ShlSplit(w: nat, n: nat)
    ensures Shl(w, n) == Shl(w % 128, n) + Shl(w / 128, n + 7)
  {
    if n == 0 {
      ShlSeven(w / 128, 0);
    } else {
      ShlSplit(w, n - 1);
    }
  }

  /** A digit above an accumulator that fills the lower bits. */
  lemma {:induction false} ShlDigitFits(acc: nat, d: nat, n: nat)
    requires acc < Shl(1, n) && d < 128
    ensures acc + Shl(d, n) < Shl(1, n + 7)
  {
    if n == 0 {
      ShlSeven(1, 0);
    } else {
      assert acc / 2 < Shl(1, n - 1);
      ShlDigitFits(acc / 2, d, n - 1);
      assert Shl(1, n + 7) == 2 * Shl(1, n + 6);
    }
  }

  /** The shifts at the bit positions of a varint, as multiples. */
  lemma ShlValues(d: nat)
    ensures Shl(d, 7) == 0x80 * d && Shl(d, 14) == 0x4000 * d && Shl(d, 21) == 0x20_0000 * d
    ensures Shl(d, 28) == 0x1000_0000 * d && Shl(d, 35) == 0x8_0000_0000 * d
    ensures Shl(d, 42) == 0x400_0000_0000 * d && Shl(d, 49) == 0x2_0000_0000_0000 * d
    ensures Shl(d, 56) == 0x100_0000_0000_0000 * d && Shl(d, 63) == 0x8000_0000_0000_0000 * d
    ensures Shl(d, 70) == 0x40_0000_0000_0000_0000 * d
  {
    ShlSeven(d, 0);
    ShlSeven(d, 7);
    ShlSeven(d, 14);
    ShlSeven(d, 21);
    ShlSeven(d, 28);
    ShlSeven(d, 35);
    ShlSeven(d, 42);
    ShlSeven(d, 49);
    ShlSeven(d, 56);
    ShlSeven(d, 63);
  }

  /** The C operator `|` on unsigned values. */
  function BitOr(a: nat, b: nat): nat
    decreases a + b
  {
    if a == 0 then b
    else if b == 0 then a
    else (if a % 2 == 1 || b % 2 == 1 then 1 else 0) + 2 * BitOr(a / 2, b / 2)
  }

  lemma BitOrZero(a: nat)
    ensures BitOr(a, 0) == a && BitOr(0, a) == a
  {
  }

  /** One unrolling of `|` at the lowest bit, without the zero shortcuts. */
  lemma BitOrStep(a: nat, b: nat)
    ensures BitOr(a, b) == (if a % 2 == 1 || b % 2 == 1 then 1 else 0) + 2 * BitOr(a / 2, b / 2)
  {
    BitOrZero(a / 2);
    BitOrZero(b / 2);
  }

  /** Values without a common bit: `|` adds them. */
  lemma {:induction false} BitOrDisjoint(a: nat, d: nat, n: nat)
    requires a < Shl(1, n)
    ensures BitOr(a, Shl(d, n)) == a + Shl(d, n)
  {
    if n == 0 {
      BitOrZero(d);
    } else {
      BitOrStep(a, Shl(d, n));
      BitOrDisjoint(a / 2, d, n - 1);
    }
  }

  // ---------------------------------------------------------------- varint encoding

  /** pb_encode_varint: base-128 digits, least significant first, continuation bit on all but the last. */
  function EncVarint(v: nat): (e: Bytes)
    ensures |e| >= 1
  {
    if v < 128 then [v] else [v % 128 + 128] + EncVarint(v / 128)
  }

  /** The encoding of a digit followed by anything, as one byte and the rest. */
  lemma EncVarintStep(w: nat, t: Bytes)
    ensures w < 128 ==> EncVarint(w) + t == [w] + t
    ensures w >= 128 ==> EncVarint(w) + t == [w % 128 + 128] + (EncVarint(w / 128) + t)
  {
  }

  /** The number that base-128 digits stand for, least significant first, their continuation bits apart. */
  function Base128(e: Bytes): nat {
    if e == [] then 0 else e[0] % 128 + 128 * Base128(e[1..])
  }

  /** The form of a varint: the digits of the value, shortest, with the continuation bit on all but the last. */
  lemma {:induction false} VarintForm(v: nat)
    ensures var e := EncVarint(v);
            && Base128(e) == v && (forall i :: 0 <= i < |e| - 1 ==> e[i] >= 128) && e[|e| - 1] < 128
            && (|e| > 1 ==> e[|e| - 1] != 0)
  {
    if v < 128 {
      assert Base128([v]) == v + 128 * Base128([]);
    } else {
      VarintForm(v / 128);
      assert EncVarint(v)[1..] == EncVarint(v / 128);
    }
  }

  lemma {:induction false} VarintLength(v: nat, k: nat)
    requires v < Shl(1, 7 * k)
    ensures |EncVarint(v)| <= if k == 0 then 1 else k
    decreases k
  {
    if v >= 128 {
      ShlSeven(1, 7 * (k - 1));
      VarintLength(v / 128, k - 1);
      ShlSeven(1, 0);
    }
  }

  /** The ten-byte buffer of pb_encode_varint is always large enough. */
  lemma VarintAtMostTen(v: nat)
    requires v < TWO64
    ensures 1 <= |EncVarint(v)| <= 10
  {
    ShlValues(1);
    VarintLength(v, 10);
  }

  // ---------------------------------------------------------------- 64-bit varint decoding

  /** The 64-bit accumulator after one more digit at `bitpos`; bits beyond the 64th are lost. */
  function Digit64(acc: nat, d: nat, bitpos: nat): nat {
    BitOr(acc, Shl(d, bitpos) % TWO64)
  }

  /** The loop of pb_decode_varint: a narrow bit position and an accumulated result. */
  function Dec64Loop(s: Bytes, bitpos: nat, acc: nat): (r: Parse<nat>)
    ensures r.Done? ==> IsSuffix(r.rest, s) && |r.rest| < |s|
  {
    if bitpos >= 64 || s == [] then Fail
    else
      var acc' := Digit64(acc, s[0] % 128, bitpos);
      if s[0] >= 128 then Dec64Loop(s[1..], bitpos + 7, acc') else Done(acc', s[1..])
  }

  function Dec64(s: Bytes): (r: Parse<nat>)
    ensures r.Done? ==> IsSuffix(r.rest, s) && |r.rest| < |s|
  {
    Dec64Loop(s, 0, 0)
  }

  lemma Dec64Step(b: Byte, r: Bytes, bitpos: nat, acc: nat)
    requires bitpos < 64
    ensures Dec64Loop([b] + r, bitpos, acc)
         == var acc' := Digit64(acc, b % 128, bitpos);
            if b >= 128 then Dec64Loop(r, bitpos + 7, acc') else Done(acc', r)
  {
    hide Digit64;
    assert ([b] + r)[1..] == r;
  }

  lemma {:induction false} Dec64LoopRoundTrip(w: nat, bitpos: nat, acc: nat, t: Bytes)
    requires bitpos < 64 && acc < Shl(1, bitpos) && Shl(w, bitpos) < TWO64
    ensures Dec64Loop(EncVarint(w) + t, bitpos, acc) == Done(acc + Shl(w, bitpos), t)
    decreases w
  {
    hide Shl, BitOr, Dec64Loop, EncVarint;
    EncVarintStep(w, t);
    ShlSplit(w, bitpos);
    BitOrDisjoint(acc, w % 128, bitpos);
    if w < 128 {
      Dec64Step(w, t, bitpos, acc);
    } else {
      Dec64Step(w % 128 + 128, EncVarint(w / 128) + t, bitpos, acc);
      ShlDigitFits(acc, w % 128, bitpos);
      ShlBound(w / 128, bitpos + 7);
      Dec64LoopRoundTrip(w / 128, bitpos + 7, acc + Shl(w % 128, bitpos), t);
    }
  }

  /** A non-zero value shifted by 64 or more does not fit. */
  lemma {:induction false} ShlBound(w: nat, n: nat)
    requires w >= 1 && Shl(w, n) < TWO64 && n < 71
    ensures n < 64
  {
    if n >= 64 {
      if n == 64 { ShlValues(w); } else { ShlBound(w, n - 1); }
    }
  }

  /** Every 64-bit value decodes back, consuming exactly its encoding. */
  lemma Dec64RoundTrip(v: nat, t: Bytes)
    requires v < TWO64
    ensures Dec64(EncVarint(v) + t) == Done(v, t)
  {
    hide Dec64Loop, EncVarint;
    Dec64LoopRoundTrip(v, 0, 0, t);
  }

  // ---------------------------------------------------------------- 32-bit varint decoding

  /** The 32-bit accumulator after one more digit at `bitpos`. */
  function Digit32(acc: nat, d: nat, bitpos: nat): nat {
    if bitpos >= 32 then acc else BitOr(acc, Shl(d, bitpos) % TWO32)
  }

  /** The multibyte loop of pb_decode_varint32_eof. The bit position is an 8-bit counter and wraps. */
  function Dec32Loop(s: Bytes, bitpos: nat, acc: nat): (r: Parse<nat>)
    ensures r.Done? ==> IsSuffix(r.rest, s) && |r.rest| < |s|
  {
    if s == [] then Fail
    else
      var b := s[0];
      var signExtension := if bitpos < 63 then 0xFF else 0x01;
      if bitpos >= 32 && b % 128 != 0 && (acc < TWO31 || b != signExtension) then Fail
      else
        var acc' := Digit32(acc, b % 128, bitpos);
        var bitpos' := (bitpos + 7) % 256;
        if b >= 128 then Dec32Loop(s[1..], bitpos', acc')
        else if bitpos' == 35 && (b / 16) % 8 != 0 then Fail
        else Done(acc', s[1..])
  }

  function Dec32(s: Bytes): (r: Parse<nat>)
    ensures r.Done? ==> IsSuffix(r.rest, s) && |r.rest| < |s|
  {
    if s == [] then Fail
    else if s[0] < 128 then Done(s[0], s[1..])
    else Dec32Loop(s[1..], 7, s[0] % 128)
  }

  /** Seven-bit groups that the 32-bit decoder takes for padding, ending in the byte 0x01. */
  predicate PaddedTop(w: nat, groups: nat) {
    if groups == 0 then w == 1
    else (w % 128 == 0 || w % 128 == 127) && PaddedTop(w / 128, groups - 1)
  }

  lemma {:induction false} PaddedTopZero(groups: nat)
    ensures !PaddedTop(0, groups)
  {
    if groups > 0 { PaddedTopZero(groups - 1); }
  }

  /** What the 32-bit decoder makes of the canonical encoding of `v`. */
  function Dec32Expected(v: nat, t: Bytes): Parse<nat> {
    if v < TWO32 then Done(v, t)
    else if (v / TWO31) % 2 == 1 && PaddedTop(v / TWO35, 4) then Done(v % TWO32, t)
    else Fail
  }

  /** Three digits stay below 2^28. */
  lemma SmallShift(d: nat, bitpos: nat)
    requires (bitpos == 7 || bitpos == 14 || bitpos == 21) && d < 128
    ensures Shl(1, bitpos) <= 0x20_0000 && Shl(d, bitpos) <= 0xFE0_0000
  {
    hide Shl;
    ShlValues(1);
    ShlValues(d);
  }

  lemma Digit32Small(acc: nat, d: nat, bitpos: nat)
    requires (bitpos == 7 || bitpos == 14 || bitpos == 21) && acc < Shl(1, bitpos) && d < 128
    ensures Digit32(acc, d, bitpos) == acc + Shl(d, bitpos) < 0x1000_0000
  {
    hide Shl, BitOr;
    SmallShift(d, bitpos);
    BitOrDisjoint(acc, d, bitpos);
  }

  /** Of the fifth digit only the low four bits reach the accumulator. */
  lemma Digit32Fifth(acc: nat, d: nat)
    requires acc < 0x1000_0000 && d < 128
    ensures Digit32(acc, d, 28) == acc + 0x1000_0000 * (d % 16)
  {
    hide Shl, BitOr;
    ShlValues(1);
    ShlValues(d);
    ShlValues(d % 16);
    assert 0x1000_0000 * d == TWO32 * (d / 16) + 0x1000_0000 * (d % 16);
    BitOrDisjoint(acc, d % 16, 28);
  }

  /** One byte of the loop while the result still grows. */
  lemma Dec32Step(b: Byte, r: Bytes, bitpos: nat, acc: nat)
    requires bitpos <= 28
    ensures Dec32Loop([b] + r, bitpos, acc)
         == var acc' := Digit32(acc, b % 128, bitpos);
            if b >= 128 then Dec32Loop(r, bitpos + 7, acc')
            else if bitpos == 28 && (b / 16) % 8 != 0 then Fail
            else Done(acc', r)
  {
    hide Digit32;
    assert ([b] + r)[1..] == r;
  }

  /** One byte of the loop at bit positions 7, 14 and 21, where nothing can overflow. */
  lemma Dec32StepLow(b: Byte, r: Bytes, bitpos: nat, acc: nat)
    requires (bitpos == 7 || bitpos == 14 || bitpos == 21) && acc < Shl(1, bitpos)
    ensures Dec32Loop([b] + r, bitpos, acc)
         == var acc' := acc + Shl(b % 128, bitpos);
            if b >= 128 then Dec32Loop(r, bitpos + 7, acc') else Done(acc', r)
  {
    hide Shl, Digit32, Dec32Loop;
    Dec32Step(b, r, bitpos, acc);
    Digit32Small(acc, b % 128, bitpos);
  }

  /** One byte of the loop at bit position 28: only its low four bits fit. */
  lemma Dec32Step28(b: Byte, r: Bytes, acc: nat)
    requires acc < 0x1000_0000
    ensures Dec32Loop([b] + r, 28, acc)
         == if b >= 128 then Dec32Loop(r, 35, acc + 0x1000_0000 * (b % 16))
            else if b < 16 then Done(acc + 0x1000_0000 * b, r) else Fail
  {
    hide Digit32, Dec32Loop;
    Dec32Step(b, r, 28, acc);
    Digit32Fifth(acc, b % 128);
    assert (b % 128) % 16 == b % 16;
  }

  /** One byte of the loop beyond bit 35: it only checks padding. */
  lemma Dec32StepHigh(b: Byte, r: Bytes, bitpos: nat, acc: nat)
    requires 35 <= bitpos <= 63
    ensures Dec32Loop([b] + r, bitpos, acc)
         == if b % 128 != 0 && (acc < TWO31 || b != (if bitpos < 63 then 0xFF else 0x01)) then Fail
            else if b >= 128 then Dec32Loop(r, bitpos + 7, acc) else Done(acc, r)
  {
    assert Digit32(acc, b % 128, bitpos) == acc;
    hide Digit32;
    assert (bitpos + 7) % 256 == bitpos + 7;
    var s := [b] + r;
    assert s[0] == b && s[1..] == r;
  }

  lemma {:induction false} Dec32TopLoop(w: nat, groups: nat, acc: nat, t: Bytes)
    requires groups <= 4 && 1 <= w < 2 * Shl(1, 7 * groups)
    ensures Dec32Loop(EncVarint(w) + t, 63 - 7 * groups, acc)
         == if acc >= TWO31 && PaddedTop(w, groups) then Done(acc, t) else Fail
    decreases groups
  {
    hide EncVarint, Dec32Loop;
    EncVarintStep(w, t);
    if w < 128 {
      Dec32StepHigh(w, t, 63 - 7 * groups, acc);
      if groups > 0 { PaddedTopZero(groups - 1); }
    } else {
      Dec32StepHigh(w % 128 + 128, EncVarint(w / 128) + t, 63 - 7 * groups, acc);
      ShlSeven(1, 7 * (groups - 1));
      Dec32TopLoop(w / 128, groups - 1, acc, t);
    }
  }

  lemma Remainder32(r: nat, q: nat)
    requires r < TWO32
    ensures (r + TWO32 * q) % TWO32 == r
  {
  }

  lemma Quotient31(r: nat, q: nat)
    requires r < TWO31
    ensures (r + TWO31 * q) / TWO31 == q
  {
  }

  lemma Quotient35(r: nat, q: nat)
    requires r < TWO35
    ensures (r + TWO35 * q) / TWO35 == q
  {
  }

  /** The quotients and the remainder that decide the 32-bit result. */
  lemma SplitAt28(w: nat, acc: nat)
    requires acc < 0x1000_0000
    ensures (acc + 0x1000_0000 * w) % TWO32 == acc + 0x1000_0000 * (w % 16)
    ensures (acc + 0x1000_0000 * w) / TWO31 == w / 8
    ensures (acc + 0x1000_0000 * w) / TWO35 == w / 128
  {
    Remainder32(acc + 0x1000_0000 * (w % 16), w / 16);
    Quotient31(acc + 0x1000_0000 * (w % 8), w / 8);
    Quotient35(acc + 0x1000_0000 * (w % 128), w / 128);
  }

  /** Bit 3 of a number, as its remainder and its quotient show it. */
  lemma BitThree(w: nat)
    ensures w % 16 >= 8 <==> (w / 8) % 2 == 1
  {
  }

  lemma BelowSixteen(w: nat, acc: nat)
    requires acc < 0x1000_0000
    ensures acc + 0x1000_0000 * w < TWO32 <==> w < 16
  {
  }

  lemma Dec32ExpectedSplit(w: nat, acc: nat, t: Bytes)
    requires acc < 0x1000_0000
    ensures Dec32Expected(acc + 0x1000_0000 * w, t)
         == if w < 16 then Done(acc + 0x1000_0000 * w, t)
            else if w % 16 >= 8 && PaddedTop(w / 128, 4)
            then Done(acc + 0x1000_0000 * (w % 16), t) else Fail
  {
    SplitAt28(w, acc);
    BitThree(w);
    BelowSixteen(w, acc);
    ExpectedBy(acc + 0x1000_0000 * w, w / 8, w / 128, acc + 0x1000_0000 * (w % 16), t);
  }

  /** The expected result in terms of its quotients and its remainder. */
  lemma ExpectedBy(v: nat, high: nat, top: nat, low: nat, t: Bytes)
    requires v / TWO31 == high && v / TWO35 == top && v % TWO32 == low
    ensures Dec32Expected(v, t)
         == if v < TWO32 then Done(v, t) else if high % 2 == 1 && PaddedTop(top, 4) then Done(low, t) else Fail
  {
    hide PaddedTop;
  }

  lemma FourGroups()
    ensures Shl(1, 28) == 0x1000_0000
  {
    ShlValues(1);
  }

  lemma FifthByteFacts(w: nat, acc: nat)
    requires 128 <= w < 2 * TWO35 && acc < 0x1000_0000
    ensures 1 <= w / 128 < 2 * 0x1000_0000 && (w % 128 + 128) % 16 == w % 16
    ensures acc + 0x1000_0000 * (w % 16) >= TWO31 <==> w % 16 >= 8
  {
  }

  lemma Dec32From28(w: nat, acc: nat, t: Bytes)
    requires 1 <= w < 2 * TWO35 && acc < 0x1000_0000
    ensures Dec32Loop(EncVarint(w) + t, 28, acc) == Dec32Expected(acc + 0x1000_0000 * w, t)
  {
    hide EncVarint, Dec32Loop, Dec32Expected, Shl, PaddedTop;
    EncVarintStep(w, t);
    Dec32ExpectedSplit(w, acc, t);
    if w < 128 {
      Dec32Step28(w, t, acc);
      PaddedTopZero(4);
    } else {
      FifthByteFacts(w, acc);
      Dec32Step28(w % 128 + 128, EncVarint(w / 128) + t, acc);
      FourGroups();
      Dec32TopLoop(w / 128, 4, acc + 0x1000_0000 * (w % 16), t);
    }
  }

  lemma Dec32ExpectedSmall(v: nat, t: Bytes)
    requires v < TWO32
    ensures Dec32Expected(v, t) == Done(v, t)
  {
  }

  lemma {:induction false} Dec32From(w: nat, bitpos: nat, acc: nat, t: Bytes)
    requires bitpos == 7 || bitpos == 14 || bitpos == 21 || bitpos == 28
    requires acc < Shl(1, bitpos) && 1 <= w && Shl(w, bitpos) < TWO64
    ensures Dec32Loop(EncVarint(w) + t, bitpos, acc) == Dec32Expected(acc + Shl(w, bitpos), t)
    decreases 28 - bitpos
  {
    hide EncVarint, Dec32Loop, Dec32Expected, Shl;
    ShlValues(1);
    ShlValues(w);
    if bitpos == 28 {
      Dec32From28(w, acc, t);
    } else {
      EncVarintStep(w, t);
      if w < 128 {
        Dec32StepLow(w, t, bitpos, acc);
        Dec32ExpectedSmall(acc + Shl(w, bitpos), t);
      } else {
        Dec32StepLow(w % 128 + 128, EncVarint(w / 128) + t, bitpos, acc);
        ShlSplit(w, bitpos);
        ShlDigitFits(acc, w % 128, bitpos);
        Dec32From(w / 128, bitpos + 7, acc + Shl(w % 128, bitpos), t);
      }
    }
  }

  /** The 32-bit decoder on the canonical encoding of any 64-bit value: exactly which it accepts. */
  lemma Dec32Canonical(v: nat, t: Bytes)
    requires v < TWO64
    ensures Dec32(EncVarint(v) + t) == Dec32Expected(v, t)
  {
    hide EncVarint, Dec32Loop, Dec32Expected;
    EncVarintStep(v, t);
    if v < 128 {
      assert ([v] + t)[1..] == t;
      Dec32ExpectedSmall(v, t);
    } else {
      assert ([v % 128 + 128] + (EncVarint(v / 128) + t))[1..] == EncVarint(v / 128) + t;
      ShlSeven(1, 0);
      ShlSplit(v, 0);
      Dec32From(v / 128, 7, v % 128, t);
    }
  }

  /** Values below 2^32, such as tags and lengths, decode back. */
  lemma Dec32RoundTrip(v: nat, t: Bytes)
    requires v < TWO32
    ensures Dec32(EncVarint(v) + t) == Done(v, t)
  {
    hide EncVarint, Dec32;
    Dec32Canonical(v, t);
  }

  /** A negative 32-bit integer, sign-extended to 64 bits by the encoder, is accepted too. */
  lemma Dec32SignExtended(n: int, t: Bytes)
    requires -(TWO31 as int) <= n < 0
    ensures Dec32(EncVarint(n + TWO64) + t) == Done(n + TWO32, t)
  {
    hide EncVarint, Dec32;
    var v: nat := n + TWO64;
    Dec32Canonical(v, t);
    assert v / TWO35 == 0x1FFF_FFFF;
    assert PaddedTop(0x1FFF_FFFF, 4) by {
      assert PaddedTop(1, 0) && PaddedTop(0xFF, 1) && PaddedTop(0x7FFF, 2) && PaddedTop(0x3F_FFFF, 3);
    }
  }

  // ---------------------------------------------------------------- agreement of the two decoders

  /** Bit positions of the second to the ninth byte of a varint. */
  predicate MiddlePos(bitpos: nat) {
    bitpos == 7 || bitpos == 14 || bitpos == 21 || bitpos == 28
    || bitpos == 35 || bitpos == 42 || bitpos == 49 || bitpos == 56
  }

  lemma MultipleVanishes(a: nat, k: nat)
    ensures (a + TWO32 * k) % TWO32 == a % TWO32
  {
  }

  /** Below bit 63 a whole digit fits the 64-bit accumulator. */
  lemma Digit64Fits(acc: nat, d: nat, bitpos: nat)
    requires MiddlePos(bitpos) && acc < Shl(1, bitpos) && d < 128
    ensures Digit64(acc, d, bitpos) == acc + Shl(d, bitpos) < Shl(1, bitpos + 7)
  {
    hide Shl, BitOr;
    ShlValues(1);
    ShlDigitFits(acc, d, bitpos);
    BitOrDisjoint(acc, d, bitpos);
  }

  /** From bit 35 on a digit does not reach the low half. */
  lemma HighDigit(acc: nat, d: nat, bitpos: nat)
    requires MiddlePos(bitpos) && bitpos >= 35
    ensures (acc + Shl(d, bitpos)) % TWO32 == acc % TWO32
  {
    hide Shl;
    ShlValues(d);
    if bitpos == 35 {
      MultipleVanishes(acc, 0x8 * d);
    } else if bitpos == 42 {
      MultipleVanishes(acc, 0x400 * d);
    } else if bitpos == 49 {
      MultipleVanishes(acc, 0x2_0000 * d);
    } else {
      MultipleVanishes(acc, 0x100_0000 * d);
    }
  }

  /** Digits of the low half reach both accumulators alike; later ones leave the 32-bit one alone. */
  lemma Digit32IsLowHalf(acc: nat, d: nat, bitpos: nat)
    requires MiddlePos(bitpos) && acc < Shl(1, bitpos) && d < 128
    ensures Digit32(acc % TWO32, d, bitpos) == (acc + Shl(d, bitpos)) % TWO32
  {
    hide Shl, BitOr;
    if bitpos < 28 {
      hide Digit32;
      SmallShift(d, bitpos);
      assert acc % TWO32 == acc;
      Digit32Small(acc, d, bitpos);
    } else if bitpos == 28 {
      hide Digit32;
      FourGroups();
      assert acc % TWO32 == acc;
      ShlValues(d);
      Digit32Fifth(acc, d);
      SplitAt28(d, acc);
    } else {
      HighDigit(acc, d, bitpos);
    }
  }

  lemma Unfold64(s: Bytes, bitpos: nat, acc: nat)
    requires bitpos < 64 && Dec64Loop(s, bitpos, acc).Done?
    ensures s != []
    ensures Dec64Loop(s, bitpos, acc)
         == var acc' := Digit64(acc, s[0] % 128, bitpos);
            if s[0] >= 128 then Dec64Loop(s[1..], bitpos + 7, acc') else Done(acc', s[1..])
  {
    hide Digit64;
  }

  lemma Unfold32(s: Bytes, bitpos: nat, acc: nat)
    requires bitpos <= 56 && Dec32Loop(s, bitpos, acc).Done?
    ensures s != []
    ensures Dec32Loop(s, bitpos, acc)
         == var acc' := Digit32(acc, s[0] % 128, bitpos);
            if s[0] >= 128 then Dec32Loop(s[1..], bitpos + 7, acc') else Done(acc', s[1..])
  {
    hide Digit32;
  }

  /** The tenth byte: only its lowest bit still fits, and the 32-bit accumulator ignores it. */
  lemma TenthBytesAgree(s: Bytes, acc: nat)
    requires acc < 0x8000_0000_0000_0000
    requires Dec64Loop(s, 63, acc).Done? && Dec32Loop(s, 63, acc % TWO32).Done?
    ensures Dec32Loop(s, 63, acc % TWO32) == Done(Dec64Loop(s, 63, acc).value % TWO32, Dec64Loop(s, 63, acc).rest)
  {
    hide Shl, BitOr;
    var d: nat := s[0] % 128;
    Unfold64(s, 63, acc);
    assert s[0] < 128 by { assert Dec64Loop(s[1..], 70, Digit64(acc, d, 63)) == Fail; }
    ShlValues(1);
    ShlValues(d);
    ShlValues(d % 2);
    assert 0x8000_0000_0000_0000 * d == TWO64 * (d / 2) + 0x8000_0000_0000_0000 * (d % 2);
    BitOrDisjoint(acc, d % 2, 63);
    MultipleVanishes(acc, 0x8000_0000 * (d % 2));
  }

  lemma {:induction false} LoopsAgree(s: Bytes, bitpos: nat, acc: nat)
    requires (MiddlePos(bitpos) || bitpos == 63) && acc < Shl(1, bitpos)
    requires Dec64Loop(s, bitpos, acc).Done? && Dec32Loop(s, bitpos, acc % TWO32).Done?
    ensures Dec32Loop(s, bitpos, acc % TWO32)
         == Done(Dec64Loop(s, bitpos, acc).value % TWO32, Dec64Loop(s, bitpos, acc).rest)
    decreases |s|
  {
    hide Dec64Loop, Dec32Loop, Shl, Digit32, Digit64;
    if bitpos == 63 {
      ShlValues(1);
      TenthBytesAgree(s, acc);
    } else {
      Unfold64(s, bitpos, acc);
      Unfold32(s, bitpos, acc % TWO32);
      var d := s[0] % 128;
      Digit64Fits(acc, d, bitpos);
      Digit32IsLowHalf(acc, d, bitpos);
      if s[0] >= 128 {
        LoopsAgree(s[1..], bitpos + 7, acc + Shl(d, bitpos));
      }
    }
  }

  /** Where both varint decoders accept, they consume the same bytes and agree modulo 2^32. */
  lemma VarintDecodersAgree(s: Bytes)
    requires Dec64(s).Done? && Dec32(s).Done?
    ensures Dec32(s).rest == Dec64(s).rest && Dec32(s).value == Dec64(s).value % TWO32
  {
    hide Dec64Loop, Dec32Loop, BitOr;
    var d := s[0] % 128;
    Unfold64(s, 0, 0);
    BitOrZero(d);
    if s[0] >= 128 {
      ShlSeven(1, 0);
      LoopsAgree(s[1..], 7, d);
    }
  }

  // ---------------------------------------------------------------- prefix stability

  /** Bytes after the end of a varint do not change how it is read. */
  lemma {:induction false} Dec64LoopStable(s: Bytes, t: Bytes, bitpos: nat, acc: nat)
    requires Dec64Loop(s, bitpos, acc).Done?
    ensures Dec64Loop(s + t, bitpos, acc)
         == Done(Dec64Loop(s, bitpos, acc).value, Dec64Loop(s, bitpos, acc).rest + t)
    decreases |s|
  {
    assert (s + t)[1..] == s[1..] + t;
    if s[0] >= 128 {
      hide Digit64;
      Dec64LoopStable(s[1..], t, bitpos + 7, Digit64(acc, s[0] % 128, bitpos));
    }
  }

  lemma {:induction false} Dec32LoopStable(s: Bytes, t: Bytes, bitpos: nat, acc: nat)
    requires Dec32Loop(s, bitpos, acc).Done?
    ensures Dec32Loop(s + t, bitpos, acc)
         == Done(Dec32Loop(s, bitpos, acc).value, Dec32Loop(s, bitpos, acc).rest + t)
    decreases |s|
  {
    assert (s + t)[1..] == s[1..] + t;
    if s[0] >= 128 {
      hide Digit32;
      Dec32LoopStable(s[1..], t, (bitpos + 7) % 256, Digit32(acc, s[0] % 128, bitpos));
    }
  }

  lemma Dec64Stable(s: Bytes, t: Bytes)
    requires Dec64(s).Done?
    ensures Dec64(s + t) == Done(Dec64(s).value, Dec64(s).rest + t)
  {
    Dec64LoopStable(s, t, 0, 0);
  }

  lemma Dec32Stable(s: Bytes, t: Bytes)
    requires Dec32(s).Done?
    ensures Dec32(s + t) == Done(Dec32(s).value, Dec32(s).rest + t)
  {
    assert (s + t)[1..] == s[1..] + t;
    if s[0] >= 128 {
      Dec32LoopStable(s[1..], t, 7, s[0] % 128);
    }
  }

  lemma TakeStable(s: Bytes, t: Bytes, n: nat)
    requires Take(s, n).Done?
    ensures Take(s + t, n) == Done(Take(s, n).value, Take(s, n).rest + t)
  {
    assert (s + t)[..n] == s[..n];
    assert (s + t)[n..] == s[n..] + t;
  }
}
