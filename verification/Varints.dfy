/** Varints in any form, canonical or not: exactly what the two decoders accept, and as which number. */
module Varints {
  import opened Wire

  /** The bytes of one varint, however long: the continuation bit is on for all but the last. */
  predicate IsVarint(e: Bytes) {
    e != [] && e[|e| - 1] < 128 && forall i :: 0 <= i < |e| - 1 ==> e[i] >= 128
  }

  lemma LowDigit(d: nat, r: nat)
    requires d < 128
    ensures (d + 128 * r) % 128 == d && (d + 128 * r) / 128 == r
  {
  }

  lemma BaseTail(e: Bytes)
    requires e != []
    ensures Base128(e) % 128 == e[0] % 128 && Base128(e) / 128 == Base128(e[1..])
  {
    var d, r := e[0] % 128, Base128(e[1..]);
    assert Base128(e) == d + 128 * r;
    hide Base128;
    LowDigit(d, r);
  }

  lemma VarintTail(e: Bytes)
    requires IsVarint(e)
    ensures e != [] && (e[0] < 128 <==> |e| == 1)
    ensures |e| > 1 ==> IsVarint(e[1..])
    ensures Base128(e) % 128 == e[0] % 128 && Base128(e) / 128 == Base128(e[1..])
  {
    hide Base128;
    BaseTail(e);
  }

  /** The encoder's varints are among them. */
  lemma EncodedIsVarint(v: nat)
    ensures IsVarint(EncVarint(v)) && Base128(EncVarint(v)) == v
  {
    VarintForm(v);
  }

  // ---------------------------------------------------------------- 64 bits

  lemma Cut(e: Bytes, t: Bytes)
    requires e != []
    ensures e + t == [e[0]] + (e[1..] + t)
  {
  }

  /** The tenth byte: only its lowest bit still fits. */
  lemma TenthDigit(acc: nat, d: nat)
    requires acc < TWO63 && d < 128
    ensures Digit64(acc, d, 63) == (acc + Shl(d, 63)) % TWO64
  {
    TopBit(acc, d);
    hide Shl, BitOr;
    BitOrDisjoint(acc, d % 2, 63);
  }

  /** Of a digit at bit 63 its lowest bit is left, and the rest is a multiple of 2^64. */
  lemma TopBit(acc: nat, d: nat)
    requires acc < TWO63
    ensures acc < Shl(1, 63) && Shl(d, 63) % TWO64 == Shl(d % 2, 63)
    ensures (acc + Shl(d, 63)) % TWO64 == acc + Shl(d % 2, 63)
  {
    hide Shl;
    AtBit63(1);
    AtBit63(d);
    AtBit63(d % 2);
    Reassembled(acc, d);
  }

  lemma AtBit63(d: nat)
    ensures Shl(d, 63) == TWO63 * d
  {
    ShlValues(d);
  }

  lemma Reassembled(acc: nat, d: nat)
    requires acc < TWO63
    ensures (TWO63 * d) % TWO64 == TWO63 * (d % 2) && (acc + TWO63 * d) % TWO64 == acc + TWO63 * (d % 2)
  {
    Multiple(d);
    LowPart(0, d % 2, d / 2);
    LowPart(acc, d % 2, d / 2);
  }

  lemma LowPart(acc: nat, low: nat, q: nat)
    requires acc < TWO63 && low < 2
    ensures (acc + (TWO63 * low + TWO64 * q)) % TWO64 == acc + TWO63 * low
  {
    assert low == 0 || low == 1;
    Reduced(acc + TWO63 * low, q);
  }

  lemma Multiple(d: nat)
    ensures TWO63 * d == TWO63 * (d % 2) + TWO64 * (d / 2)
  {
    assert d == d % 2 + 2 * (d / 2);
  }

  lemma Reduced(r: nat, q: nat)
    requires r < TWO64
    ensures (r + TWO64 * q) % TWO64 == r && (TWO64 * q + r) % TWO64 == r
  {
  }

  lemma ShlZero(d: nat)
    ensures Shl(d, 0) == d
  {
  }

  /** The digit at position `k` of a varint fits below it. */
  lemma DigitAt(acc: nat, d: nat, k: nat)
    requires k < 9 && acc < Shl(1, 7 * k) && d < 128
    ensures Digit64(acc, d, 7 * k) == acc + Shl(d, 7 * k) < Shl(1, 7 * k + 7)
  {
    if k == 0 {
      ShlZero(1);
      ShlZero(d);
      BitOrZero(d);
      ShlSeven(1, 0);
    } else {
      hide Shl, Digit64;
      Digit64Fits(acc, d, 7 * k);
    }
  }

  lemma Overlong64(e: Bytes, acc: nat)
    ensures Dec64Loop(e, 70, acc) == Fail
  {
  }

  lemma {:induction false} Dec64LoopReads(e: Bytes, k: nat, acc: nat, t: Bytes)
    requires IsVarint(e) && k < 10 && acc < Shl(1, 7 * k)
    ensures Dec64Loop(e + t, 7 * k, acc)
         == if |e| <= 10 - k then Done((acc + Shl(Base128(e), 7 * k)) % TWO64, t) else Fail
    decreases |e|
  {
    hide Dec64Loop, Digit64, Shl, Base128, IsVarint;
    var w := Base128(e);
    VarintTail(e);
    Cut(e, t);
    ShlSplit(w, 7 * k);
    Dec64Step(e[0], e[1..] + t, 7 * k, acc);
    if k == 9 {
      ShlValues(1);
      TenthDigit(acc, e[0] % 128);
      if |e| == 1 { LastDigit(e, 63); } else { Overlong64(e[1..] + t, Digit64(acc, e[0] % 128, 63)); }
    } else {
      DigitAt(acc, e[0] % 128, k);
      if |e| == 1 {
        LastDigit(e, 7 * k);
        BelowTop(acc + Shl(w, 7 * k), k + 1);
      } else {
        Dec64LoopReads(e[1..], k + 1, acc + Shl(e[0] % 128, 7 * k), t);
      }
    }
  }

  lemma LastDigit(e: Bytes, n: nat)
    requires |e| == 1 && e[0] < 128
    ensures e[1..] == [] && Base128(e) == e[0] == e[0] % 128 && forall t: Bytes :: e[1..] + t == t
  {
    assert Base128(e[1..]) == 0;
    assert forall t: Bytes :: [] + t == t;
  }

  lemma BelowTop(v: nat, k: nat)
    requires k <= 9 && v < Shl(1, 7 * k)
    ensures v % TWO64 == v
  {
    ShlValues(1);
  }

  /** The 64-bit decoder accepts any varint of at most ten bytes, modulo 2^64, and no longer one. */
  lemma Dec64Reads(e: Bytes, t: Bytes)
    requires IsVarint(e)
    ensures Dec64(e + t) == if |e| <= 10 then Done(Base128(e) % TWO64, t) else Fail
  {
    hide Dec64Loop, Base128;
    Dec64LoopReads(e, 0, 0, t);
  }

  /** Bytes begin with a varint as soon as one of them ends it. */
  lemma {:induction false} FirstVarint(s: Bytes, k: nat) returns (n: nat)
    requires k < |s| && s[k] < 128
    ensures n <= |s| && IsVarint(s[..n])
    decreases |s|
  {
    if s[0] < 128 {
      n := 1;
    } else {
      var m := FirstVarint(s[1..], k - 1);
      n := m + 1;
      assert s[..n] == [s[0]] + s[1..][..m];
    }
  }

  /** Whatever the bytes, the 64-bit decoder's result has 64 bits. */
  lemma Dec64Below(s: Bytes)
    requires Dec64(s).Done?
    ensures Dec64(s).value < TWO64
  {
    hide Dec64, Base128, IsVarint;
    if k: nat :| k < |s| && s[k] < 128 {
      var n := FirstVarint(s, k);
      Dec64Reads(s[..n], s[n..]);
      assert s[..n] + s[n..] == s;
    } else {
      Unterminated(s);
    }
  }

  /** Bytes that all announce another one are no varint. */
  lemma {:induction false} Unterminated64(s: Bytes, bitpos: nat, acc: nat)
    requires forall i :: 0 <= i < |s| ==> s[i] >= 128
    ensures Dec64Loop(s, bitpos, acc) == Fail
    decreases |s|
  {
    if bitpos < 64 && s != [] {
      Unterminated64(s[1..], bitpos + 7, Digit64(acc, s[0] % 128, bitpos));
    }
  }

  lemma {:induction false} Unterminated32(s: Bytes, bitpos: nat, acc: nat)
    requires forall i :: 0 <= i < |s| ==> s[i] >= 128
    ensures Dec32Loop(s, bitpos, acc) == Fail
    decreases |s|
  {
    hide Digit32;
    if s != [] {
      Unterminated32(s[1..], (bitpos + 7) % 256, Digit32(acc, s[0] % 128, bitpos));
    }
  }

  lemma Unterminated(s: Bytes)
    requires forall i :: 0 <= i < |s| ==> s[i] >= 128
    ensures Dec64(s) == Fail && Dec32(s) == Fail
  {
    Unterminated64(s, 0, 0);
    if s != [] { Unterminated32(s[1..], 7, s[0] % 128); }
  }

  // ---------------------------------------------------------------- 32 bits

  /** The byte at position `j` adds nothing to the low 32 bits: padding, or the sign extension of a negative number. */
  predicate Padding(b: Byte, j: nat, low: nat) {
    b % 128 == 0 || (low >= TWO31 && b == if j < 9 then 0xFF else 0x01)
  }

  /** The bytes of a varint from its `k`th on, in a number with these low 32 bits, are accepted. */
  predicate Fits32(e: Bytes, k: nat, low: nat) {
    && (|e| + k == 5 && k < 5 ==> e[4 - k] < 16)
    && forall i :: 0 <= i < |e| && 5 <= k + i ==> Padding(e[i], k + i, low)
  }

  lemma FitsTail(e: Bytes, k: nat, low: nat)
    requires |e| > 1
    ensures Fits32(e, k, low)
       <==> (k < 5 || Padding(e[0], k, low)) && Fits32(e[1..], k + 1, low)
  {
    hide Padding;
    var r := e[1..];
    assert forall i :: 0 < i < |e| ==> e[i] == r[i - 1];
    if Fits32(e, k, low) {
      forall i | 0 <= i < |r| && 5 <= k + 1 + i
        ensures Padding(r[i], k + 1 + i, low)
      {
        assert Padding(e[i + 1], k + (i + 1), low);
      }
    }
    if Fits32(r, k + 1, low) {
      forall i | 0 < i < |e| && 5 <= k + i
        ensures Padding(e[i], k + i, low)
      {
        assert Padding(r[i - 1], k + 1 + (i - 1), low);
      }
    }
  }

  lemma FitsLast(e: Bytes, k: nat, low: nat)
    requires |e| == 1
    ensures Fits32(e, k, low) <==> (k == 4 ==> e[0] < 16) && (k >= 5 ==> Padding(e[0], k, low))
  {
    hide Padding;
    if k >= 5 && Padding(e[0], k, low) {
      forall i | 0 <= i < |e| && 5 <= k + i
        ensures Padding(e[i], k + i, low)
      {
        assert i == 0;
      }
    }
    if Fits32(e, k, low) && k >= 5 {
      assert Padding(e[0], k + 0, low);
    }
  }

  lemma NextPosition(n: nat)
    requires 35 <= n <= 252
    ensures (n + 7) % 256 == (if n < 249 then n + 7 else n - 249) && (n + 7) % 256 != 35
  {
  }

  lemma HighByteAt(b: Byte, r: Bytes, n: nat, acc: nat)
    requires 35 <= n <= 252
    ensures Dec32Loop([b] + r, n, acc)
         == if b % 128 != 0 && (acc < TWO31 || b != (if n < 63 then 0xFF else 0x01)) then Fail
            else if b >= 128 then Dec32Loop(r, (n + 7) % 256, acc) else Done(acc, r)
  {
    NextPosition(n);
    assert Digit32(acc, b % 128, n) == acc;
    hide Digit32;
    var s := [b] + r;
    assert s[0] == b && s[1..] == r;
  }

  /** One byte of the loop beyond bit 35. */
  lemma HighByte(b: Byte, r: Bytes, j: nat, acc: nat)
    requires 5 <= j <= 36 && (j == 36 ==> b < 128)
    ensures Dec32Loop([b] + r, 7 * j, acc)
         == if !Padding(b, j, acc) then Fail else if b >= 128 then Dec32Loop(r, 7 * j + 7, acc) else Done(acc, r)
  {
    hide Dec32Loop;
    HighByteAt(b, r, 7 * j, acc);
    NextPosition(7 * j);
  }

  lemma {:induction false} HighReads(e: Bytes, j: nat, acc: nat, t: Bytes)
    requires IsVarint(e) && 5 <= j && j + |e| <= 37
    ensures Dec32Loop(e + t, 7 * j, acc) == if Fits32(e, j, acc) then Done(acc, t) else Fail
    decreases |e|
  {
    hide Dec32Loop, Base128, IsVarint, Fits32, Padding;
    VarintTail(e);
    Cut(e, t);
    HighByte(e[0], e[1..] + t, j, acc);
    if |e| == 1 {
      LastDigit(e, 0);
      FitsLast(e, j, acc);
    } else {
      FitsTail(e, j, acc);
      HighReads(e[1..], j + 1, acc, t);
    }
  }

  /** The fifth byte: its low four bits are the last that fit. */
  lemma FifthReads(e: Bytes, acc: nat, t: Bytes)
    requires IsVarint(e) && |e| <= 33 && acc < 0x1000_0000
    ensures var low := (acc + 0x1000_0000 * Base128(e)) % TWO32;
            Dec32Loop(e + t, 28, acc) == if Fits32(e, 4, low) then Done(low, t) else Fail
  {
    hide Dec32Loop, Base128, IsVarint, Fits32, Padding;
    var w := Base128(e);
    VarintTail(e);
    Cut(e, t);
    Dec32Step28(e[0], e[1..] + t, acc);
    SplitAt28(w, acc);
    LowBits(w, e[0]);
    var b: nat := e[0];
    var low := acc + 0x1000_0000 * (b % 16);
    if |e| == 1 {
      LastDigit(e, 0);
      FitsLast(e, 4, low);
    } else {
      FitsTail(e, 4, low);
      HighReads(e[1..], 5, low, t);
    }
  }

  lemma SixteenOf(q: nat, r: nat)
    ensures (128 * q + r) % 16 == r % 16
  {
  }

  lemma LowBits(w: nat, b: Byte)
    requires w % 128 == b % 128
    ensures w % 16 == b % 16
  {
    SixteenOf(w / 128, w % 128);
    SixteenOf(b / 128, b % 128);
  }

  lemma Below28(k: nat)
    requires k <= 4
    ensures Shl(1, 7 * k) <= 0x1000_0000
  {
    ShlValues(1);
    ShlZero(1);
  }

  lemma {:induction false} LowReads(e: Bytes, k: nat, acc: nat, t: Bytes)
    requires IsVarint(e) && 1 <= k <= 4 && k + |e| <= 37 && acc < Shl(1, 7 * k)
    ensures var low := (acc + Shl(Base128(e), 7 * k)) % TWO32;
            Dec32Loop(e + t, 7 * k, acc) == if Fits32(e, k, low) then Done(low, t) else Fail
    decreases |e|
  {
    hide Dec32Loop, Base128, IsVarint, Fits32, Shl;
    var w := Base128(e);
    VarintTail(e);
    if k == 4 {
      ShlValues(w);
      FourGroups();
      FifthReads(e, acc, t);
    } else {
      var low := (acc + Shl(w, 7 * k)) % TWO32;
      Cut(e, t);
      ShlSplit(w, 7 * k);
      ShlDigitFits(acc, e[0] % 128, 7 * k);
      Below28(k + 1);
      Dec32StepLow(e[0], e[1..] + t, 7 * k, acc);
      if |e| == 1 {
        LastDigit(e, 0);
        FitsLast(e, k, low);
      } else {
        FitsTail(e, k, low);
        LowReads(e[1..], k + 1, acc + Shl(e[0] % 128, 7 * k), t);
      }
    }
  }

  lemma FirstDigit(e: Bytes)
    requires e != []
    ensures Base128(e) == e[0] % 128 + Shl(Base128(e[1..]), 7) && e[0] % 128 < Shl(1, 7)
  {
    ShlValues(1);
    ShlValues(Base128(e[1..]));
    hide Shl;
  }

  lemma FirstByte(b: Byte, r: Bytes)
    ensures Dec32([b] + r) == if b < 128 then Done(b, r) else Dec32Loop(r, 7, b % 128)
  {
    hide Dec32Loop;
    assert ([b] + r)[1..] == r;
  }

  /**
   The 32-bit decoder accepts a varint of up to 37 bytes exactly when it is its low 32 bits with padding
   behind them; the bits 32 to 34 of a fifth byte that is not the last are lost.
   */
  lemma Dec32Reads(e: Bytes, t: Bytes)
    requires IsVarint(e) && |e| <= 37
    ensures var low := Base128(e) % TWO32;
            Dec32(e + t) == if Fits32(e, 0, low) then Done(low, t) else Fail
  {
    hide Dec32, Dec32Loop, Base128, IsVarint, Fits32, Shl;
    var low := Base128(e) % TWO32;
    VarintTail(e);
    Cut(e, t);
    FirstByte(e[0], e[1..] + t);
    if |e| == 1 {
      LastDigit(e, 0);
      FitsLast(e, 0, low);
    } else {
      FirstDigit(e);
      FitsTail(e, 0, low);
      LowReads(e[1..], 1, e[0] % 128, t);
    }
  }

  // ---------------------------------------------------------------- where the bit position wraps

  /** Bytes of a varint that carry no digit. */
  function Zeros(n: nat): (r: Bytes)
    ensures |r| == n
  {
    seq(n, _ => 128)
  }

  lemma ZeroPasses(n: nat, r: Bytes)
    requires 7 <= n <= 252
    ensures Dec32Loop([128] + r, n, 0) == Dec32Loop(r, (n + 7) % 256, 0)
  {
    ZeroDigit(n);
    hide Digit32;
    assert ([128] + r)[1..] == r;
  }

  lemma {:induction false} ZerosPass(n: nat, j: nat, t: Bytes)
    requires 1 <= j && j + n == 37 && n > 0
    ensures Dec32Loop(Zeros(n) + t, 7 * j, 0) == Dec32Loop(t, 3, 0)
    decreases n
  {
    hide Dec32Loop;
    var r := Zeros(n - 1) + t;
    assert Zeros(n) + t == [128] + r;
    ZeroPasses(7 * j, r);
    if n == 1 {
      assert r == t;
    } else {
      ZerosPass(n - 1, j + 1, t);
    }
  }

  lemma {:induction false} ShlOfZero(n: nat)
    ensures Shl(0, n) == 0
  {
    if n > 0 { ShlOfZero(n - 1); }
  }

  lemma ZeroDigit(bitpos: nat)
    ensures Digit32(0, 0, bitpos) == 0
  {
    ShlOfZero(bitpos);
  }

  /**
   Beyond 37 bytes the 8-bit position wraps: a varint whose 38th byte is its only digit is 2^259 times that
   digit, and is read as eight times it, where the 64-bit decoder refuses it.
   */
  lemma PositionWraps(t: Bytes)
    ensures var e := Zeros(37) + [1]; IsVarint(e) && Dec32(e + t) == Done(8, t) && Dec64(e + t) == Fail
  {
    var e := Zeros(37) + [1];
    assert IsVarint(e);
    Dec64Reads(e, t);
    hide IsVarint, Base128, Dec64, Dec32Loop;
    var r := [1] + t;
    assert e + t == [128] + (Zeros(36) + r);
    assert ([128] + (Zeros(36) + r))[1..] == Zeros(36) + r;
    ZerosPass(36, 1, r);
    LastWrapped(t);
  }

  lemma LastWrapped(t: Bytes)
    ensures Dec32Loop([1] + t, 3, 0) == Done(8, t)
  {
    assert ([1] + t)[1..] == t;
    assert Shl(1, 3) == 8 by { assert Shl(1, 0) == 1 && Shl(1, 1) == 2 && Shl(1, 2) == 4; }
    assert Digit32(0, 1, 3) == 8 by { BitOrZero(8); }
    hide Digit32, Shl;
  }
}
