/** Integer fields of every width survive the trip through a 64-bit varint or a fixed word. */
module Integers {
  import opened Wire
  import opened Descriptor
  import opened Encoding
  import opened Decoding

  /** The values a C integer of `bytes` bytes holds; all but LUVarint fields are signed. */
  predicate InRange(lt: LType, bytes: nat, n: int)
    requires IntegerSize(bytes)
  {
    var m := Modulus(bytes);
    if lt.LUVarint? then 0 <= n < m else -(m / 2) <= n < m / 2
  }

  /** The number of values of `k` bytes. */
  function Pow256(k: nat): nat {
    if k == 0 then 1 else 256 * Pow256(k - 1)
  }

  predicate IsInteger(lt: LType) { lt.LVarint? || lt.LUVarint? || lt.LSVarint? }

  /** The number the encoder writes for an integer field. */
  function OnWire(lt: LType, n: int): nat {
    if lt.LSVarint? then ZigZag(n) else ToU64(n)
  }

  lemma ZigZagValues(n: int)
    requires -0x8000_0000_0000_0000 <= n < 0x8000_0000_0000_0000
    ensures ZigZag(n) == if n < 0 then -2 * n - 1 else 2 * n
  {
  }

  /** Zigzag is undone for every 64-bit integer. */
  lemma ZigZagRoundTrip(n: int)
    requires -0x8000_0000_0000_0000 <= n < 0x8000_0000_0000_0000
    ensures ZigZag(n) < TWO64 && UnZigZag(ZigZag(n)) == n
  {
    hide ZigZag;
    ZigZagValues(n);
    if n < 0 {
      assert (-2 * n - 1) / 2 == -n - 1;
    }
  }

  /** The low byte of a negative number in 64 bits. */
  lemma LowByte(n: int)
    requires -0x80 <= n < 0
    ensures (n + TWO64) % 0x100 == n + 0x100
  {
  }

  lemma LowHalfWord(n: int)
    requires -0x8000 <= n < 0
    ensures (n + TWO64) % 0x1_0000 == n + 0x1_0000
  {
  }

  lemma LowWord(n: int)
    requires -0x8000_0000 <= n < 0
    ensures (n + TWO64) % TWO32 == n + TWO32
  {
  }

  lemma FullWord(n: int)
    requires -0x8000_0000_0000_0000 <= n < 0
    ensures n % TWO64 == n + TWO64 && (n + TWO64) % TWO64 == n + TWO64
  {
  }

  /** Two's complement in 64 bits, cut to a width, is two's complement at that width. */
  lemma NegativeReduced(n: int, bytes: nat)
    requires IntegerSize(bytes) && -(Modulus(bytes) / 2) <= n < 0
    ensures n % TWO64 == n + TWO64 && (n + TWO64) % Modulus(bytes) == n + Modulus(bytes)
  {
    FullWord(n);
    if bytes == 1 {
      LowByte(n);
    } else if bytes == 2 {
      LowHalfWord(n);
    } else if bytes == 4 {
      LowWord(n);
    }
  }

  /** Reducing modulo 2^64 and then to the width gives back a value of that width. */
  lemma CastBack(n: int, bytes: nat)
    requires IntegerSize(bytes) && -(Modulus(bytes) / 2) <= n < Modulus(bytes) / 2
    ensures ToSigned(n % TWO64, bytes) == n
  {
    if n < 0 {
      NegativeReduced(n, bytes);
    }
  }

  /**
   Signed, unsigned and zigzag integers of 1, 2, 4 and 8 bytes decode back, although signed ones are
   always sign-extended to 64 bits and narrow ones come back through 32.
   */
  lemma IntegerRoundTrip(lt: LType, bytes: nat, n: int)
    requires IsInteger(lt) && IntegerSize(bytes) && InRange(lt, bytes, n)
    ensures OnWire(lt, n) < TWO64 && Integer(lt, bytes, OnWire(lt, n)) == Some(n)
  {
    hide ToSigned;
    if lt.LSVarint? {
      ZigZagRoundTrip(n);
      CastBack(n, bytes);
    } else if lt.LVarint? {
      CastBack(n, bytes);
      CastBack(n, if bytes == 8 then 8 else 4);
    }
  }

  /** Whatever the varint, an integer that is accepted has the range of its field. */
  lemma IntegerInRange(lt: LType, bytes: nat, v: nat)
    requires IsInteger(lt) && Integer(lt, bytes, v).Some?
    ensures IntegerSize(bytes) && InRange(lt, bytes, Integer(lt, bytes, v).value)
  {
    if lt.LSVarint? {
      SignedRange(UnZigZag(v) % TWO64, bytes);
    } else if lt.LVarint? {
      SignedRange((if bytes == 8 then ToSigned(v, 8) else ToSigned(v, 4)) % TWO64, bytes);
    }
  }

  lemma SignedRange(v: nat, bytes: nat)
    requires IntegerSize(bytes)
    ensures -(Modulus(bytes) / 2) <= ToSigned(v, bytes) < Modulus(bytes) / 2
  {
  }

  // ---------------------------------------------------------------- exactly what is accepted

  /** The number fits a signed integer of that many bytes. */
  predicate FitsSigned(bytes: nat, n: int) {
    -(Pow256(bytes) as int) <= 2 * n < Pow256(bytes)
  }

  lemma Powers()
    ensures Pow256(1) == 0x100 && Pow256(2) == 0x1_0000 && Pow256(4) == TWO32 && Pow256(8) == TWO64
  {
    assert Pow256(4) == 256 * Pow256(3) && Pow256(3) == 256 * Pow256(2);
    assert Pow256(8) == 256 * Pow256(7) && Pow256(7) == 256 * Pow256(6) && Pow256(6) == 256 * Pow256(5);
  }

  /** The casts reduce to the number of values of their width. */
  lemma ModulusIsPower(bytes: nat)
    requires IntegerSize(bytes)
    ensures Modulus(bytes) == Pow256(bytes)
  {
    Powers();
  }

  /** Two numbers of one 64-bit range that differ by a multiple of 2^64 are equal. */
  lemma SameIn64(a: int, b: int)
    requires -(TWO64 as int) < a - b < TWO64 && (a - b) % TWO64 == 0
    ensures a == b
  {
  }

  lemma SameIn32(a: int, b: int)
    requires -(TWO32 as int) < a - b < TWO32 && (a - b) % TWO32 == 0
    ensures a == b
  {
  }

  lemma Away64(r: int, v: nat)
    requires r == v % TWO64 || r == v % TWO64 - TWO64
    ensures (r - v) % TWO64 == 0
  {
  }

  lemma Away32(r: int, v: nat)
    requires r == v % TWO32 || r == v % TWO32 - TWO32
    ensures (r - v) % TWO32 == 0
  {
  }

  lemma Congruent64(a: int, b: int, v: int)
    requires (a - v) % TWO64 == 0 && (b - v) % TWO64 == 0
    ensures (a - b) % TWO64 == 0
  {
  }

  lemma Congruent32(a: int, b: int, v: int)
    requires (a - v) % TWO32 == 0 && (b - v) % TWO32 == 0
    ensures (a - b) % TWO32 == 0
  {
  }

  /** The casts to int64_t and int32_t: the number of that range that is congruent to the value. */
  lemma CastTo64(v: nat, n: int)
    ensures ToSigned(v, 8) == n <==> FitsSigned(8, n) && (n - v) % TWO64 == 0
  {
    Powers();
    var r := ToSigned(v, 8);
    Away64(r, v);
    if FitsSigned(8, n) && (n - v) % TWO64 == 0 {
      Congruent64(r, n, v);
      SameIn64(r, n);
    }
  }

  lemma CastTo32(v: nat, n: int)
    ensures ToSigned(v, 4) == n <==> FitsSigned(4, n) && (n - v) % TWO32 == 0
  {
    Powers();
    var r := ToSigned(v, 4);
    Away32(r, v);
    if FitsSigned(4, n) && (n - v) % TWO32 == 0 {
      Congruent32(r, n, v);
      SameIn32(r, n);
    }
  }

  /** The cast to the width of the field loses nothing exactly when the number fits it. */
  lemma ClampExactly(x: int, bytes: nat, n: int)
    requires IntegerSize(bytes)
    ensures Clamp(x, bytes) == Some(n) <==> x == n && FitsSigned(bytes, n)
  {
    ModulusIsPower(bytes);
    hide ToSigned, Pow256;
    SignedRange(x % TWO64, bytes);
    if FitsSigned(bytes, x) { CastBack(x, bytes); }
  }

  lemma FitsWider(bytes: nat, n: int)
    requires IntegerSize(bytes) && FitsSigned(bytes, n)
    ensures FitsSigned(8, n) && (bytes != 8 ==> FitsSigned(4, n))
  {
    Powers();
  }

  lemma SignedAccepted(bytes: nat, v: nat, n: int)
    requires IntegerSize(bytes)
    ensures NarrowSigned(v, bytes) == Some(n)
       <==> FitsSigned(bytes, n) && (n - v) % (if bytes == 8 then TWO64 else TWO32) == 0
  {
    hide ToSigned, Clamp, FitsSigned;
    CastTo64(v, n);
    CastTo32(v, n);
    ClampExactly(if bytes == 8 then ToSigned(v, 8) else ToSigned(v, 4), bytes, n);
    if FitsSigned(bytes, n) { FitsWider(bytes, n); }
  }

  lemma UnsignedAccepted(bytes: nat, v: nat, n: int)
    requires IntegerSize(bytes)
    ensures NarrowUnsigned(v, bytes) == Some(n) <==> n == v && n < Pow256(bytes)
  {
    ModulusIsPower(bytes);
    hide Pow256;
    BelowModulus(v, Modulus(bytes));
  }

  lemma BelowModulus(v: nat, m: nat)
    requires m > 0
    ensures v % m == v <==> v < m
  {
  }

  lemma UnZigZagExactly(v: nat, n: int)
    requires v < TWO64
    ensures UnZigZag(v) == n <==> v == 2 * n || v == -2 * n - 1
  {
    var h := v / 2;
    if v % 2 == 1 {
      assert TWO64 - 1 - h < TWO64 && (TWO64 - 1 - h) % TWO64 == TWO64 - 1 - h;
    } else {
      assert h % TWO64 == h;
    }
  }

  /**
   The number that a 64-bit varint is to an integer field. To an unsigned one it is the value itself; to a
   signed one the number congruent to it, modulo 2^64 in eight bytes and modulo 2^32 below, so that a
   negative number sent in five bytes is one as well; to a zigzag one the number that the mapping took.
   There is none when the width cannot hold it, or is not one of the four.
   */
  predicate Denotes(lt: LType, bytes: nat, v: nat, n: int) {
    && bytes in {1, 2, 4, 8}
    && if lt.LUVarint? then n == v && n < Pow256(bytes)
       else FitsSigned(bytes, n)
            && if lt.LVarint? then (n - v) % (if bytes == 8 then TWO64 else TWO32) == 0
               else v == 2 * n || v == -2 * n - 1
  }

  /** Which varints an integer field accepts, and as which number. */
  lemma AcceptedIntegers(lt: LType, bytes: nat, v: nat, n: int)
    requires IsInteger(lt) && v < TWO64
    ensures Integer(lt, bytes, v) == Some(n) <==> Denotes(lt, bytes, v, n)
  {
    hide NarrowSigned, NarrowUnsigned, Clamp, UnZigZag, FitsSigned, Pow256;
    if IntegerSize(bytes) {
      SignedAccepted(bytes, v, n);
      UnsignedAccepted(bytes, v, n);
      UnZigZagExactly(v, n);
      ClampExactly(UnZigZag(v), bytes, n);
    }
  }

  // ---------------------------------------------------------------- fixed words

  lemma {:induction false} LittleEndianRoundTrip(n: nat, k: nat)
    requires n < Pow256(k)
    ensures FromLittleEndian(LittleEndian(n, k)) == n
  {
    if k > 0 {
      LittleEndianRoundTrip(n / 256, k - 1);
      assert LittleEndian(n, k)[1..] == LittleEndian(n / 256, k - 1);
    }
  }

  /** Fixed 32- and 64-bit words, as bit patterns, decode back. */
  lemma FixedRoundTrip(n: nat, t: Bytes)
    ensures n < TWO32 ==> Take(LittleEndian(n, 4) + t, 4) == Done(LittleEndian(n, 4), t)
                          && FromLittleEndian(LittleEndian(n, 4)) == n
    ensures n < TWO64 ==> Take(LittleEndian(n, 8) + t, 8) == Done(LittleEndian(n, 8), t)
                          && FromLittleEndian(LittleEndian(n, 8)) == n
  {
    assert Pow256(4) == TWO32 && Pow256(8) == TWO64;
    TakeAppend(LittleEndian(n, 4), t);
    TakeAppend(LittleEndian(n, 8), t);
    if n < TWO32 { LittleEndianRoundTrip(n, 4); }
    if n < TWO64 { LittleEndianRoundTrip(n, 8); }
  }
}
