/** The bit mask of required fields seen, as two 32-bit words, and the set of fields it stands for. */
module RequiredMask {
  import opened Wire

  const ALL_BITS: nat := 0xFFFF_FFFF

  /** Bits `lo` to `n` of the word whose bit 0 stands for field `base`, shifted down by `lo`. */
  function Word(seen: set<nat>, base: nat, lo: nat, n: nat): nat
    decreases n - lo
  {
    if lo >= n then 0
    else (if base + lo in seen then 1 else 0) + 2 * Word(seen, base, lo + 1, n)
  }

  /** Fields outside the word do not show in it. */
  lemma {:induction false} WordIgnores(seen: set<nat>, base: nat, lo: nat, n: nat, x: nat)
    requires x < base + lo || base + n <= x
    ensures Word(seen + {x}, base, lo, n) == Word(seen, base, lo, n)
    decreases n - lo
  {
    if lo < n { WordIgnores(seen, base, lo + 1, n, x); }
  }

  /** `|=` with a one-bit mask adds the field to the set. */
  lemma {:induction false} WordSetBit(seen: set<nat>, base: nat, lo: nat, n: nat, j: nat)
    requires lo <= j < n
    ensures BitOr(Word(seen, base, lo, n), Shl(1, j - lo)) == Word(seen + {base + j}, base, lo, n)
    decreases n - lo
  {
    hide BitOr;
    var w := Word(seen, base, lo, n);
    BitOrStep(w, Shl(1, j - lo));
    if j == lo {
      BitOrZero(w / 2);
      WordIgnores(seen, base, lo + 1, n, base + j);
    } else {
      WordSetBit(seen, base, lo + 1, n, j);
    }
  }

  /** The word is the run of ones below bit `r` exactly when it stands for exactly those fields. */
  lemma {:induction false} WordIsOnes(seen: set<nat>, base: nat, lo: nat, n: nat, r: nat)
    requires lo <= r <= n
    ensures Word(seen, base, lo, n) == Shl(1, r - lo) - 1
       <==> (forall x: nat :: base + lo <= x < base + r ==> x in seen)
            && (forall x: nat :: base + r <= x < base + n ==> x !in seen)
    decreases n - lo
  {
    if lo < n {
      if lo < r {
        WordIsOnes(seen, base, lo + 1, n, r);
      } else {
        WordIsOnes(seen, base, lo + 1, n, lo + 1);
      }
    }
  }

  /** The C operator `>>`. */
  function Shr(v: nat, n: nat): nat {
    if n == 0 then v else Shr(v / 2, n - 1)
  }

  lemma {:induction false} OnesShifted(a: nat, b: nat)
    requires b <= a
    ensures Shr(Shl(1, a) - 1, b) == Shl(1, a - b) - 1
    decreases b
  {
    if b > 0 {
      assert (Shl(1, a) - 1) / 2 == Shl(1, a - 1) - 1;
      OnesShifted(a - 1, b - 1);
    }
  }

  lemma AllBitsAreOnes()
    ensures ALL_BITS == Shl(1, 32) - 1
  {
    ShlValues(1);
    assert Shl(1, 32) == 2 * Shl(1, 31) && Shl(1, 31) == 2 * Shl(1, 30)
        && Shl(1, 30) == 2 * Shl(1, 29) && Shl(1, 29) == 2 * Shl(1, 28);
  }

  /** The mask stands for a set of fields below `count`. */
  ghost predicate Stands(mask: seq<nat>, seen: set<nat>, count: nat) {
    && |mask| == 2 && count <= 64
    && mask[0] == Word(seen, 0, 0, 32) && mask[1] == Word(seen, 32, 0, 32)
    && forall x :: x in seen ==> x < count
  }

  /** fields_seen[index >> 5] |= 1 << (index & 31). */
  method Mark(mask: array<nat>, index: nat, ghost seen: set<nat>, ghost count: nat)
    requires mask.Length == 2 && index < count && Stands(mask[..], seen, count)
    modifies mask
    ensures Stands(mask[..], seen + {index}, count)
  {
    hide BitOr, Word, Shl;
    var bit := Shl(1, index % 32);
    mask[index / 32] := BitOr(mask[index / 32], bit);
    WordSetBit(seen, 32 * (index / 32), 0, 32, index % 32);
    WordIgnores(seen, if index < 32 then 32 else 0, 0, 32, index);
  }

  /** A whole word of the mask. */
  lemma FullWord(seen: set<nat>, base: nat)
    ensures Word(seen, base, 0, 32) == ALL_BITS <==> forall x: nat :: base <= x < base + 32 ==> x in seen
  {
    hide Word, Shl;
    AllBitsAreOnes();
    WordIsOnes(seen, base, 0, 32, 32);
  }

  /** The word that holds the last fields, `r` of them. */
  lemma PartWord(seen: set<nat>, base: nat, r: nat)
    requires 0 < r < 32 && forall x :: x in seen ==> x < base + r
    ensures Word(seen, base, 0, 32) == Shr(ALL_BITS, 32 - r) <==> forall x: nat :: base <= x < base + r ==> x in seen
  {
    hide Word, Shl, Shr;
    AllBitsAreOnes();
    OnesShifted(32, 32 - r);
    WordIsOnes(seen, base, 0, 32, r);
  }

  /**
   The check of whole words and then of the remaining bits passes exactly when every one of the
   `count` fields is in the set the mask stands for.
   */
  method AllMarked(mask: array<nat>, count: nat, ghost seen: set<nat>) returns (ok: bool)
    requires mask.Length == 2 && Stands(mask[..], seen, count)
    ensures ok <==> forall k: nat :: k < count ==> k in seen
  {
    hide Word, Shl, Shr;
    var i := 0;
    while i < count / 32
      invariant i <= count / 32 <= 2
      invariant forall k: nat :: k < 32 * i ==> k in seen
    {
      FullWord(seen, 32 * i);
      if mask[i] != ALL_BITS {
        return false;
      }
      i := i + 1;
    }
    if count % 32 != 0 {
      PartWord(seen, 32 * i, count % 32);
      if mask[count / 32] != Shr(ALL_BITS, 32 - count % 32) {
        return false;
      }
    }
    return true;
  }
}
