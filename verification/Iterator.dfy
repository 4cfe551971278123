/** The cyclic field iterator (pb_field_iter_t): a position in a table and the addresses it stands for. */
module Iterator {
  import opened Descriptor
  import opened Wire

  /** Bytes that a field occupies in the structure: a static array holds all its entries. */
  function StorageSize(f: Field): nat {
    if f.htype.Repeated? then f.dataSize * f.arraySize else f.dataSize
  }

  /** Offset of entry `i` from the start of the structure: the sum of the steps before it. */
  function Offset(fields: seq<Field>, i: nat): nat
    requires i < |fields|
  {
    if i == 0 then fields[0].dataOffset
    else if InUnion(fields, i) then Offset(fields, i - 1)
    else Offset(fields, i - 1) + StorageSize(fields[i - 1]) + fields[i].dataOffset
  }

  /** Offset of the has_ flag, count or selector of entry `i`; the members of a union share theirs. */
  function SizeOffset(fields: seq<Field>, i: nat): int
    requires i < |fields|
  {
    if i > 0 && InUnion(fields, i) then SizeOffset(fields, i - 1)
    else Offset(fields, i) + fields[i].sizeOffset
  }

  /**
   A table as the generator's macros lay it out: `at` are the addresses of the members in the structure and
   `unions` says which of them are in which union, one union's members next to each other. Each entry stores
   its distance from the end of the entry before it, except that a further member of a union stores none.
   */
  predicate Generated(fields: seq<Field>, at: seq<nat>, unions: seq<Option<nat>>) {
    && |at| == |unions| == |fields|
    && (forall i :: 0 <= i < |fields| ==> (unions[i].Some? <==> fields[i].htype.OneOf?))
    && (forall i, j, k :: 0 <= i < j < k < |fields| && unions[i].Some? && unions[i] == unions[k] ==>
                            unions[j] == unions[i])
    && (fields != [] ==> fields[0].dataOffset == at[0])
    && forall i :: 0 < i < |fields| ==>
         if unions[i].Some? && unions[i] == unions[i - 1] then fields[i].dataOffset == 0xFFFF_FFFF && at[i] == at[i - 1]
         else fields[i].dataOffset == at[i] - at[i - 1] - StorageSize(fields[i - 1]) < 0xFFFF_FFFF
  }

  /** The iterator recovers the offset of every member. */
  lemma {:induction false} OffsetsRecovered(fields: seq<Field>, at: seq<nat>, unions: seq<Option<nat>>, i: nat)
    requires Generated(fields, at, unions) && i < |fields|
    ensures Offset(fields, i) == at[i]
    decreases i
  {
    if i > 0 { OffsetsRecovered(fields, at, unions, i - 1); }
  }

  /** And entries share storage exactly when they are members of one union. */
  lemma {:induction false} SlotsAreUnions(fields: seq<Field>, at: seq<nat>, unions: seq<Option<nat>>, i: nat, j: nat)
    requires Generated(fields, at, unions) && i <= j < |fields|
    ensures SlotOf(fields, i) == SlotOf(fields, j) <==> i == j || (unions[i].Some? && unions[i] == unions[j])
    decreases j
  {
    if i < j {
      SlotsMonotone(fields, i + 1, j);
      SlotsAreUnions(fields, at, unions, i, j - 1);
      assert unions[i].Some? && unions[i] == unions[j] && i < j - 1 ==> unions[j - 1] == unions[i];
    }
  }

  /** The members of a union start together and share their selector. */
  lemma {:induction false} SameSlotSameOffset(fields: seq<Field>, i: nat, j: nat)
    requires i <= j < |fields| && SlotOf(fields, i) == SlotOf(fields, j)
    ensures Offset(fields, i) == Offset(fields, j) && SizeOffset(fields, i) == SizeOffset(fields, j)
    decreases j
  {
    if i < j {
      SlotsMonotone(fields, i + 1, j);
      SameSlotSameOffset(fields, i, j - 1);
    }
  }

  /** Entries that take up storage. */
  predicate Sized(fields: seq<Field>) {
    forall k :: 0 <= k < |fields| ==> StorageSize(fields[k]) > 0
  }

  lemma {:induction false} OffsetsGrow(fields: seq<Field>, i: nat, j: nat)
    requires Sized(fields) && i <= j < |fields|
    ensures Offset(fields, i) <= Offset(fields, j)
    ensures SlotOf(fields, i) < SlotOf(fields, j) ==> Offset(fields, i) < Offset(fields, j)
    decreases j
  {
    if i < j {
      OffsetsGrow(fields, i, j - 1);
    }
  }

  /** Where every entry takes up storage, two entries start together exactly when they are of one union. */
  lemma SlotsAreAddresses(fields: seq<Field>, i: nat, j: nat)
    requires Sized(fields) && i < |fields| && j < |fields|
    ensures Offset(fields, i) == Offset(fields, j) <==> SlotOf(fields, i) == SlotOf(fields, j)
  {
    var low, high := if i <= j then i else j, if i <= j then j else i;
    SlotsMonotone(fields, low + 1, high + 1);
    OffsetsGrow(fields, low, high);
    if SlotOf(fields, i) == SlotOf(fields, j) {
      SameSlotSameOffset(fields, low, high);
    }
  }

  class FieldIter {
    const start: seq<Field>
    const base: int
    var pos: nat
    var requiredIndex: nat
    var pData: int
    var pSize: int

    ghost predicate Valid()
      reads this
    {
      if start == [] then pos == 0 && requiredIndex == 0 && pData == base && pSize == base
      else
        && pos < |start|
        && requiredIndex == RequiredBefore(start, pos)
        && pData == base + Offset(start, pos)
        && pSize == base + SizeOffset(start, pos)
    }

    /** The tag under the iterator; an empty table shows its terminator. */
    function Tag(): nat
      requires Valid()
      reads this
    {
      if start == [] then 0 else start[pos].tag
    }

    constructor (fields: seq<Field>, dest: int)
      ensures start == fields && base == dest && Valid() && pos == 0
    {
      start, base := fields, dest;
      pos, requiredIndex := 0, 0;
      pData := dest + if fields == [] then 0 else fields[0].dataOffset;
      pSize := dest + if fields == [] then 0 else fields[0].dataOffset + fields[0].sizeOffset;
    }

    /** pb_field_iter_begin. */
    method Begin() returns (nonEmpty: bool)
      modifies this
      ensures Valid() && pos == 0 && nonEmpty == (start != [])
    {
      pos, requiredIndex := 0, 0;
      nonEmpty := start != [];
      pData := base + if nonEmpty then start[0].dataOffset else 0;
      pSize := pData + if nonEmpty then start[0].sizeOffset else 0;
    }

    /** pb_field_iter_next: one entry on, wrapping to the first with the result false. */
    method Next() returns (more: bool)
      requires Valid()
      modifies this
      ensures Valid()
      ensures start == [] ==> !more
      ensures start != [] ==>
                more == (old(pos) + 1 < |start|) && pos == if more then old(pos) + 1 else 0
    {
      if start == [] {
        return false;
      }
      var prev := start[pos];
      if pos + 1 == |start| {
        var nonEmpty := Begin();
        return false;
      }
      pos := pos + 1;
      var prevSize := prev.dataSize;
      if prev.htype.OneOf? && start[pos].htype.OneOf? && start[pos].dataOffset == PB_SIZE_MAX {
        return true;
      } else if prev.htype.Repeated? {
        prevSize := prevSize * prev.arraySize;
      }
      if prev.htype.Required? {
        requiredIndex := requiredIndex + 1;
      }
      pData := pData + prevSize + start[pos].dataOffset;
      pSize := pData + start[pos].sizeOffset;
      return true;
    }

    /**
     pb_field_iter_find: search on from the current entry, around the end if need be. It takes at most
     one step per entry, finds the tag exactly when some entry has it, and otherwise returns to where
     it started. On an empty table only the terminator's tag 0 is found.
     */
    method Find(tag: nat) returns (found: bool, ghost steps: nat)
      requires Valid()
      modifies this
      ensures Valid() && (start != [] ==> steps <= |start|)
      ensures found <==> (if start == [] then tag == 0 else exists i :: 0 <= i < |start| && start[i].tag == tag)
      ensures found ==> Tag() == tag
      ensures !found ==> pos == old(pos)
    {
      var origin := pos;
      steps := 0;
      var going := true;
      while going
        invariant Valid()
        invariant start != [] ==> steps <= |start|
        invariant going && start == [] ==> steps == 0
        invariant going && start != [] ==> steps < |start| && pos == After(origin, steps)
        invariant !going ==> pos == origin && (start == [] ==> tag != 0) && (start != [] ==> steps == |start|)
        invariant start != [] ==> forall j :: 0 <= j < steps ==> start[After(origin, j)].tag != tag
        decreases going, |start| - steps
      {
        if Tag() == tag {
          if start != [] { assert start[pos].tag == tag; }
          return true, steps;
        }
        var more := Next();
        steps := steps + 1;
        going := pos != origin;
      }
      if start != [] {
        forall i | 0 <= i < |start|
          ensures start[i].tag != tag
        {
          var j := if i >= origin then i - origin else i + |start| - origin;
          assert After(origin, j) == i;
        }
      }
      return false, steps;
    }

    /** The entry `steps` places after `origin` on the ring. */
    ghost function After(origin: nat, steps: nat): nat
      requires origin < |start| && steps < |start|
      ensures After(origin, steps) < |start|
    {
      if origin + steps < |start| then origin + steps else origin + steps - |start|
    }
  }
}
