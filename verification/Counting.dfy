/** Occurrences in sequences of identifiers: what the conservation proofs of the queues count. */
module Counting {
  type Id = nat

  function Count(ids: seq<Id>, id: Id): nat {
    if ids == [] then 0 else (if ids[0] == id then 1 else 0) + Count(ids[1..], id)
  }

  /** The sequence without its `k`th element. */
  function Without<T>(s: seq<T>, k: nat): (r: seq<T>)
    requires k < |s|
    ensures |r| == |s| - 1
  {
    s[..k] + s[k + 1..]
  }

  lemma {:induction false} CountConcat(a: seq<Id>, b: seq<Id>, id: Id)
    ensures Count(a + b, id) == Count(a, id) + Count(b, id)
  {
    if a == [] {
      assert a + b == b;
    } else {
      assert (a + b)[1..] == a[1..] + b;
      CountConcat(a[1..], b, id);
    }
  }

  lemma {:induction false} CountWithout(ids: seq<Id>, k: nat, id: Id)
    requires k < |ids|
    ensures Count(ids, id) == Count(Without(ids, k), id) + Count([ids[k]], id)
  {
    if k == 0 {
      assert Without(ids, k) == ids[1..];
    } else {
      assert Without(ids, k)[1..] == Without(ids[1..], k - 1);
      CountWithout(ids[1..], k - 1, id);
    }
  }
}
