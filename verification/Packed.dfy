/** Repeated scalars sent packed, one element per tag, or in any mixture. */
module Packed {
  import opened Wire
  import opened Descriptor
  import opened Decoding
  import RoundTrip
  import opened Merge
  import Encoding

  /** A piece of the wire format that carries elements of one repeated field. */
  datatype Chunk =
    | Run(head: Bytes, length: Bytes, elems: seq<Bytes>)
    | Alone(head: Bytes, elem: Bytes)

  function Flat(elems: seq<Bytes>): Bytes {
    if elems == [] then [] else elems[0] + Flat(elems[1..])
  }

  /** The bytes of exactly one well-formed element. */
  predicate ElementOk(f: Field, e: Bytes) {
    DecValue(f, Num(0), e).Done? && DecValue(f, Num(0), e).rest == []
  }

  function ElementValues(f: Field, elems: seq<Bytes>): (r: seq<Value>)
    requires forall e :: e in elems ==> ElementOk(f, e)
    ensures |r| == |elems|
  {
    if elems == [] then []
    else
      assert ElementOk(f, elems[0]);
      [DecValue(f, Num(0), elems[0]).value] + ElementValues(f, elems[1..])
  }

  /** The head is a tag of the field: length-delimited for a run, of any other wire type otherwise. */
  predicate HeadOk(f: Field, c: Chunk) {
    && DecTag(c.head).Tag? && DecTag(c.head).tag == f.tag && DecTag(c.head).rest == []
    && (DecTag(c.head).wireType == Encoding.WT_STRING <==> c.Run?)
  }

  predicate ChunkOk(f: Field, c: Chunk) {
    HeadOk(f, c)
    && match c
       case Run(_, length, elems) =>
         Dec32(length) == Done(|Flat(elems)|, []) && forall e :: e in elems ==> ElementOk(f, e)
       case Alone(_, elem) => ElementOk(f, elem)
  }

  function Body(c: Chunk): Bytes {
    match c
    case Run(_, length, elems) => length + Flat(elems)
    case Alone(_, elem) => elem
  }

  function ChunkBytes(c: Chunk): Bytes {
    c.head + Body(c)
  }

  function ChunkValues(f: Field, c: Chunk): seq<Value>
    requires ChunkOk(f, c)
  {
    match c
    case Run(_, _, elems) => ElementValues(f, elems)
    case Alone(_, elem) => ElementValues(f, [elem])
  }

  function AllBytes(chunks: seq<Chunk>): Bytes {
    if chunks == [] then [] else ChunkBytes(chunks[0]) + AllBytes(chunks[1..])
  }

  function AllValues(f: Field, chunks: seq<Chunk>): seq<Value>
    requires forall c :: c in chunks ==> ChunkOk(f, c)
  {
    if chunks == [] then [] else ChunkValues(f, chunks[0]) + AllValues(f, chunks[1..])
  }

  /** A packable element takes at least one byte, and is read alike over any storage. */
  lemma ElementRead(f: Field, prev: Value, e: Bytes, t: Bytes)
    requires f.Packable() && ElementOk(f, e)
    ensures e != [] && DecValue(f, prev, e + t) == Done(DecValue(f, Num(0), e).value, t)
  {
    StorageIrrelevant(f, prev, e);
    NothingFromNothing(f);
    hide DecValue;
    DecValueStable(f, prev, e, t);
    assert [] + t == t;
  }

  lemma NothingFromNothing(f: Field)
    requires f.Packable()
    ensures DecValue(f, Num(0), []).Fail?
  {
    hide Integer, FromLittleEndian;
  }

  /** The packed loop reads the elements in order, and leaves bytes behind exactly when they do not fit. */
  lemma {:induction false} PackedLoop(f: Field, cur: seq<Value>, elems: seq<Bytes>)
    requires f.Packable() && |cur| <= f.arraySize && forall e :: e in elems ==> ElementOk(f, e)
    ensures |cur| + |elems| <= f.arraySize ==>
              DecPacked(f, cur, Flat(elems)) == Done(cur + ElementValues(f, elems), [])
    ensures |cur| + |elems| > f.arraySize ==>
              DecPacked(f, cur, Flat(elems)).Done? && DecPacked(f, cur, Flat(elems)).rest != []
    decreases |elems|
  {
    hide DecValue;
    if elems == [] {
      assert cur + [] == cur;
    } else {
      var e := elems[0];
      ElementRead(f, DefaultValue(f, Num(0)), e, Flat(elems[1..]));
      if |cur| < f.arraySize {
        var v := DecValue(f, Num(0), e).value;
        PackedLoop(f, cur + [v], elems[1..]);
        assert cur + ([v] + ElementValues(f, elems[1..])) == cur + [v] + ElementValues(f, elems[1..]);
      }
    }
  }

  /** One chunk extends the elements received so far, or overflows the array. */
  lemma ChunkRead(f: Field, cur: seq<Value>, prev: Value, c: Chunk, t: Bytes)
    requires f.Packable() && |cur| <= f.arraySize && ChunkOk(f, c)
    ensures DecRepeated(f, DecTag(c.head).wireType, cur, prev, Body(c) + t)
            == if |cur| + |ChunkValues(f, c)| <= f.arraySize then Done(cur + ChunkValues(f, c), t) else Fail
  {
    hide DecValue, DecPacked;
    match c
    case Run(_, length, elems) =>
      var data := Flat(elems);
      assert length + data + t == length + (data + t);
      Dec32Stable(length, data + t);
      assert [] + (data + t) == data + t;
      TakeAppend(data, t);
      PackedLoop(f, cur, elems);
    case Alone(_, elem) =>
      ElementRead(f, prev, elem, t);
      assert ElementValues(f, [elem]) == [DecValue(f, Num(0), elem).value];
  }

  /** A tag followed by anything, as the loop sees it. */
  lemma HeadRead(f: Field, c: Chunk, t: Bytes)
    requires HeadOk(f, c)
    ensures DecTag(c.head + t) == Tag(DecTag(c.head).wireType, f.tag, t)
  {
    hide Dec32;
    Dec32Stable(c.head, t);
    assert [] + t == t;
  }

  /** A repeated entry of packable elements, counted or fixed-count, whose storage is in order. */
  predicate ScalarArray(fields: seq<Field>, i: nat, p: Progress)
    requires i < |fields|
  {
    && UniqueTags(fields) && fields[i].Packable()
    && RoundTrip.ArrayReady(fields, i, p) && |RoundTrip.Received(fields, i, p)| <= fields[i].arraySize
  }

  /** The field loop after entry `i` has received `all`, or its failure when there are too many of them. */
  function AfterReceiving(fields: seq<Field>, i: nat, p: Progress, all: seq<Value>, t: Bytes): LoopResult
    requires i < |fields| && ScalarArray(fields, i, p)
  {
    if |all| <= fields[i].arraySize then DecLoop(fields, RoundTrip.WithReceived(fields, i, p, all), t) else LoopFail
  }

  lemma ChunkInLoop(fields: seq<Field>, i: nat, p: Progress, c: Chunk, t: Bytes)
    requires i < |fields| && ScalarArray(fields, i, p) && ChunkOk(fields[i], c)
    ensures DecLoop(fields, p, ChunkBytes(c) + t)
         == AfterReceiving(fields, i, p, RoundTrip.Received(fields, i, p) + ChunkValues(fields[i], c), t)
  {
    hide DecRepeated, DecTag, ChunkValues, DecField, RoundTrip.WithReceived;
    var f, wt, got := fields[i], DecTag(c.head).wireType, RoundTrip.Received(fields, i, p);
    var prev, s := RoundTrip.NextEntry(fields, i, p), Body(c) + t;
    assert ChunkBytes(c) + t == c.head + s;
    HeadRead(f, c, s);
    LookupUnique(fields, i);
    ChunkRead(f, got, prev, c, t);
    RoundTrip.RepeatedStep(fields, i, p, wt, prev, s);
    assert DecStep(fields, p, wt, f.tag, s) == DecField(fields, i, p, wt, s);
  }

  lemma Joined<T>(a: seq<T>, b: seq<T>, c: seq<T>)
    ensures (a + b) + c == a + (b + c)
  {
  }

  /**
   However its elements are spread over packed runs and single tags, a repeated scalar decodes to their
   concatenation in order, after those it had, and fails exactly when there are more than `array_size` of
   them. This holds of counted arrays and of fixed-count ones; with no chunk at all nothing is touched.
   */
  lemma {:induction false} PackedUnpackedAgree(fields: seq<Field>, i: nat, p: Progress, chunks: seq<Chunk>, t: Bytes)
    requires i < |fields| && ScalarArray(fields, i, p)
    requires forall c :: c in chunks ==> ChunkOk(fields[i], c)
    ensures DecLoop(fields, p, AllBytes(chunks) + t)
         == if chunks == [] then DecLoop(fields, p, t)
            else AfterReceiving(fields, i, p, RoundTrip.Received(fields, i, p) + AllValues(fields[i], chunks), t)
    decreases |chunks|
  {
    if chunks == [] {
      assert [] + t == t;
      return;
    }
    hide DecLoop, ChunkOk, ChunkValues, ChunkBytes, RoundTrip.ArrayReady, RoundTrip.Received, RoundTrip.WithReceived;
    var c, got := chunks[0], RoundTrip.Received(fields, i, p);
    var now, rest := got + ChunkValues(fields[i], c), AllValues(fields[i], chunks[1..]);
    Joined(ChunkBytes(c), AllBytes(chunks[1..]), t);
    Joined(got, ChunkValues(fields[i], c), rest);
    ChunkInLoop(fields, i, p, c, AllBytes(chunks[1..]) + t);
    if chunks[1..] == [] {
      assert AllBytes([]) + t == t && now + [] == now;
    } else if |now| <= fields[i].arraySize {
      RoundTrip.ReceivedMore(fields, i, p, now, now);
      PackedUnpackedAgree(fields, i, RoundTrip.WithReceived(fields, i, p, now), chunks[1..], t);
      if |now + rest| <= fields[i].arraySize {
        RoundTrip.ReceivedMore(fields, i, p, now, now + rest);
      }
    }
  }

  lemma {:induction false} NoneRequired(fields: seq<Field>, n: nat)
    requires n <= |fields|
    ensures RequiredBefore(fields, n) == 0 <==> forall j :: 0 <= j < n ==> !fields[j].htype.Required?
    decreases n
  {
    if n > 0 { NoneRequired(fields, n - 1); }
  }

  /**
   A message that brings elements of a fixed-count array is accepted exactly when it brings as many as the
   array has, in whatever pieces, and nothing else is required of it.
   */
  lemma FixedCountExactly(fields: seq<Field>, i: nat, slots: seq<Slot>, chunks: seq<Chunk>)
    requires i < |fields| && fields[i].FixedCount() && ScalarArray(fields, i, Start(slots))
    requires chunks != [] && forall c :: c in chunks ==> ChunkOk(fields[i], c)
    ensures DecMessage(fields, slots, AllBytes(chunks)).Done?
       <==> |AllValues(fields[i], chunks)| == fields[i].arraySize
            && forall j :: 0 <= j < |fields| ==> !fields[j].htype.Required?
  {
    hide DecLoop, ChunkOk, ChunkValues, ChunkBytes, UniqueTags, RequiredBefore;
    var all := AllValues(fields[i], chunks);
    PackedUnpackedAgree(fields, i, Start(slots), chunks, []);
    assert AllBytes(chunks) + [] == AllBytes(chunks);
    assert RoundTrip.Received(fields, i, Start(slots)) + all == all;
    NoneRequired(fields, |fields|);
    if |all| <= fields[i].arraySize {
      RoundTrip.LoopEnd(fields, RoundTrip.WithReceived(fields, i, Start(slots), all), []);
    }
    if RequiredBefore(fields, |fields|) > 0 { assert 0 !in Start(slots).seen; }
  }
}
