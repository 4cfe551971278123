/**
 The outstanding-work counter of DataStreamRequest: parser executions are counted when data arrives, and a
 completion that registers meanwhile waits until the last of them has finished. Blocks dispatched to queues
 are pending jobs, and any pending job may run next, so every order the queues could choose is covered.
 */
module StreamCompletion {
  import opened Counting

  // ---------------------------------------------------------------- the mutable state

  /** A parser calls its handler's queue directly, or goes through serialization and the underlying queue. */
  datatype Parser = Direct | Serialized

  // Completions are named by the number of the run of appendStreamCompletion's block that registers them.

  /** StreamMutableState, with the blocks dispatched from inside its critical sections. */
  datatype Books = Books(
    streams: seq<Parser>, executing: int, waiting: seq<Id>,
    feeds: seq<seq<Parser>>, releases: seq<seq<Id>>, posted: seq<Id>)

  /** didReceive. */
  function Received(b: Books): Books {
    b.(executing := b.executing + |b.streams|, feeds := b.feeds + [b.streams])
  }

  /** The critical section in appendStreamCompletion. */
  function Registered(b: Books, id: Id): Books {
    if b.executing == 0 then b.(posted := b.posted + [id]) else b.(waiting := b.waiting + [id])
  }

  /** updateAndCompleteIfPossible. */
  function Updated(b: Books): Books {
    var less := b.(executing := b.executing - 1);
    if less.executing != 0 || less.waiting == [] then less
    else less.(waiting := [], releases := less.releases + [less.waiting])
  }

  /** How often a completion is in the request's hands: waiting, or let go and not yet called. */
  function InBooks(b: Books, id: Id): nat {
    Count(b.waiting, id) + CountAll(b.releases, id) + Count(b.posted, id)
  }

  ghost predicate SameCompletions(b: Books, c: Books) {
    forall id: Id :: InBooks(c, id) == InBooks(b, id)
  }

  class DataStreamRequest {
    var streams: seq<Parser>
    var numberOfExecutingStreams: int
    var enqueuedCompletionEvents: seq<Id>
    var feeds: seq<seq<Parser>>
    var releases: seq<seq<Id>>
    var posted: seq<Id>

    ghost function Look(): Books
      reads this
    {
      Books(streams, numberOfExecutingStreams, enqueuedCompletionEvents, feeds, releases, posted)
    }

    /** Everything scheduled is counted, and a completion waits only while something is. */
    ghost predicate Valid()
      reads this
    {
      numberOfExecutingStreams >= Total(feeds) && (enqueuedCompletionEvents != [] ==> numberOfExecutingStreams > 0)
    }

    constructor ()
      ensures Valid() && Look() == Books([], 0, [], [], [], [])
    {
      streams, numberOfExecutingStreams, enqueuedCompletionEvents := [], 0, [];
      feeds, releases, posted := [], [], [];
    }

    method ResponseStream(parser: Parser)
      requires Valid()
      modifies this`streams
      ensures Valid() && Look() == old(Look()).(streams := old(streams) + [parser])
    {
      streams := streams + [parser];
    }

    /**
     What is counted and what is scheduled grow by the same number, one for each stream registered by now;
     executions that were begun before are not touched, nor is any completion.
     */
    method DidReceive()
      requires Valid()
      modifies this`numberOfExecutingStreams, this`feeds
      ensures Valid() && Look() == Received(old(Look()))
      ensures numberOfExecutingStreams - Total(feeds) == old(numberOfExecutingStreams - Total(feeds))
      ensures Total(feeds) == old(Total(feeds)) + |streams|
      ensures feeds == old(feeds) + [streams]
    {
      TotalAppend(feeds, streams);
      numberOfExecutingStreams := numberOfExecutingStreams + |streams|;
      var localState := streams;
      feeds := feeds + [localState];
    }

    /** The completion is in the request's hands once more, and let go at once exactly when nothing executes. */
    method AppendStreamCompletion(id: Id)
      requires Valid()
      modifies this`enqueuedCompletionEvents, this`posted
      ensures Valid() && Look() == Registered(old(Look()), id)
      ensures forall k: Id :: InBooks(Look(), k) == InBooks(old(Look()), k) + if k == id then 1 else 0
      ensures if numberOfExecutingStreams == 0 then posted == old(posted) + [id]
              else enqueuedCompletionEvents == old(enqueuedCompletionEvents) + [id] && posted == old(posted)
    {
      RegisteredOnce(Look(), id);
      if numberOfExecutingStreams != 0 {
        enqueuedCompletionEvents := enqueuedCompletionEvents + [id];
        return;
      }
      EnqueueCompletion(id);
    }

    method EnqueueCompletion(id: Id)
      modifies this`posted
      ensures posted == old(posted) + [id]
    {
      posted := posted + [id];
    }

    /**
     One of the executions begun has finished. No completion is lost or doubled; if it was the last nobody
     waits any more and all who did are let go together, in order, and otherwise nobody is.
     */
    method UpdateAndCompleteIfPossible()
      requires Valid() && numberOfExecutingStreams > Total(feeds)
      modifies this`numberOfExecutingStreams, this`enqueuedCompletionEvents, this`releases
      ensures Valid() && Look() == Updated(old(Look()))
      ensures numberOfExecutingStreams == old(numberOfExecutingStreams) - 1
      ensures SameCompletions(old(Look()), Look())
      ensures if numberOfExecutingStreams == 0
              then enqueuedCompletionEvents == []
                   && releases == old(releases) + if old(enqueuedCompletionEvents) == [] then []
                                                  else [old(enqueuedCompletionEvents)]
              else enqueuedCompletionEvents == old(enqueuedCompletionEvents) && releases == old(releases)
    {
      UpdatedKeeps(Look());
      numberOfExecutingStreams := numberOfExecutingStreams - 1;
      if numberOfExecutingStreams != 0 || enqueuedCompletionEvents == [] {
        return;
      }
      var completionEvents := enqueuedCompletionEvents;
      releases := releases + [completionEvents];
      enqueuedCompletionEvents := [];
    }
  }

  lemma RegisteredOnce(b: Books, id: Id)
    ensures forall k: Id :: InBooks(Registered(b, id), k) == InBooks(b, k) + if k == id then 1 else 0
  {
    forall k: Id
      ensures InBooks(Registered(b, id), k) == InBooks(b, k) + if k == id then 1 else 0
    {
      CountConcat(b.posted, [id], k);
      CountConcat(b.waiting, [id], k);
    }
  }

  lemma UpdatedKeeps(b: Books)
    ensures SameCompletions(b, Updated(b))
  {
    forall id: Id
      ensures InBooks(Updated(b), id) == InBooks(b, id)
    {
      CountAllAppend(b.releases, b.waiting, id);
    }
  }

  // ---------------------------------------------------------------- the system

  /** Where a parser execution that has been fed its data is. */
  datatype Stage = Serializing | Parsed | Handling

  /** The request, the parser executions begun, the completions called, and how many registered. */
  datatype System = System(books: Books, running: seq<Stage>, completed: seq<Id>, registered: nat)

  datatype Event =
    | AddStream(parser: Parser)
    | Receive
    | Feed(k: nat)
    | Advance(k: nat)
    | Handle(k: nat)
    | Register
    | Release(k: nat)
    | Complete(k: nat)

  const INITIAL := System(Books([], 0, [], [], [], []), [], [], 0)

  function Begun(parsers: seq<Parser>): (stages: seq<Stage>)
    ensures |stages| == |parsers|
  {
    seq(|parsers|, i requires 0 <= i < |parsers| => if parsers[i].Direct? then Handling else Serializing)
  }

  predicate Enabled(s: System, e: Event) {
    match e
    case Feed(k) => k < |s.books.feeds|
    case Advance(k) => k < |s.running| && !s.running[k].Handling?
    case Handle(k) => k < |s.running| && s.running[k].Handling?
    case Release(k) => k < |s.books.releases|
    case Complete(k) => k < |s.books.posted|
    case _ => true
  }

  /** Handle runs the handler of one execution and then updateAndCompleteIfPossible. */
  function Step(s: System, e: Event): System
    requires Enabled(s, e)
  {
    var b := s.books;
    match e
    case AddStream(parser) => s.(books := b.(streams := b.streams + [parser]))
    case Receive => s.(books := Received(b))
    case Feed(k) => s.(books := b.(feeds := Without(b.feeds, k)), running := s.running + Begun(b.feeds[k]))
    case Advance(k) => s.(running := s.running[k := if s.running[k].Serializing? then Parsed else Handling])
    case Handle(k) => s.(books := Updated(b), running := Without(s.running, k))
    case Register => s.(books := Registered(b, s.registered), registered := s.registered + 1)
    case Release(k) => s.(books := b.(releases := Without(b.releases, k), posted := b.posted + b.releases[k]))
    case Complete(k) => s.(books := b.(posted := Without(b.posted, k)), completed := s.completed + [b.posted[k]])
  }

  /** Every event can happen when its turn comes. */
  predicate Possible(s: System, events: seq<Event>)
    decreases events
  {
    events == [] || (Enabled(s, events[0]) && Possible(Step(s, events[0]), events[1..]))
  }

  function Run(s: System, events: seq<Event>): System
    requires Possible(s, events)
    decreases events
  {
    if events == [] then s else Run(Step(s, events[0]), events[1..])
  }

  // ---------------------------------------------------------------- the counter

  function Total<T>(batches: seq<seq<T>>): nat {
    if batches == [] then 0 else |batches[0]| + Total(batches[1..])
  }

  /** Parser executions that have been scheduled and have not finished. */
  function Unfinished(s: System): nat { Total(s.books.feeds) + |s.running| }

  ghost predicate Counted(s: System) {
    s.books.executing == Unfinished(s) && (s.books.waiting != [] ==> s.books.executing > 0)
  }

  lemma {:induction false} TotalAppend<T>(batches: seq<seq<T>>, batch: seq<T>)
    ensures Total(batches + [batch]) == Total(batches) + |batch|
  {
    if batches == [] {
      assert batches + [batch] == [batch];
    } else {
      assert (batches + [batch])[1..] == batches[1..] + [batch];
      TotalAppend(batches[1..], batch);
    }
  }

  lemma {:induction false} TotalWithout<T>(batches: seq<seq<T>>, k: nat)
    requires k < |batches|
    ensures Total(batches) == Total(Without(batches, k)) + |batches[k]|
  {
    if k == 0 {
      assert Without(batches, k) == batches[1..];
    } else {
      assert Without(batches, k)[1..] == Without(batches[1..], k - 1);
      TotalWithout(batches[1..], k - 1);
    }
  }

  /** The counter is the number of unfinished executions, and a completion waits only while it is positive. */
  lemma StepCounted(s: System, e: Event)
    requires Counted(s) && Enabled(s, e)
    ensures Counted(Step(s, e))
  {
    match e
    case Receive => TotalAppend(s.books.feeds, s.books.streams);
    case Feed(k) => TotalWithout(s.books.feeds, k);
    case _ =>
  }

  // ---------------------------------------------------------------- released once, at zero

  function CountAll(batches: seq<seq<Id>>, id: Id): nat {
    if batches == [] then 0 else Count(batches[0], id) + CountAll(batches[1..], id)
  }

  /** How often a completion has been let go: handed to a queue by either path, or already called. */
  function Released(s: System, id: Id): nat {
    CountAll(s.books.releases, id) + Count(s.books.posted, id) + Count(s.completed, id)
  }

  lemma {:induction false} CountAllAppend(batches: seq<seq<Id>>, batch: seq<Id>, id: Id)
    ensures CountAll(batches + [batch], id) == CountAll(batches, id) + Count(batch, id)
  {
    if batches == [] {
      assert batches + [batch] == [batch];
    } else {
      assert (batches + [batch])[1..] == batches[1..] + [batch];
      CountAllAppend(batches[1..], batch, id);
    }
  }

  lemma {:induction false} CountAllWithout(batches: seq<seq<Id>>, k: nat, id: Id)
    requires k < |batches|
    ensures CountAll(batches, id) == CountAll(Without(batches, k), id) + Count(batches[k], id)
  {
    if k == 0 {
      assert Without(batches, k) == batches[1..];
    } else {
      assert Without(batches, k)[1..] == Without(batches[1..], k - 1);
      CountAllWithout(batches[1..], k - 1, id);
    }
  }

  /**
   What one step does to one completion: it arrives once, by registering; it goes from waiting to released
   only in a step that leaves no execution unfinished; and once released it is never let go again.
   */
  lemma StepReleases(s: System, e: Event, id: Id)
    requires Counted(s) && Enabled(s, e)
    ensures var t := Step(s, e);
            && t.registered == s.registered + (if e.Register? then 1 else 0)
            && Count(t.books.waiting, id) + Released(t, id)
               == Count(s.books.waiting, id) + Released(s, id) + (if e.Register? && id == s.registered then 1 else 0)
            && Released(t, id) >= Released(s, id)
            && (Released(t, id) > Released(s, id) ==> Unfinished(t) == 0)
  {
    var b := s.books;
    StepCounted(s, e);
    match e
    case Handle(k) =>
      CountAllAppend(b.releases, b.waiting, id);
    case Register =>
      CountConcat(b.posted, [s.registered], id);
      CountConcat(b.waiting, [s.registered], id);
    case Release(k) =>
      CountAllWithout(b.releases, k, id);
      CountConcat(b.posted, b.releases[k], id);
    case Complete(k) =>
      CountWithout(b.posted, k, id);
      CountConcat(s.completed, [b.posted[k]], id);
    case _ =>
  }

  ghost predicate EachOnce(s: System) {
    forall id: Id :: Count(s.books.waiting, id) + Released(s, id) == if id < s.registered then 1 else 0
  }

  lemma {:induction false} RunKeeps(s: System, events: seq<Event>)
    requires Counted(s) && EachOnce(s) && Possible(s, events)
    ensures Counted(Run(s, events)) && EachOnce(Run(s, events))
    decreases |events|
  {
    hide Step, Enabled, Counted, Released;
    if events != [] {
      var t := Step(s, events[0]);
      forall id: Id
        ensures Count(t.books.waiting, id) + Released(t, id) == if id < t.registered then 1 else 0
      {
        StepReleases(s, events[0], id);
      }
      StepCounted(s, events[0]);
      RunKeeps(t, events[1..]);
    }
  }

  /**
   In every reachable state the counter equals the unfinished parser executions, completions wait only while
   it is positive, and each completion that registered is waiting or has been released, exactly once.
   */
  lemma CompletionsAreConserved(events: seq<Event>)
    requires Possible(INITIAL, events)
    ensures Counted(Run(INITIAL, events)) && EachOnce(Run(INITIAL, events))
  {
    RunKeeps(INITIAL, events);
  }

  /** Once nothing is pending on any queue, every completion that registered has been called exactly once. */
  lemma NothingIsLost(events: seq<Event>, id: Id)
    requires Possible(INITIAL, events)
    requires var s := Run(INITIAL, events);
             s.books.feeds == [] && s.running == [] && s.books.releases == [] && s.books.posted == []
    ensures Count(Run(INITIAL, events).completed, id) == if id < Run(INITIAL, events).registered then 1 else 0
  {
    hide Run, Possible;
    CompletionsAreConserved(events);
    assert Count(Run(INITIAL, events).books.waiting, id) == 0;
  }

  // ---------------------------------------------------------------- the last word

  /** A completion has been let go and not yet been called. */
  predicate Pending(s: System) { s.books.posted != [] || Total(s.books.releases) > 0 }

  /** No completion can be called while a parser execution is left to finish. */
  predicate Last(s: System) { Pending(s) ==> Unfinished(s) == 0 }

  /** Data for some stream arrives behind a completion that has been let go. */
  predicate Overtakes(s: System, e: Event) { e.Receive? && s.books.streams != [] && Pending(s) }

  /** Exactly the data that arrives then breaks it, which didReceive could tell from its own state. */
  lemma StepLast(s: System, e: Event)
    requires Counted(s) && Enabled(s, e) && Last(s)
    ensures Last(Step(s, e)) <==> !Overtakes(s, e)
  {
    var b := s.books;
    StepCounted(s, e);
    match e
    case Receive => TotalAppend(b.feeds, b.streams);
    case Feed(k) => TotalWithout(b.feeds, k);
    case Handle(k) => TotalAppend(b.releases, b.waiting);
    case Release(k) => TotalWithout(b.releases, k);
    case _ =>
  }

  predicate AlwaysLast(s: System, events: seq<Event>)
    requires Possible(s, events)
    decreases events
  {
    Last(s) && (events != [] ==> AlwaysLast(Step(s, events[0]), events[1..]))
  }

  predicate NoneOvertakes(s: System, events: seq<Event>)
    requires Possible(s, events)
    decreases events
  {
    events == [] || (!Overtakes(s, events[0]) && NoneOvertakes(Step(s, events[0]), events[1..]))
  }

  lemma {:induction false} RunLast(s: System, events: seq<Event>)
    requires Counted(s) && Last(s) && Possible(s, events)
    ensures AlwaysLast(s, events) <==> NoneOvertakes(s, events)
    ensures NoneOvertakes(s, events) ==> Last(Run(s, events))
    decreases |events|
  {
    hide Step, Enabled, Counted, Last, Overtakes;
    if events != [] {
      var t := Step(s, events[0]);
      StepLast(s, events[0]);
      StepCounted(s, events[0]);
      if Last(t) {
        RunLast(t, events[1..]);
      } else {
        NotAlways(t, events[1..]);
      }
    }
  }

  lemma NotAlways(s: System, events: seq<Event>)
    requires Possible(s, events) && !Last(s)
    ensures !AlwaysLast(s, events)
  {
  }

  /**
   A stream's completion is its last word, throughout a run, if and only if no data arrives for a stream
   while a completion has been let go and not yet called.
   */
  lemma LastExactlyWhen(events: seq<Event>)
    requires Possible(INITIAL, events)
    ensures AlwaysLast(INITIAL, events) <==> NoneOvertakes(INITIAL, events)
  {
    RunLast(INITIAL, events);
  }

  /** So whenever a completion is called after such a run, no parser execution is left to finish. */
  lemma CompletionComesLast(events: seq<Event>, k: nat)
    requires Possible(INITIAL, events) && NoneOvertakes(INITIAL, events)
    requires Enabled(Run(INITIAL, events), Complete(k))
    ensures Unfinished(Run(INITIAL, events)) == 0
  {
    RunLast(INITIAL, events);
  }

  /** And once it is broken, a completion can be called at once with an execution left to finish. */
  lemma OvertakenIsCalled(s: System) returns (events: seq<Event>)
    requires !Last(s)
    ensures Possible(s, events) && Enabled(Run(s, events), Complete(0)) && Unfinished(Run(s, events)) > 0
  {
    if s.books.posted != [] {
      events := [];
    } else {
      var k := SomeBatch(s.books.releases);
      var t := Step(s, Release(k));
      events := [Release(k)];
      assert Possible(t, []) && Run(t, []) == t;
      assert events[1..] == [];
    }
  }

  lemma {:induction false} SomeBatch<T>(batches: seq<seq<T>>) returns (k: nat)
    requires Total(batches) > 0
    ensures k < |batches| && batches[k] != []
  {
    if batches[0] != [] {
      k := 0;
    } else {
      var j := SomeBatch(batches[1..]);
      k := j + 1;
    }
  }

  // ---------------------------------------------------------------- data before completion

  /** No data arrives after a completion has registered, as a session that has ended its task promises. */
  predicate DataFirst(events: seq<Event>, registered: bool)
    decreases events
  {
    events == []
    || (!(registered && events[0].Receive?) && DataFirst(events[1..], registered || events[0].Register?))
  }

  /** Before any completion has registered there is none to be overtaken. */
  predicate NoneYet(s: System) {
    s.registered == 0 ==> s.books.waiting == [] && !Pending(s)
  }

  lemma StepNoneYet(s: System, e: Event)
    requires NoneYet(s) && Enabled(s, e)
    ensures NoneYet(Step(s, e)) && Step(s, e).registered == s.registered + if e.Register? then 1 else 0
  {
    match e
    case Release(k) => TotalWithout(s.books.releases, k);
    case _ =>
  }

  /** That promise is enough: a run that keeps it overtakes nothing. */
  lemma {:induction false} DataFirstSuffices(s: System, events: seq<Event>)
    requires NoneYet(s) && Possible(s, events) && DataFirst(events, s.registered > 0)
    ensures NoneOvertakes(s, events)
    decreases |events|
  {
    hide Step, Enabled;
    if events != [] {
      StepNoneYet(s, events[0]);
      DataFirstSuffices(Step(s, events[0]), events[1..]);
    }
  }

  /** It is not needed: data may arrive once the completion has been called. */
  lemma DataAfterTheCall()
    ensures var events := [AddStream(Direct), Register, Complete(0), Receive];
            Possible(INITIAL, events) && !DataFirst(events, false) && NoneOvertakes(INITIAL, events)
  {
    var a := Step(INITIAL, AddStream(Direct));
    var b := Step(a, Register);
    var c := Step(b, Complete(0));
    assert b.books.posted == [0] && c.books.posted == [];
    var d := Step(c, Receive);
    assert Possible(d, []) && NoneOvertakes(d, []);
    assert Possible(c, [Receive]) && NoneOvertakes(c, [Receive]);
    assert [Complete(0), Receive][1..] == [Receive];
    assert Possible(b, [Complete(0), Receive]) && NoneOvertakes(b, [Complete(0), Receive]);
    assert [Register, Complete(0), Receive][1..] == [Complete(0), Receive];
    assert Possible(a, [Register, Complete(0), Receive]) && NoneOvertakes(a, [Register, Complete(0), Receive]);
    assert [AddStream(Direct), Register, Complete(0), Receive][1..] == [Register, Complete(0), Receive];
    assert !DataFirst([Receive], true);
    assert !DataFirst([Complete(0), Receive], true);
    assert !DataFirst([Register, Complete(0), Receive], false);
  }
}
