/**
 The credential-refresh protocol of AuthenticationInterceptor. The class holds the interceptor's mutable
 state and its methods are the critical sections; around it a system of concurrent calls, dispatched
 jobs and an authenticator interleaves them in any order.
 */
module Refresh {
  import opened Counting
  import opened Wire

  // ---------------------------------------------------------------- the mutable state

  // A completion closure is named by the number of the call that brought it, an Id.

  /** A credential: an identity, and whether it asks for a refresh before use. */
  datatype Credential = Credential(token: nat, requiresRefresh: bool)

  /** RefreshWindow. */
  datatype Window = Window(interval: real, maximumAttempts: int)

  /** What a completion is called with. */
  datatype Answer = Authenticated(c: Credential) | Missing | Excessive | Failed | DoNotRetry | Retry

  /** A block handed to the dispatch queue: the captured operations and what to do with them. */
  datatype Job =
    | Resume(adapts: seq<Id>, retries: seq<Id>)
    | Reject(adapts: seq<Id>, retries: seq<Id>, answer: Answer)

  /** The same job with what is left of it. */
  function Left(job: Job, adapts: seq<Id>, retries: seq<Id>): Job {
    match job
    case Resume(_, _) => Resume(adapts, retries)
    case Reject(_, _, answer) => Reject(adapts, retries, answer)
  }

  datatype AdaptResult = Adapt(c: Credential) | DoNotAdapt | Deferred

  /** MutableState, with the jobs dispatched so far and the authenticator calls not yet answered. */
  datatype Core = Core(
    credential: Option<Credential>, isRefreshing: bool, timestamps: seq<real>, window: Option<Window>,
    adaptOperations: seq<Id>, requestsToRetry: seq<Id>, jobs: seq<Job>, outstanding: nat)

  /** How many timestamps are not older than `min`. */
  function Recent(timestamps: seq<real>, min: real): nat {
    if timestamps == [] then 0
    else Recent(timestamps[..|timestamps| - 1], min) + if min <= timestamps[|timestamps| - 1] then 1 else 0
  }

  /** isRefreshExcessive, with the clock reading it takes. */
  predicate IsExcessive(c: Core, now: real) {
    c.window.Some? && Recent(c.timestamps, now - c.window.value.interval) >= c.window.value.maximumAttempts
  }

  /** Both queues are captured into a job and emptied, and the refresh is over. */
  function Flushed(c: Core, job: Job): Core {
    c.(adaptOperations := [], requestsToRetry := [], isRefreshing := false, jobs := c.jobs + [job])
  }

  /** handleRefreshSuccess. */
  function Succeed(c: Core, credential: Credential): Core {
    Flushed(c.(credential := Some(credential)), Resume(c.adaptOperations, c.requestsToRetry))
  }

  /** handleRefreshFailure. */
  function Fails(c: Core, error: Answer): Core {
    Flushed(c, Reject(c.adaptOperations, c.requestsToRetry, error))
  }

  /** refresh: `check` and `record` are its two clock readings. */
  function StartRefresh(c: Core, check: real, record: real): Core {
    if IsExcessive(c, check) then Fails(c, Excessive)
    else c.(timestamps := c.timestamps + [record], isRefreshing := true, outstanding := c.outstanding + 1)
  }

  /** The critical section of adapt. */
  function AdaptSection(c: Core, id: Id, check: real, record: real): (Core, AdaptResult) {
    var queued := c.(adaptOperations := c.adaptOperations + [id]);
    if c.isRefreshing then (queued, Deferred)
    else if c.credential.None? then (c, DoNotAdapt)
    else if c.credential.value.requiresRefresh then (StartRefresh(queued, check, record), Deferred)
    else (c, Adapt(c.credential.value))
  }

  /** The critical section of retry. */
  function RetrySection(c: Core, id: Id, check: real, record: real): Core {
    var queued := c.(requestsToRetry := c.requestsToRetry + [id]);
    if c.isRefreshing then queued else StartRefresh(queued, check, record)
  }

  /** The authenticator's completion. */
  function Callback(c: Core, result: Option<Credential>): Core {
    var answered := c.(outstanding := if c.outstanding > 0 then c.outstanding - 1 else 0);
    if result.Some? then Succeed(answered, result.value) else Fails(answered, Failed)
  }

  // ---------------------------------------------------------------- what the critical sections keep

  /** A refresh is in flight exactly when one authenticator call is unanswered; nothing is queued otherwise. */
  predicate OneRefresh(c: Core) {
    && c.outstanding == (if c.isRefreshing then 1 else 0)
    && (c.adaptOperations != [] || c.requestsToRetry != [] ==> c.isRefreshing)
  }

  /** Every completion is where it was, or in another place of the interceptor. */
  ghost predicate SameCompletions(c: Core, d: Core) {
    forall id: Id :: InCore(d, id) == InCore(c, id)
  }

  /** And one more has arrived. */
  ghost predicate OneArrived(c: Core, d: Core, own: Id) {
    forall id: Id :: InCore(d, id) == InCore(c, id) + if id == own then 1 else 0
  }

  // ---------------------------------------------------------------- the class

  /** The interceptor's state under its lock. Every method is one critical section or part of one. */
  class AuthenticationInterceptor {
    var credential: Option<Credential>
    var isRefreshing: bool
    var refreshTimestamps: seq<real>
    var refreshWindow: Option<Window>
    var adaptOperations: seq<Id>
    var requestsToRetry: seq<Id>
    var queue: seq<Job>
    var outstanding: nat

    ghost function Look(): Core
      reads this
    {
      Core(
        credential, isRefreshing, refreshTimestamps, refreshWindow,
        adaptOperations, requestsToRetry, queue, outstanding)
    }

    ghost predicate Valid()
      reads this
    {
      OneRefresh(Look())
    }

    constructor (c: Option<Credential>, window: Option<Window>)
      ensures Valid() && Look() == Core(c, false, [], window, [], [], [], 0)
    {
      credential, refreshWindow := c, window;
      isRefreshing, refreshTimestamps := false, [];
      adaptOperations, requestsToRetry, queue, outstanding := [], [], [], 0;
    }

    /**
     A caller is deferred exactly when a refresh is in flight or its credential asks for one, and its
     completion is then in the interceptor once more than before; nobody else's moves. Otherwise nothing
     changes, and a credential handed out is the current one and needs no refresh.
     */
    method Adapt(id: Id, check: real, record: real) returns (result: AdaptResult)
      requires Valid()
      modifies this
      ensures Valid() && (Look(), result) == AdaptSection(old(Look()), id, check, record)
      ensures result.Deferred? <==>
                old(isRefreshing) || (old(credential).Some? && old(credential).value.requiresRefresh)
      ensures if result.Deferred? then OneArrived(old(Look()), Look(), id) else Look() == old(Look())
      ensures result.DoNotAdapt? <==> !old(isRefreshing) && old(credential).None?
      ensures result.Adapt? ==> Some(result.c) == credential && !result.c.requiresRefresh
      ensures credential == old(credential)
    {
      if isRefreshing {
        AdaptKept(old(Look()), id, check, record);
        adaptOperations := adaptOperations + [id];
        return Deferred;
      }
      if credential.None? {
        return DoNotAdapt;
      }
      if credential.value.requiresRefresh {
        AdaptKept(old(Look()), id, check, record);
        adaptOperations := adaptOperations + [id];
        Refresh(check, record);
        return Deferred;
      }
      return AdaptResult.Adapt(credential.value);
    }

    /**
     The completion is in the interceptor once more than before, and afterwards either waits for a refresh
     in flight or was captured, with everyone who waited, by the job of a refresh refused as excessive.
     */
    method Retry(id: Id, check: real, record: real)
      requires Valid()
      modifies this
      ensures Valid() && Look() == RetrySection(old(Look()), id, check, record)
      ensures OneArrived(old(Look()), Look(), id)
      ensures if isRefreshing then id in requestsToRetry
              else queue == old(queue) + [Reject(old(adaptOperations), old(requestsToRetry) + [id], Excessive)]
      ensures credential == old(credential)
    {
      RetryKept(old(Look()), id, check, record);
      requestsToRetry := requestsToRetry + [id];
      if isRefreshing {
        return;
      }
      Refresh(check, record);
    }

    /**
     Called while no refresh is in flight, with the caller queued. One authenticator call goes out and its
     time is recorded, unless that would be excessive, and then everyone queued is refused; no completion
     is lost either way, and the rate bound is kept whatever time passes between the two clock readings.
     */
    method Refresh(check: real, record: real)
      requires !isRefreshing && outstanding == 0
      modifies this
      ensures Valid() && Look() == StartRefresh(old(Look()), check, record)
      ensures SameCompletions(old(Look()), Look())
      ensures (forall t :: t in old(refreshTimestamps) ==> t <= check) ==> (isRefreshing <==>
                refreshWindow.None? || Started(old(refreshTimestamps), check - refreshWindow.value.interval, check)
                                       < refreshWindow.value.maximumAttempts)
      ensures refreshTimestamps == old(refreshTimestamps) + if isRefreshing then [record] else []
      ensures RateKept(old(Look()), Look(), check, record)
    {
      StartKept(old(Look()), check, record);
      StartRateKept(old(Look()), check, record);
      StartsExactly(old(Look()), check, record);
      var excessive := IsRefreshExcessive(check);
      if excessive {
        HandleRefreshFailure(Excessive);
        return;
      }
      refreshTimestamps := refreshTimestamps + [record];
      isRefreshing := true;
      outstanding := outstanding + 1;
    }

    /** With no timestamp later than now, the interval that ends now already holds all the refreshes allowed in it. */
    method IsRefreshExcessive(now: real) returns (excessive: bool)
      ensures excessive == IsExcessive(Look(), now)
      ensures (forall t :: t in refreshTimestamps ==> t <= now) ==> (excessive <==>
                refreshWindow.Some? && Started(refreshTimestamps, now - refreshWindow.value.interval, now)
                                       >= refreshWindow.value.maximumAttempts)
    {
      StartsExactly(Look(), now, now);
      if refreshWindow.None? {
        return false;
      }
      var min, attempts, i := now - refreshWindow.value.interval, 0, 0;
      while i < |refreshTimestamps|
        invariant i <= |refreshTimestamps| && attempts == Recent(refreshTimestamps[..i], min)
      {
        assert refreshTimestamps[..i + 1][..i] == refreshTimestamps[..i];
        if min <= refreshTimestamps[i] {
          attempts := attempts + 1;
        }
        i := i + 1;
      }
      assert refreshTimestamps[..i] == refreshTimestamps;
      return attempts >= refreshWindow.value.maximumAttempts;
    }

    /**
     The completion passed to the authenticator. It is called once for each refresh, which is then over:
     nobody is queued any more, no completion is lost, and the next caller can start another refresh.
     */
    method RefreshDidComplete(result: Option<Credential>)
      requires Valid() && outstanding > 0
      modifies this
      ensures Valid() && Look() == Callback(old(Look()), result)
      ensures !isRefreshing && adaptOperations == [] && requestsToRetry == []
      ensures SameCompletions(old(Look()), Look())
      ensures credential == if result.Some? then result else old(credential)
    {
      CallbackKept(old(Look()), result);
      outstanding := outstanding - 1;
      if result.Some? {
        HandleRefreshSuccess(result.value);
      } else {
        HandleRefreshFailure(Failed);
      }
    }

    /** All who wait are captured, in order, by a job that lets them go on with the new credential. */
    method HandleRefreshSuccess(c: Credential)
      requires outstanding == 0
      modifies this
      ensures Valid() && Look() == Succeed(old(Look()), c) && SameCompletions(old(Look()), Look())
      ensures queue == old(queue) + [Resume(old(adaptOperations), old(requestsToRetry))]
    {
      FlushKept(old(Look()).(credential := Some(c)), Resume(adaptOperations, requestsToRetry));
      credential := Some(c);
      var adapts, retries := adaptOperations, requestsToRetry;
      adaptOperations, requestsToRetry := [], [];
      isRefreshing := false;
      queue := queue + [Resume(adapts, retries)];
    }

    /** All who wait are captured, in order, by a job that hands them the error. */
    method HandleRefreshFailure(error: Answer)
      requires outstanding == 0
      modifies this
      ensures Valid() && Look() == Fails(old(Look()), error) && SameCompletions(old(Look()), Look())
      ensures queue == old(queue) + [Reject(old(adaptOperations), old(requestsToRetry), error)]
    {
      FlushKept(old(Look()), Reject(adaptOperations, requestsToRetry, error));
      var adapts, retries := adaptOperations, requestsToRetry;
      adaptOperations, requestsToRetry := [], [];
      isRefreshing := false;
      queue := queue + [Reject(adapts, retries, error)];
    }
  }

  // ---------------------------------------------------------------- the system

  /** A call that is outside the lock with its completion in hand. */
  datatype Holding =
    | Answering(id: Id, answer: Answer)
    | Queueing(id: Id)

  /** The interceptor, the calls in progress, the completions called, and the clock. */
  datatype System = System(core: Core, held: seq<Holding>, done: seq<(Id, Answer)>, calls: seq<Kind>, clock: real)

  /** Which call brought the completion of that number, and what the guards of a retry call saw. */
  datatype Kind =
    | Adapting
    | Retrying(eligible: bool, present: bool, matches: bool)

  /** A retry call that passed every guard: its failure was one of authentication, and with the current credential. */
  const GUARDED := Retrying(true, true, true)

  datatype Event =
    | AdaptCall(check: real, record: real)
    | RetryCall(eligible: bool, matches: bool)
    | RetryEnter(k: nat, check: real, record: real)
    | Deliver(k: nat)
    | Authenticator(result: Option<Credential>)
    | RunJob(check: real, record: real)
    | SetCredential(c: Option<Credential>)

  function Initial(c: Option<Credential>, window: Option<Window>): System {
    System(Core(c, false, [], window, [], [], [], 0), [], [], [], 0.0)
  }

  /** The critical section of adapt and what the call then holds. */
  function EnterAdapt(s: System, id: Id, check: real, record: real): System {
    var r := AdaptSection(s.core, id, check, record);
    s.(core := r.0, clock := record,
       held := s.held + match r.1
                        case Deferred => []
                        case DoNotAdapt => [Answering(id, Missing)]
                        case Adapt(c) => [Answering(id, Authenticated(c))])
  }

  /** The guards of retry before it takes the lock: what the call then holds. */
  function AfterGuards(s: System, id: Id, eligible: bool, matches: bool): Holding {
    if !eligible then Answering(id, DoNotRetry)
    else if s.core.credential.None? then Answering(id, Missing)
    else if !matches then Answering(id, Retry)
    else Queueing(id)
  }

  /** The serial queue takes the next operation of its first job. */
  function RunNext(s: System, check: real, record: real): System
    requires s.core.jobs != []
  {
    var job, later := s.core.jobs[0], s.core.jobs[1..];
    if job.adapts != [] then
      var id, left := job.adapts[0], [Left(job, job.adapts[1..], job.retries)] + later;
      if job.Resume? then EnterAdapt(s.(core := s.core.(jobs := left)), id, check, record)
      else s.(core := s.core.(jobs := left), done := s.done + [(id, job.answer)])
    else if job.retries != [] then
      var id, left := job.retries[0], [Left(job, job.adapts, job.retries[1..])] + later;
      s.(core := s.core.(jobs := left), done := s.done + [(id, if job.Resume? then Retry else job.answer)])
    else s.(core := s.core.(jobs := later))
  }

  /** One step of the system, when it can be taken: the clock never runs backwards. */
  function Step(s: System, e: Event): Option<System> {
    match e
    case AdaptCall(check, record) =>
      if s.clock <= check <= record then
        Some(EnterAdapt(s.(calls := s.calls + [Adapting]), |s.calls|, check, record))
      else None
    case RetryCall(eligible, matches) =>
      Some(s.(calls := s.calls + [Retrying(eligible, s.core.credential.Some?, matches)],
              held := s.held + [AfterGuards(s, |s.calls|, eligible, matches)]))
    case RetryEnter(k, check, record) =>
      if k < |s.held| && s.held[k].Queueing? && s.clock <= check <= record then
        Some(s.(core := RetrySection(s.core, s.held[k].id, check, record), clock := record,
                held := Without(s.held, k)))
      else None
    case Deliver(k) =>
      if k < |s.held| && s.held[k].Answering? then
        Some(s.(held := Without(s.held, k), done := s.done + [(s.held[k].id, s.held[k].answer)]))
      else None
    case Authenticator(result) =>
      if s.core.outstanding > 0 then Some(s.(core := Callback(s.core, result))) else None
    case RunJob(check, record) =>
      if s.core.jobs != [] && s.clock <= check <= record then Some(RunNext(s, check, record)) else None
    case SetCredential(c) => Some(s.(core := s.core.(credential := c)))
  }

  /** The states a sequence of events leads to, if every one of them can happen. */
  function Run(s: System, events: seq<Event>): Option<System>
    decreases events
  {
    if events == [] then Some(s)
    else
      match Step(s, events[0])
      case None => None
      case Some(next) => Run(next, events[1..])
  }

  // ---------------------------------------------------------------- conservation

  function InJobs(jobs: seq<Job>, id: Id): nat {
    if jobs == [] then 0
    else Count(jobs[0].adapts, id) + Count(jobs[0].retries, id) + InJobs(jobs[1..], id)
  }

  function InHeld(held: seq<Holding>, id: Id): nat {
    if held == [] then 0 else (if held[0].id == id then 1 else 0) + InHeld(held[1..], id)
  }

  function InDone(done: seq<(Id, Answer)>, id: Id): nat {
    if done == [] then 0 else (if done[0].0 == id then 1 else 0) + InDone(done[1..], id)
  }

  /** How often a completion is queued in the interceptor or captured by a job. */
  function InCore(c: Core, id: Id): nat {
    Count(c.adaptOperations, id) + Count(c.requestsToRetry, id) + InJobs(c.jobs, id)
  }

  /** How often a completion occurs in all the places it can be. */
  function Places(s: System, id: Id): nat {
    InCore(s.core, id) + InHeld(s.held, id) + InDone(s.done, id)
  }

  lemma {:induction false} InJobsConcat(a: seq<Job>, b: seq<Job>, id: Id)
    ensures InJobs(a + b, id) == InJobs(a, id) + InJobs(b, id)
  {
    if a == [] {
      assert a + b == b;
    } else {
      assert (a + b)[1..] == a[1..] + b;
      InJobsConcat(a[1..], b, id);
    }
  }

  lemma {:induction false} InHeldConcat(a: seq<Holding>, b: seq<Holding>, id: Id)
    ensures InHeld(a + b, id) == InHeld(a, id) + InHeld(b, id)
  {
    if a == [] {
      assert a + b == b;
    } else {
      assert (a + b)[1..] == a[1..] + b;
      InHeldConcat(a[1..], b, id);
    }
  }

  lemma {:induction false} InDoneConcat(a: seq<(Id, Answer)>, b: seq<(Id, Answer)>, id: Id)
    ensures InDone(a + b, id) == InDone(a, id) + InDone(b, id)
  {
    if a == [] {
      assert a + b == b;
    } else {
      assert (a + b)[1..] == a[1..] + b;
      InDoneConcat(a[1..], b, id);
    }
  }

  /** Taking one call out of those in progress. */
  lemma {:induction false} HeldWithout(held: seq<Holding>, k: nat, id: Id)
    requires k < |held|
    ensures InHeld(held, id) == InHeld(Without(held, k), id) + if held[k].id == id then 1 else 0
  {
    if k == 0 {
      assert Without(held, k) == held[1..];
    } else {
      assert Without(held, k)[1..] == Without(held[1..], k - 1);
      HeldWithout(held[1..], k - 1, id);
    }
  }

  lemma FlushKeeps(c: Core, job: Job, id: Id)
    requires job.adapts == c.adaptOperations && job.retries == c.requestsToRetry
    ensures InCore(Flushed(c, job), id) == InCore(c, id)
  {
    InJobsConcat(c.jobs, [job], id);
  }

  lemma StartKeeps(c: Core, check: real, record: real, id: Id)
    ensures InCore(StartRefresh(c, check, record), id) == InCore(c, id)
  {
    hide IsExcessive;
    if IsExcessive(c, check) {
      FlushKeeps(c, Reject(c.adaptOperations, c.requestsToRetry, Excessive), id);
    }
  }

  lemma AdaptKeeps(c: Core, own: Id, check: real, record: real, id: Id)
    ensures var r := AdaptSection(c, own, check, record);
            InCore(r.0, id) == InCore(c, id) + if r.1.Deferred? && own == id then 1 else 0
  {
    hide StartRefresh, InJobs;
    CountConcat(c.adaptOperations, [own], id);
    StartKeeps(c.(adaptOperations := c.adaptOperations + [own]), check, record, id);
  }

  lemma RetryKeeps(c: Core, own: Id, check: real, record: real, id: Id)
    ensures InCore(RetrySection(c, own, check, record), id) == InCore(c, id) + if own == id then 1 else 0
  {
    hide StartRefresh, InJobs;
    CountConcat(c.requestsToRetry, [own], id);
    StartKeeps(c.(requestsToRetry := c.requestsToRetry + [own]), check, record, id);
  }

  lemma CallbackKeeps(c: Core, result: Option<Credential>, id: Id)
    ensures InCore(Callback(c, result), id) == InCore(c, id)
  {
    hide Flushed;
    var answered := c.(outstanding := if c.outstanding > 0 then c.outstanding - 1 else 0);
    if result.Some? {
      FlushKeeps(answered.(credential := Some(result.value)), Resume(c.adaptOperations, c.requestsToRetry), id);
    } else {
      FlushKeeps(answered, Reject(c.adaptOperations, c.requestsToRetry, Failed), id);
    }
  }

  lemma FlushKept(c: Core, job: Job)
    requires job.adapts == c.adaptOperations && job.retries == c.requestsToRetry
    ensures SameCompletions(c, Flushed(c, job))
  {
    forall id: Id
      ensures InCore(Flushed(c, job), id) == InCore(c, id)
    {
      FlushKeeps(c, job, id);
    }
  }

  lemma StartKept(c: Core, check: real, record: real)
    ensures SameCompletions(c, StartRefresh(c, check, record))
  {
    forall id: Id
      ensures InCore(StartRefresh(c, check, record), id) == InCore(c, id)
    {
      StartKeeps(c, check, record, id);
    }
  }

  lemma AdaptKept(c: Core, own: Id, check: real, record: real)
    requires AdaptSection(c, own, check, record).1.Deferred?
    ensures OneArrived(c, AdaptSection(c, own, check, record).0, own)
  {
    forall id: Id
      ensures InCore(AdaptSection(c, own, check, record).0, id) == InCore(c, id) + if id == own then 1 else 0
    {
      AdaptKeeps(c, own, check, record, id);
    }
  }

  lemma RetryKept(c: Core, own: Id, check: real, record: real)
    ensures OneArrived(c, RetrySection(c, own, check, record), own)
  {
    forall id: Id
      ensures InCore(RetrySection(c, own, check, record), id) == InCore(c, id) + if id == own then 1 else 0
    {
      RetryKeeps(c, own, check, record, id);
    }
  }

  lemma CallbackKept(c: Core, result: Option<Credential>)
    ensures SameCompletions(c, Callback(c, result))
  {
    forall id: Id
      ensures InCore(Callback(c, result), id) == InCore(c, id)
    {
      CallbackKeeps(c, result, id);
    }
  }

  lemma CredentialKeeps(c: Core, credential: Option<Credential>, id: Id)
    ensures InCore(c.(credential := credential), id) == InCore(c, id)
  {
  }

  lemma EnterKeeps(s: System, own: Id, check: real, record: real, id: Id)
    ensures Places(EnterAdapt(s, own, check, record), id) == Places(s, id) + if own == id then 1 else 0
    ensures EnterAdapt(s, own, check, record).calls == s.calls
  {
    hide AdaptSection, InCore;
    AdaptKeeps(s.core, own, check, record, id);
    InHeldConcat(s.held, EnterAdapt(s, own, check, record).held[|s.held|..], id);
    assert EnterAdapt(s, own, check, record).held == s.held + EnterAdapt(s, own, check, record).held[|s.held|..];
  }

  lemma RunKeeps(s: System, check: real, record: real, id: Id)
    requires s.core.jobs != []
    ensures Places(RunNext(s, check, record), id) == Places(s, id)
    ensures RunNext(s, check, record).calls == s.calls
  {
    hide EnterAdapt;
    var job, later := s.core.jobs[0], s.core.jobs[1..];
    if job.adapts != [] {
      var own, left := job.adapts[0], [Left(job, job.adapts[1..], job.retries)] + later;
      if job.Resume? {
        EnterKeeps(s.(core := s.core.(jobs := left)), own, check, record, id);
      } else {
        InDoneConcat(s.done, [(own, job.answer)], id);
      }
    } else if job.retries != [] {
      var own, left := job.retries[0], [Left(job, job.adapts, job.retries[1..])] + later;
      InDoneConcat(s.done, [(own, if job.Resume? then Retry else job.answer)], id);
    }
  }

  /** A step moves completions between places; only a new call adds one. */
  lemma StepKeeps(s: System, e: Event, id: Id)
    requires Step(s, e).Some?
    ensures var t := Step(s, e).value;
            if e.AdaptCall? || e.RetryCall?
            then |t.calls| == |s.calls| + 1 && Places(t, id) == Places(s, id) + if id == |s.calls| then 1 else 0
            else t.calls == s.calls && Places(t, id) == Places(s, id)
  {
    hide EnterAdapt, RetrySection, Callback, RunNext, InCore;
    match e
    case AdaptCall(check, record) =>
      EnterKeeps(s.(calls := s.calls + [Adapting]), |s.calls|, check, record, id);
    case RetryCall(eligible, matches) =>
      InHeldConcat(s.held, [AfterGuards(s, |s.calls|, eligible, matches)], id);
    case RetryEnter(k, check, record) =>
      HeldWithout(s.held, k, id);
      RetryKeeps(s.core, s.held[k].id, check, record, id);
    case Deliver(k) =>
      HeldWithout(s.held, k, id);
      InDoneConcat(s.done, [(s.held[k].id, s.held[k].answer)], id);
    case Authenticator(result) => CallbackKeeps(s.core, result, id);
    case RunJob(check, record) => RunKeeps(s, check, record, id);
    case SetCredential(c) => CredentialKeeps(s.core, c, id);
  }

  // ---------------------------------------------------------------- one refresh at a time

  lemma StepOneRefresh(s: System, e: Event)
    requires OneRefresh(s.core) && Step(s, e).Some?
    ensures OneRefresh(Step(s, e).value.core)
  {
    hide IsExcessive;
  }

  // ---------------------------------------------------------------- the refresh rate

  predicate Sorted(ts: seq<real>, clock: real) {
    (forall i, j :: 0 <= i < j < |ts| ==> ts[i] <= ts[j]) && forall i :: 0 <= i < |ts| ==> ts[i] <= clock
  }

  /** How many refreshes started in the closed interval from `a` to `b`. */
  function Started(ts: seq<real>, a: real, b: real): nat {
    if ts == [] then 0
    else Started(ts[..|ts| - 1], a, b) + if a <= ts[|ts| - 1] <= b then 1 else 0
  }

  lemma {:induction false} StartedAreRecent(ts: seq<real>, a: real, b: real, min: real)
    requires min <= a
    ensures Started(ts, a, b) <= Recent(ts, min)
  {
    if ts != [] { StartedAreRecent(ts[..|ts| - 1], a, b, min); }
  }

  function Limit(w: Window): nat {
    if w.maximumAttempts > 0 then w.maximumAttempts else 0
  }

  /** The bound: every closed interval no longer than the window's holds at most the allowed number of refreshes. */
  ghost predicate RateBounded(ts: seq<real>, w: Window) {
    forall a: real, b: real :: b - a <= w.interval ==> Started(ts, a, b) <= Limit(w)
  }

  /** The bound on past refreshes still holds once time has passed. */
  ghost predicate RateKept(c: Core, d: Core, check: real, record: real) {
    c.window.Some? && check <= record && RateBounded(c.timestamps, c.window.value) ==>
      RateBounded(d.timestamps, c.window.value)
      && forall clock: real :: clock <= check && Sorted(c.timestamps, clock) ==> Sorted(d.timestamps, record)
  }

  lemma StartRateKept(c: Core, check: real, record: real)
    ensures RateKept(c, StartRefresh(c, check, record), check, record)
  {
    if c.window.Some? && check <= record && RateBounded(c.timestamps, c.window.value) {
      StartRate(c, check, record);
    }
  }

  /** The recorded time is never before the check, so what was in the window then is all that can be with it. */
  lemma StartRate(c: Core, check: real, record: real)
    requires c.window.Some? && RateBounded(c.timestamps, c.window.value) && check <= record
    ensures RateBounded(StartRefresh(c, check, record).timestamps, c.window.value)
  {
    var w, d := c.window.value, StartRefresh(c, check, record);
    if !IsExcessive(c, check) {
      var ts := d.timestamps;
      assert ts[..|ts| - 1] == c.timestamps;
      forall a: real, b: real | b - a <= w.interval
        ensures Started(ts, a, b) <= Limit(w)
      {
        assert Started(c.timestamps, a, b) <= Limit(w);
        if a <= record <= b {
          StartedAreRecent(c.timestamps, a, b, check - w.interval);
        }
      }
    }
  }

  lemma {:induction false} RecentAreStarted(ts: seq<real>, min: real, now: real)
    requires forall t :: t in ts ==> t <= now
    ensures Recent(ts, min) == Started(ts, min, now)
  {
    if ts != [] {
      var init := ts[..|ts| - 1];
      assert forall t :: t in init ==> t in ts;
      RecentAreStarted(init, min, now);
      assert ts[|ts| - 1] in ts;
    }
  }

  /**
   No refresh is refused that the window allows: one starts exactly when there is no window, or fewer than
   `maximumAttempts` were started in the interval of its length that ends now.
   */
  lemma StartsExactly(c: Core, check: real, record: real)
    ensures (forall t :: t in c.timestamps ==> t <= check) ==>
              (StartRefresh(c, check, record).isRefreshing <==>
                c.window.None? || Started(c.timestamps, check - c.window.value.interval, check)
                                  < c.window.value.maximumAttempts)
  {
    if c.window.Some? && forall t :: t in c.timestamps ==> t <= check {
      RecentAreStarted(c.timestamps, check - c.window.value.interval, check);
    }
  }

  lemma StartBounded(c: Core, clock: real, check: real, record: real)
    requires c.window.Some? && Sorted(c.timestamps, clock) && RateBounded(c.timestamps, c.window.value)
    requires clock <= check <= record
    ensures var d := StartRefresh(c, check, record);
            d.window == c.window && Sorted(d.timestamps, record) && RateBounded(d.timestamps, c.window.value)
  {
    hide RateBounded;
    StartRate(c, check, record);
  }

  ghost predicate RateInvariant(s: System) {
    Sorted(s.core.timestamps, s.clock)
    && (s.core.window.Some? ==> RateBounded(s.core.timestamps, s.core.window.value))
  }

  lemma EnterRate(s: System, id: Id, check: real, record: real)
    requires RateInvariant(s) && s.core.window.Some? && s.clock <= check <= record
    ensures RateInvariant(EnterAdapt(s, id, check, record))
    ensures EnterAdapt(s, id, check, record).core.window == s.core.window
  {
    hide StartRefresh, RateBounded;
    StartBounded(s.core.(adaptOperations := s.core.adaptOperations + [id]), s.clock, check, record);
  }

  lemma StepRate(s: System, e: Event)
    requires RateInvariant(s) && s.core.window.Some? && Step(s, e).Some?
    ensures RateInvariant(Step(s, e).value) && Step(s, e).value.core.window == s.core.window
  {
    hide StartRefresh, RateBounded, EnterAdapt;
    match e
    case AdaptCall(check, record) => EnterRate(s.(calls := s.calls + [Adapting]), |s.calls|, check, record);
    case RetryEnter(k, check, record) =>
      StartBounded(s.core.(requestsToRetry := s.core.requestsToRetry + [s.held[k].id]), s.clock, check, record);
    case RunJob(check, record) =>
      var job, later := s.core.jobs[0], s.core.jobs[1..];
      if job.Resume? && job.adapts != [] {
        var left := [Resume(job.adapts[1..], job.retries)] + later;
        EnterRate(s.(core := s.core.(jobs := left)), job.adapts[0], check, record);
      }
    case _ =>
  }

  // ---------------------------------------------------------------- the right answer to the right call

  /**
   An adapt call hears a credential that needs no refresh or an error. A retry call hears the verdict of the
   first guard that stops it, and one that passes them all is told to go again, or why it cannot.
   */
  predicate AnswerFits(calls: seq<Kind>, id: Id, a: Answer) {
    && id < |calls|
    && match calls[id]
       case Adapting => a.Missing? || a.Excessive? || a.Failed? || (a.Authenticated? && !a.c.requiresRefresh)
       case Retrying(eligible, present, matches) =>
         if !eligible then a.DoNotRetry?
         else if !present then a.Missing?
         else if !matches then a.Retry?
         else a.Retry? || a.Excessive? || a.Failed?
  }

  ghost predicate AllOf(calls: seq<Kind>, ids: seq<Id>, kind: Kind) {
    forall i :: 0 <= i < |ids| ==> ids[i] < |calls| && calls[ids[i]] == kind
  }

  ghost predicate JobFits(calls: seq<Kind>, job: Job) {
    && AllOf(calls, job.adapts, Adapting) && AllOf(calls, job.retries, GUARDED)
    && (job.Reject? ==> job.answer.Excessive? || job.answer.Failed?)
  }

  ghost predicate CoreFits(calls: seq<Kind>, c: Core) {
    && AllOf(calls, c.adaptOperations, Adapting) && AllOf(calls, c.requestsToRetry, GUARDED)
    && forall i :: 0 <= i < |c.jobs| ==> JobFits(calls, c.jobs[i])
  }

  predicate HoldingFits(calls: seq<Kind>, h: Holding) {
    match h
    case Answering(id, a) => AnswerFits(calls, id, a)
    case Queueing(id) => id < |calls| && calls[id] == GUARDED
  }

  ghost predicate HeldFit(calls: seq<Kind>, held: seq<Holding>) {
    forall i :: 0 <= i < |held| ==> HoldingFits(calls, held[i])
  }

  ghost predicate DoneFit(calls: seq<Kind>, done: seq<(Id, Answer)>) {
    forall i :: 0 <= i < |done| ==> AnswerFits(calls, done[i].0, done[i].1)
  }

  ghost predicate Answers(s: System) {
    CoreFits(s.calls, s.core) && HeldFit(s.calls, s.held) && DoneFit(s.calls, s.done)
  }

  lemma OneMoreCall(s: System, kind: Kind)
    requires Answers(s)
    ensures Answers(s.(calls := s.calls + [kind]))
  {
    var calls := s.calls + [kind];
    forall i | 0 <= i < |s.core.jobs|
      ensures JobFits(calls, s.core.jobs[i])
    {
      assert JobFits(s.calls, s.core.jobs[i]);
    }
    forall i | 0 <= i < |s.held|
      ensures HoldingFits(calls, s.held[i])
    {
      assert HoldingFits(s.calls, s.held[i]);
    }
    forall i | 0 <= i < |s.done|
      ensures AnswerFits(calls, s.done[i].0, s.done[i].1)
    {
      assert AnswerFits(s.calls, s.done[i].0, s.done[i].1);
    }
  }

  lemma StartFits(calls: seq<Kind>, c: Core, check: real, record: real)
    requires CoreFits(calls, c)
    ensures CoreFits(calls, StartRefresh(c, check, record))
  {
    hide IsExcessive;
    assert AllOf(calls, [], Adapting) && AllOf(calls, [], GUARDED);
    hide AllOf;
  }

  lemma EnterFits(s: System, id: Id, check: real, record: real)
    requires Answers(s) && id < |s.calls| && s.calls[id] == Adapting
    ensures Answers(EnterAdapt(s, id, check, record))
  {
    hide StartRefresh;
    StartFits(s.calls, s.core.(adaptOperations := s.core.adaptOperations + [id]), check, record);
  }

  lemma RunFits(s: System, check: real, record: real)
    requires Answers(s) && s.core.jobs != []
    ensures Answers(RunNext(s, check, record))
  {
    hide EnterAdapt;
    var job, later := s.core.jobs[0], s.core.jobs[1..];
    assert JobFits(s.calls, job);
    if job.Resume? && job.adapts != [] {
      var left := [Left(job, job.adapts[1..], job.retries)] + later;
      EnterFits(s.(core := s.core.(jobs := left)), job.adapts[0], check, record);
    }
  }

  lemma CallbackFits(calls: seq<Kind>, c: Core, result: Option<Credential>)
    requires CoreFits(calls, c)
    ensures CoreFits(calls, Callback(c, result))
  {
    assert AllOf(calls, [], Adapting) && AllOf(calls, [], GUARDED);
    hide AllOf;
  }

  lemma StepAnswers(s: System, e: Event)
    requires Answers(s) && Step(s, e).Some?
    ensures Answers(Step(s, e).value)
  {
    hide EnterAdapt, RunNext, Callback, StartRefresh;
    match e
    case AdaptCall(check, record) =>
      OneMoreCall(s, Adapting);
      EnterFits(s.(calls := s.calls + [Adapting]), |s.calls|, check, record);
    case RetryCall(eligible, matches) => OneMoreCall(s, Retrying(eligible, s.core.credential.Some?, matches));
    case RetryEnter(k, check, record) =>
      assert HoldingFits(s.calls, s.held[k]);
      StartFits(s.calls, s.core.(requestsToRetry := s.core.requestsToRetry + [s.held[k].id]), check, record);
    case Deliver(k) => assert HoldingFits(s.calls, s.held[k]);
    case Authenticator(result) => CallbackFits(s.calls, s.core, result);
    case RunJob(check, record) => RunFits(s, check, record);
    case SetCredential(_) =>
  }

  // ---------------------------------------------------------------- whole runs

  /** Each completion handed to the interceptor so far, and no other, is in exactly one place. */
  ghost predicate EachOnce(s: System) {
    forall id: Id :: Places(s, id) == if id < |s.calls| then 1 else 0
  }

  lemma {:induction false} RunKeepsOnce(s: System, events: seq<Event>)
    requires EachOnce(s) && OneRefresh(s.core)
    ensures Run(s, events).Some? ==> EachOnce(Run(s, events).value) && OneRefresh(Run(s, events).value.core)
    decreases |events|
  {
    hide Step, Places, OneRefresh;
    if events != [] && Step(s, events[0]).Some? {
      forall id: Id
        ensures Places(Step(s, events[0]).value, id) == if id < |Step(s, events[0]).value.calls| then 1 else 0
      {
        StepKeeps(s, events[0], id);
      }
      StepOneRefresh(s, events[0]);
      RunKeepsOnce(Step(s, events[0]).value, events[1..]);
    }
  }

  /**
   Refresh protocol conservation, in every reachable state: each adapt or retry completion is in exactly
   one place; a non-empty queue implies a refresh in flight; and at most one authenticator call is unanswered.
   */
  lemma RefreshConservation(c: Option<Credential>, window: Option<Window>, events: seq<Event>)
    ensures var r := Run(Initial(c, window), events);
            r.Some? ==> EachOnce(r.value) && OneRefresh(r.value.core) && r.value.core.outstanding <= 1
  {
    RunKeepsOnce(Initial(c, window), events);
  }

  /** So once the authenticator has answered and every job and call has finished, every completion was called once. */
  lemma QuiescentMeansAnswered(c: Option<Credential>, window: Option<Window>, events: seq<Event>)
    requires Run(Initial(c, window), events).Some?
    requires var s := Run(Initial(c, window), events).value;
             s.core.outstanding == 0 && s.core.jobs == [] && s.held == []
    ensures var s := Run(Initial(c, window), events).value;
            forall id: Id :: InDone(s.done, id) == if id < |s.calls| then 1 else 0
  {
    hide Run;
    RefreshConservation(c, window, events);
    var s := Run(Initial(c, window), events).value;
    assert forall id :: Places(s, id) == InDone(s.done, id);
  }

  lemma {:induction false} RunRate(s: System, events: seq<Event>)
    requires RateInvariant(s) && s.core.window.Some?
    ensures Run(s, events).Some? ==>
              RateInvariant(Run(s, events).value) && Run(s, events).value.core.window == s.core.window
    decreases |events|
  {
    hide Step, RateInvariant;
    if events != [] && Step(s, events[0]).Some? {
      StepRate(s, events[0]);
      RunRate(Step(s, events[0]).value, events[1..]);
    }
  }

  /**
   Refresh rate over whole runs: with a window set, every closed interval of its length, or shorter, contains at most
   `maximumAttempts` started refreshes, none when that is not positive, although the check and the
   recorded timestamp read the clock separately.
   */
  lemma RefreshRateBound(c: Option<Credential>, w: Window, events: seq<Event>, a: real, b: real)
    requires Run(Initial(c, Some(w)), events).Some?
    requires b - a <= w.interval
    ensures Started(Run(Initial(c, Some(w)), events).value.core.timestamps, a, b) <= Limit(w)
  {
    hide Run;
    RunRate(Initial(c, Some(w)), events);
  }

  /** The event brings a caller who needs a refresh while none is in flight. */
  predicate Asks(s: System, e: Event) {
    && !s.core.isRefreshing
    && match e
       case AdaptCall(_, _) => s.core.credential.Some? && s.core.credential.value.requiresRefresh
       case RetryEnter(_, _, _) => true
       case RunJob(_, _) =>
         s.core.jobs != [] && s.core.jobs[0].Resume? && s.core.jobs[0].adapts != []
         && s.core.credential.Some? && s.core.credential.value.requiresRefresh
       case _ => false
  }

  /** The time the event reads for its check. */
  function CheckOf(s: System, e: Event): real {
    match e
    case AdaptCall(check, _) => check
    case RetryEnter(_, check, _) => check
    case RunJob(check, _) => check
    case _ => s.clock
  }

  lemma StepStarts(s: System, e: Event)
    requires Sorted(s.core.timestamps, s.clock) && OneRefresh(s.core) && Step(s, e).Some?
    ensures var t, w := Step(s, e).value, s.core.window;
            t.core.timestamps != s.core.timestamps
            <==> Asks(s, e) && (w.None? || Started(s.core.timestamps, CheckOf(s, e) - w.value.interval, CheckOf(s, e))
                                           < w.value.maximumAttempts)
  {
    hide IsExcessive, Started, Recent;
    var c := s.core;
    match e
    case AdaptCall(check, record) =>
      StartsExactly(c.(adaptOperations := c.adaptOperations + [|s.calls|]), check, record);
    case RetryEnter(k, check, record) =>
      StartsExactly(c.(requestsToRetry := c.requestsToRetry + [s.held[k].id]), check, record);
    case RunJob(check, record) =>
      var job, later := c.jobs[0], c.jobs[1..];
      if job.adapts != [] && job.Resume? {
        var left := [Left(job, job.adapts[1..], job.retries)] + later;
        StartsExactly(c.(jobs := left, adaptOperations := c.adaptOperations + [job.adapts[0]]), check, record);
      }
    case _ =>
  }

  lemma StepSorted(s: System, e: Event)
    requires Sorted(s.core.timestamps, s.clock) && Step(s, e).Some?
    ensures Sorted(Step(s, e).value.core.timestamps, Step(s, e).value.clock)
  {
    hide IsExcessive;
  }

  lemma {:induction false} RunSorted(s: System, events: seq<Event>)
    requires Sorted(s.core.timestamps, s.clock)
    ensures Run(s, events).Some? ==> Sorted(Run(s, events).value.core.timestamps, Run(s, events).value.clock)
    decreases |events|
  {
    hide Step, Sorted;
    if events != [] && Step(s, events[0]).Some? {
      StepSorted(s, events[0]);
      RunSorted(Step(s, events[0]).value, events[1..]);
    }
  }

  /**
   The other half of the rate bound: in every reachable state a step starts a refresh, and records its time,
   if and only if it brings a caller who needs one while none is in flight and the window has room for it.
   */
  lemma RefreshStartsExactly(c: Option<Credential>, window: Option<Window>, events: seq<Event>, e: Event)
    requires Run(Initial(c, window), events).Some?
    requires Step(Run(Initial(c, window), events).value, e).Some?
    ensures var s := Run(Initial(c, window), events).value;
            var t, w := Step(s, e).value, s.core.window;
            t.core.timestamps != s.core.timestamps
            <==> Asks(s, e) && (w.None? || Started(s.core.timestamps, CheckOf(s, e) - w.value.interval, CheckOf(s, e))
                                           < w.value.maximumAttempts)
  {
    hide Run, Step;
    RunSorted(Initial(c, window), events);
    RefreshConservation(c, window, events);
    StepStarts(Run(Initial(c, window), events).value, e);
  }

  lemma {:induction false} RunAnswers(s: System, events: seq<Event>)
    requires Answers(s)
    ensures Run(s, events).Some? ==> Answers(Run(s, events).value)
    decreases |events|
  {
    hide Step, Answers;
    if events != [] && Step(s, events[0]).Some? {
      StepAnswers(s, events[0]);
      RunAnswers(Step(s, events[0]).value, events[1..]);
    }
  }

  /**
   Whatever the interleaving, a completion is only called with an answer its call can take: no adapt call
   is ever let through with a credential that asked for a refresh, and a retry call is turned down, sent
   back for want of a credential, or repeated without a refresh exactly as its guards found.
   */
  lemma AnswersFitTheirCalls(c: Option<Credential>, window: Option<Window>, events: seq<Event>, i: nat)
    requires Run(Initial(c, window), events).Some?
    requires i < |Run(Initial(c, window), events).value.done|
    ensures var s := Run(Initial(c, window), events).value; AnswerFits(s.calls, s.done[i].0, s.done[i].1)
  {
    hide Run;
    RunAnswers(Initial(c, window), events);
  }

  // ---------------------------------------------------------------- what a refresh gives its waiting callers

  function Holdings(ids: seq<Id>, answer: Answer): seq<Holding> {
    seq(|ids|, i requires 0 <= i < |ids| => Answering(ids[i], answer))
  }

  function Answered(ids: seq<Id>, answer: Answer): seq<(Id, Answer)> {
    seq(|ids|, i requires 0 <= i < |ids| => (ids[i], answer))
  }

  lemma AnsweredHead(ids: seq<Id>, answer: Answer)
    requires ids != []
    ensures Answered(ids, answer) == [(ids[0], answer)] + Answered(ids[1..], answer)
  {
  }

  /** The queue's only job runs to its end with nothing in between. */
  function Drain(s: System, now: real): System
    requires |s.core.jobs| == 1
    decreases |s.core.jobs[0].adapts| + |s.core.jobs[0].retries|
  {
    var job, t := s.core.jobs[0], RunNext(s, now, now);
    if job.adapts == [] && job.retries == [] then t
    else if |t.core.jobs| == 1 && |t.core.jobs[0].adapts| + |t.core.jobs[0].retries| < |job.adapts| + |job.retries|
    then Drain(t, now)
    else t
  }

  lemma {:induction false} DrainResumes(s: System, c: Credential, now: real)
    requires |s.core.jobs| == 1 && s.core.jobs[0].Resume? && !s.core.isRefreshing
    requires s.core.credential == Some(c) && !c.requiresRefresh
    ensures var job, t := s.core.jobs[0], Drain(s, now);
            && t.core == s.core.(jobs := [])
            && t.held == s.held + Holdings(job.adapts, Authenticated(c))
            && t.done == s.done + Answered(job.retries, Retry)
    decreases |s.core.jobs[0].adapts| + |s.core.jobs[0].retries|
  {
    var job, t := s.core.jobs[0], RunNext(s, now, now);
    if job.adapts != [] {
      DrainResumes(t, c, now);
      assert Holdings(job.adapts, Authenticated(c))
          == [Answering(job.adapts[0], Authenticated(c))] + Holdings(job.adapts[1..], Authenticated(c));
    } else if job.retries != [] {
      DrainResumes(t, c, now);
      AnsweredHead(job.retries, Retry);
    }
  }

  lemma {:induction false} DrainRejects(s: System, now: real)
    requires |s.core.jobs| == 1 && s.core.jobs[0].Reject?
    ensures var job, t := s.core.jobs[0], Drain(s, now);
            && t.core == s.core.(jobs := []) && t.held == s.held
            && t.done == s.done + (Answered(job.adapts, job.answer) + Answered(job.retries, job.answer))
    decreases |s.core.jobs[0].adapts| + |s.core.jobs[0].retries|
  {
    hide EnterAdapt;
    var job, t := s.core.jobs[0], RunNext(s, now, now);
    if job.adapts != [] {
      DrainRejects(t, now);
      AnsweredHead(job.adapts, job.answer);
    } else if job.retries != [] {
      DrainRejects(t, now);
      AnsweredHead(job.retries, job.answer);
    }
  }

  /**
   When the authenticator answers and its job then runs undisturbed, a usable new credential reaches every
   waiting adapt in order and every waiting retry is told to go again; a failure reaches them all.
   */
  lemma RefreshReachesEveryCaller(s: System, result: Option<Credential>, now: real)
    requires s.core.outstanding > 0 && s.core.jobs == [] && (result.Some? ==> !result.value.requiresRefresh)
    ensures var t := Step(s, Authenticator(result)).value; |t.core.jobs| == 1
    ensures var u := Drain(Step(s, Authenticator(result)).value, now);
            && u.core.jobs == [] && u.core.adaptOperations == [] && u.core.requestsToRetry == []
            && !u.core.isRefreshing
            && if result.Some?
               then u.core.credential == result
                    && u.held == s.held + Holdings(s.core.adaptOperations, Authenticated(result.value))
                    && u.done == s.done + Answered(s.core.requestsToRetry, Retry)
               else u.core.credential == s.core.credential && u.held == s.held
                    && u.done == s.done
                       + (Answered(s.core.adaptOperations, Failed) + Answered(s.core.requestsToRetry, Failed))
  {
    hide Drain;
    var t := Step(s, Authenticator(result)).value;
    if result.Some? {
      DrainResumes(t, result.value, now);
    } else {
      DrainRejects(t, now);
    }
  }
}
