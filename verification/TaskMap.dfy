/**
 The two-way map of tasks and requests, and the rendezvous Session builds on it: a task ends with one metrics
 event and one completion event, in either order, and whichever comes second runs the completion.
 */
module TaskMap {
  import opened Counting
  import opened Wire

  type Task = nat
  type Request = nat

  /** A completion closure, by the number of the didCompleteTask call that brought it. */
  type Completion = Id

  datatype Events = Events(completed: bool, metricsGathered: bool)

  /** The three dictionaries. */
  datatype Maps = Maps(
    tasksToRequests: map<Task, Request>, requestsToTasks: map<Request, Task>, taskEvents: map<Task, Events>)

  // ---------------------------------------------------------------- the map's operations; None is a fatalError

  function Remove(m: Maps, task: Task, request: Request): Maps {
    Maps(m.tasksToRequests - {task}, m.requestsToTasks - {request}, m.taskEvents - {task})
  }

  function Associate(m: Maps, task: Task, request: Request): Maps {
    Maps(
      m.tasksToRequests[task := request], m.requestsToTasks[request := task],
      m.taskEvents[task := Events(false, false)])
  }

  /** The setter of the subscript by request. */
  function SetTask(m: Maps, request: Request, task: Option<Task>): Option<Maps> {
    if task.Some? then Some(Associate(m, task.value, request))
    else if request in m.requestsToTasks then Some(Remove(m, m.requestsToTasks[request], request))
    else None
  }

  /** The setter of the subscript by task. */
  function SetRequest(m: Maps, task: Task, request: Option<Request>): Option<Maps> {
    if request.Some? then Some(Associate(m, task, request.value))
    else if task in m.tasksToRequests then Some(Remove(m, task, m.tasksToRequests[task]))
    else None
  }

  /** The disassociation after gathering metrics: the new map, and whether the task was let go. */
  function AfterMetrics(m: Maps, task: Task): Option<(Maps, bool)> {
    if task !in m.taskEvents || m.taskEvents[task].metricsGathered then None
    else if !m.taskEvents[task].completed then
      Some((m.(taskEvents := m.taskEvents[task := Events(false, true)]), false))
    else if task in m.tasksToRequests then Some((Remove(m, task, m.tasksToRequests[task]), true))
    else None
  }

  /** The disassociation after completing a task. */
  function AfterCompletion(m: Maps, task: Task): Option<(Maps, bool)> {
    if task !in m.taskEvents || m.taskEvents[task].completed then None
    else if !m.taskEvents[task].metricsGathered then
      Some((m.(taskEvents := m.taskEvents[task := Events(true, false)]), false))
    else if task in m.tasksToRequests then Some((Remove(m, task, m.tasksToRequests[task]), true))
    else None
  }

  // ---------------------------------------------------------------- the two maps are one

  ghost predicate Inverse(m: Maps) {
    && (forall t :: t in m.tasksToRequests ==>
                      m.tasksToRequests[t] in m.requestsToTasks && m.requestsToTasks[m.tasksToRequests[t]] == t)
    && (forall r :: r in m.requestsToTasks ==>
                      m.requestsToTasks[r] in m.tasksToRequests && m.tasksToRequests[m.requestsToTasks[r]] == r)
    && m.taskEvents.Keys == m.tasksToRequests.Keys
  }

  /** Neither side is in use, or the two belong together already. */
  predicate Free(m: Maps, task: Task, request: Request) {
    if request in m.requestsToTasks then m.requestsToTasks[request] == task else task !in m.tasksToRequests
  }

  /** The pair is mapped both ways with no event yet, and every other task and request is as it was. */
  ghost predicate Paired(m: Maps, n: Maps, task: Task, request: Request) {
    && task in n.tasksToRequests && n.tasksToRequests[task] == request
    && request in n.requestsToTasks && n.requestsToTasks[request] == task
    && task in n.taskEvents && n.taskEvents[task] == Events(false, false)
    && OthersSame(m, n, task, request)
  }

  /** Neither is mapped any more, and every other task and request is as it was. */
  ghost predicate Parted(m: Maps, n: Maps, task: Task, request: Request) {
    && task !in n.tasksToRequests && task !in n.taskEvents && request !in n.requestsToTasks
    && OthersSame(m, n, task, request)
  }

  ghost predicate OthersSame(m: Maps, n: Maps, task: Task, request: Request) {
    && m.tasksToRequests - {task} == n.tasksToRequests - {task}
    && m.requestsToTasks - {request} == n.requestsToTasks - {request}
    && m.taskEvents - {task} == n.taskEvents - {task}
  }

  /** Only the events of one task are recorded anew. */
  ghost predicate Noted(m: Maps, n: Maps, task: Task, events: Events) {
    n.tasksToRequests == m.tasksToRequests && n.requestsToTasks == m.requestsToTasks
    && task in m.taskEvents && n.taskEvents == m.taskEvents[task := events]
  }

  /** Methods answer false or None where the source stops with a consistency error; the map is then as it was. */
  class RequestTaskMap {
    var tasksToRequests: map<Task, Request>
    var requestsToTasks: map<Request, Task>
    var taskEvents: map<Task, Events>

    ghost function Look(): Maps
      reads this
    {
      Maps(tasksToRequests, requestsToTasks, taskEvents)
    }

    ghost predicate Valid()
      reads this
    {
      Inverse(Look())
    }

    constructor ()
      ensures Valid() && Look() == Maps(map[], map[], map[])
    {
      tasksToRequests, requestsToTasks, taskEvents := map[], map[], map[];
    }

    /**
     Setting a task pairs the two, and keeps the maps inverse exactly when they were free for each other;
     setting none parts a request from its task, and is an error when it has none.
     */
    method SetByRequest(request: Request, newValue: Option<Task>) returns (ok: bool)
      modifies this
      ensures ok == SetTask(old(Look()), request, newValue).Some?
      ensures Look() == if ok then SetTask(old(Look()), request, newValue).value else old(Look())
      ensures newValue.Some? ==> ok && Paired(old(Look()), Look(), newValue.value, request)
      ensures newValue.Some? && old(Valid()) ==> (Valid() <==> Free(old(Look()), newValue.value, request))
      ensures newValue.None? ==> (ok <==> request in old(requestsToTasks))
      ensures newValue.None? && ok ==>
                Parted(old(Look()), Look(), old(requestsToTasks)[request], request) && (old(Valid()) ==> Valid())
    {
      if newValue.None? {
        if request !in requestsToTasks {
          return false;
        }
        var task := requestsToTasks[request];
        requestsToTasks := requestsToTasks - {request};
        tasksToRequests := tasksToRequests - {task};
        taskEvents := taskEvents - {task};
        return true;
      }
      ghost var was := Look();
      requestsToTasks := requestsToTasks[request := newValue.value];
      tasksToRequests := tasksToRequests[newValue.value := request];
      taskEvents := taskEvents[newValue.value := Events(false, false)];
      NowPaired(was, newValue.value, request);
      return true;
    }

    /** The same by task. */
    method SetByTask(task: Task, newValue: Option<Request>) returns (ok: bool)
      modifies this
      ensures ok == SetRequest(old(Look()), task, newValue).Some?
      ensures Look() == if ok then SetRequest(old(Look()), task, newValue).value else old(Look())
      ensures newValue.Some? ==> ok && Paired(old(Look()), Look(), task, newValue.value)
      ensures newValue.Some? && old(Valid()) ==> (Valid() <==> Free(old(Look()), task, newValue.value))
      ensures newValue.None? ==> (ok <==> task in old(tasksToRequests))
      ensures newValue.None? && ok ==>
                Parted(old(Look()), Look(), task, old(tasksToRequests)[task]) && (old(Valid()) ==> Valid())
    {
      if newValue.None? {
        if task !in tasksToRequests {
          return false;
        }
        var request := tasksToRequests[task];
        tasksToRequests := tasksToRequests - {task};
        requestsToTasks := requestsToTasks - {request};
        taskEvents := taskEvents - {task};
        return true;
      }
      ghost var was := Look();
      tasksToRequests := tasksToRequests[task := newValue.value];
      requestsToTasks := requestsToTasks[newValue.value := task];
      taskEvents := taskEvents[task := Events(false, false)];
      NowPaired(was, task, newValue.value);
      return true;
    }

    /**
     An error exactly for a task that is not mapped or whose metrics were gathered before. Otherwise a
     completed task is parted from its request, and for any other the metrics are noted and nothing else.
     */
    method DisassociateIfNecessaryAfterGatheringMetricsForTask(task: Task) returns (r: Option<bool>)
      requires Valid()
      modifies this
      ensures Valid()
      ensures r == match AfterMetrics(old(Look()), task) case None => None case Some(a) => Some(a.1)
      ensures Look() == match AfterMetrics(old(Look()), task) case None => old(Look()) case Some(a) => a.0
      ensures r.None? <==> task !in old(tasksToRequests) || old(taskEvents)[task].metricsGathered
      ensures r == Some(true) ==> old(taskEvents)[task].completed
                                  && Parted(old(Look()), Look(), task, old(tasksToRequests)[task])
      ensures r == Some(false) ==> Noted(old(Look()), Look(), task, Events(false, true))
    {
      assert task in taskEvents.Keys <==> task in tasksToRequests.Keys;
      if task !in taskEvents {
        return None;
      }
      var events := taskEvents[task];
      if events.metricsGathered {
        return None;
      }
      if !events.completed {
        taskEvents := taskEvents[task := Events(false, true)];
        return Some(false);
      }
      var ok := SetByTask(task, None);
      return if ok then Some(true) else None;
    }

    /** The same for its completion: an error when it came before, and parted if the metrics have come. */
    method DisassociateIfNecessaryAfterCompletingTask(task: Task) returns (r: Option<bool>)
      requires Valid()
      modifies this
      ensures Valid()
      ensures r == match AfterCompletion(old(Look()), task) case None => None case Some(a) => Some(a.1)
      ensures Look() == match AfterCompletion(old(Look()), task) case None => old(Look()) case Some(a) => a.0
      ensures r.None? <==> task !in old(tasksToRequests) || old(taskEvents)[task].completed
      ensures r == Some(true) ==> old(taskEvents)[task].metricsGathered
                                  && Parted(old(Look()), Look(), task, old(tasksToRequests)[task])
      ensures r == Some(false) ==> Noted(old(Look()), Look(), task, Events(true, false))
    {
      assert task in taskEvents.Keys <==> task in tasksToRequests.Keys;
      if task !in taskEvents {
        return None;
      }
      var events := taskEvents[task];
      if events.completed {
        return None;
      }
      if !events.metricsGathered {
        taskEvents := taskEvents[task := Events(true, false)];
        return Some(false);
      }
      var ok := SetByTask(task, None);
      return if ok then Some(true) else None;
    }
  }

  lemma NowPaired(m: Maps, task: Task, request: Request)
    ensures Paired(m, Associate(m, task, request), task, request)
    ensures Inverse(m) ==> (Inverse(Associate(m, task, request)) <==> Free(m, task, request))
  {
    if Inverse(m) { AssociationExact(m, task, request); }
  }

  // ---------------------------------------------------------------- the session

  /** What Session keeps: the maps, the completions that wait for metrics, and those run so far, in order. */
  datatype Desk = Desk(maps: Maps, waiting: map<Task, Completion>, ran: seq<Completion>)

  function Metrics(d: Desk, task: Task): Option<Desk> {
    match AfterMetrics(d.maps, task)
    case None => None
    case Some(a) =>
      if a.1 then
        Some(Desk(a.0, d.waiting - {task}, if task in d.waiting then d.ran + [d.waiting[task]] else d.ran))
      else Some(d.(maps := a.0))
  }

  function Completed(d: Desk, task: Task, completion: Completion): Option<Desk> {
    match AfterCompletion(d.maps, task)
    case None => None
    case Some(a) =>
      if a.1 then Some(d.(maps := a.0, ran := d.ran + [completion]))
      else Some(d.(maps := a.0, waiting := d.waiting[task := completion]))
  }

  /** A completion waits exactly for each task that is completed and still mapped. */
  ghost predicate WaitingForMapped(d: Desk) {
    forall t :: t in d.waiting <==> t in d.maps.taskEvents && d.maps.taskEvents[t].completed
  }

  class Session {
    const requestTaskMap: RequestTaskMap
    var waitingCompletions: map<Task, Completion>
    var ran: seq<Completion>

    ghost function Look(): Desk
      reads this, requestTaskMap
    {
      Desk(requestTaskMap.Look(), waitingCompletions, ran)
    }

    ghost predicate Valid()
      reads this, requestTaskMap
    {
      requestTaskMap.Valid() && WaitingForMapped(Look())
    }

    constructor ()
      ensures Valid() && Look() == Desk(Maps(map[], map[], map[]), map[], [])
      ensures fresh(requestTaskMap)
    {
      requestTaskMap := new RequestTaskMap();
      waitingCompletions, ran := map[], [];
    }

    /**
     A request's task is created, from a URL request or from resume data. The two are paired; the session
     stays in order if they were free for each other and no completion waits for the task.
     */
    method DidCreateTask(request: Request, task: Task)
      modifies this, requestTaskMap
      ensures Look() == old(Look()).(maps := Associate(old(Look()).maps, task, request))
      ensures Paired(old(Look()).maps, Look().maps, task, request)
      ensures old(Valid()) ==>
                (Valid() <==> Free(old(Look()).maps, task, request) && task !in old(waitingCompletions))
    {
      var _ := requestTaskMap.SetByRequest(request, Some(task));
    }

    /**
     Metrics for a task that is mapped and had none. If it is completed, the two are parted and the
     completion that waited for it runs and waits no more; otherwise no completion runs.
     */
    method DidGatherMetricsForTask(task: Task) returns (ok: bool)
      requires Valid()
      modifies this, requestTaskMap
      ensures Valid() && ok == Metrics(old(Look()), task).Some?
      ensures Look() == if ok then Metrics(old(Look()), task).value else old(Look())
      ensures ok <==> var m := old(Look()).maps; task in m.tasksToRequests && !m.taskEvents[task].metricsGathered
      ensures ok && old(Look()).maps.taskEvents[task].completed ==>
                && Parted(old(Look()).maps, Look().maps, task, old(Look()).maps.tasksToRequests[task])
                && task in old(waitingCompletions) && ran == old(ran) + [old(waitingCompletions)[task]]
                && waitingCompletions == old(waitingCompletions) - {task}
      ensures ok && !old(Look()).maps.taskEvents[task].completed ==>
                ran == old(ran) && waitingCompletions == old(waitingCompletions)
    {
      var didDisassociate := requestTaskMap.DisassociateIfNecessaryAfterGatheringMetricsForTask(task);
      if didDisassociate == Some(true) {
        if task in waitingCompletions {
          ran := ran + [waitingCompletions[task]];
        }
        waitingCompletions := waitingCompletions - {task};
      }
      return didDisassociate.Some?;
    }

    /**
     The completion of a task that is mapped and had none. If its metrics have come, the two are parted and
     the completion runs at once; otherwise it waits, and nothing runs.
     */
    method DidCompleteTask(task: Task, completion: Completion) returns (ok: bool)
      requires Valid()
      modifies this, requestTaskMap
      ensures Valid() && ok == Completed(old(Look()), task, completion).Some?
      ensures Look() == if ok then Completed(old(Look()), task, completion).value else old(Look())
      ensures ok <==> var m := old(Look()).maps; task in m.tasksToRequests && !m.taskEvents[task].completed
      ensures ok && old(Look()).maps.taskEvents[task].metricsGathered ==>
                && Parted(old(Look()).maps, Look().maps, task, old(Look()).maps.tasksToRequests[task])
                && ran == old(ran) + [completion] && waitingCompletions == old(waitingCompletions)
      ensures ok && !old(Look()).maps.taskEvents[task].metricsGathered ==>
                ran == old(ran) && waitingCompletions == old(waitingCompletions)[task := completion]
    {
      var didDisassociate := requestTaskMap.DisassociateIfNecessaryAfterCompletingTask(task);
      if didDisassociate == Some(true) {
        ran := ran + [completion];
      } else if didDisassociate == Some(false) {
        waitingCompletions := waitingCompletions[task := completion];
      }
      return didDisassociate.Some?;
    }
  }

  // ---------------------------------------------------------------- properties of the maps

  /**
   Exactly when an association keeps the maps inverse: neither side was in use, or the pair was already
   there. Anything else leaves a task or a request behind.
   */
  lemma AssociationExact(m: Maps, task: Task, request: Request)
    requires Inverse(m)
    ensures Inverse(Associate(m, task, request)) <==> Free(m, task, request)
  {
    var n := Associate(m, task, request);
    if request in m.requestsToTasks && m.requestsToTasks[request] != task {
      var left := m.requestsToTasks[request];
      assert n.tasksToRequests[left] == request && n.requestsToTasks[request] != left;
    } else if request !in m.requestsToTasks && task in m.tasksToRequests {
      var left := m.tasksToRequests[task];
      assert left != request && n.requestsToTasks[left] == task && n.tasksToRequests[task] != left;
    }
  }

  /** Both subscripts write the same maps: to associate, always; to clear, for any pair of inverse maps. */
  lemma SubscriptsAgree(m: Maps, task: Task, request: Request)
    ensures SetTask(m, request, Some(task)) == SetRequest(m, task, Some(request))
    ensures Inverse(m) && task in m.tasksToRequests && m.tasksToRequests[task] == request ==>
              SetTask(m, request, None) == SetRequest(m, task, None)
    ensures Inverse(m) && SetTask(m, request, None).Some? ==> Inverse(SetTask(m, request, None).value)
    ensures Inverse(m) && task !in m.tasksToRequests && request !in m.requestsToTasks ==>
              SetTask(Associate(m, task, request), request, None) == Some(m)
  {
    if Inverse(m) && task !in m.tasksToRequests && request !in m.requestsToTasks {
      var n := Remove(Associate(m, task, request), task, request);
      assert n.tasksToRequests == m.tasksToRequests && n.requestsToTasks == m.requestsToTasks;
      assert n.taskEvents == m.taskEvents;
    }
  }

  /** The counting preconditions of the source hold: the three dictionaries have the same number of entries. */
  lemma {:induction false} SameCount(m: Maps)
    requires Inverse(m)
    ensures |m.tasksToRequests| == |m.requestsToTasks| == |m.taskEvents|
    decreases |m.tasksToRequests|
  {
    assert |m.taskEvents.Keys| == |m.taskEvents| && |m.tasksToRequests.Keys| == |m.tasksToRequests|;
    if m.tasksToRequests == map[] {
      assert m.requestsToTasks.Keys == {};
    } else {
      var t :| t in m.tasksToRequests;
      var r := m.tasksToRequests[t];
      var n := Remove(m, t, r);
      SameCount(n);
      assert m.tasksToRequests == n.tasksToRequests[t := r] && m.requestsToTasks == n.requestsToTasks[r := t];
    }
  }

  // ---------------------------------------------------------------- the rendezvous

  /** The session, the tasks it has made, those whose metrics arrived, and whose completion each call brought. */
  datatype System = System(desk: Desk, made: set<Task>, gathered: set<Task>, calls: seq<Task>)

  const INITIAL := System(Desk(Maps(map[], map[], map[]), map[], []), {}, {}, [])

  datatype Event = Make(request: Request, task: Task) | Gather(task: Task) | Finish(task: Task)

  /**
   What the URL loading system promises: a task is new and its request has no live task, and each task
   reports its metrics once and its completion once.
   */
  predicate Enabled(s: System, e: Event) {
    match e
    case Make(request, task) => task !in s.made && request !in s.desk.maps.requestsToTasks
    case Gather(task) => task in s.made && task !in s.gathered
    case Finish(task) => task in s.made && task !in s.calls
  }

  /** None is a fatalError. */
  function Step(s: System, e: Event): Option<System> {
    match e
    case Make(request, task) =>
      Some(s.(desk := s.desk.(maps := Associate(s.desk.maps, task, request)), made := s.made + {task}))
    case Gather(task) =>
      (match Metrics(s.desk, task)
       case None => None
       case Some(d) => Some(s.(desk := d, gathered := s.gathered + {task})))
    case Finish(task) =>
      match Completed(s.desk, task, |s.calls|)
      case None => None
      case Some(d) => Some(s.(desk := d, calls := s.calls + [task]))
  }

  predicate Possible(s: System, events: seq<Event>)
    decreases events
  {
    events == []
    || (Enabled(s, events[0]) && (Step(s, events[0]).Some? ==> Possible(Step(s, events[0]).value, events[1..])))
  }

  function Run(s: System, events: seq<Event>): Option<System>
    decreases events
  {
    if events == [] then Some(s)
    else
      match Step(s, events[0])
      case None => None
      case Some(t) => Run(t, events[1..])
  }

  /** A task is mapped until both its events have come, and its flags say which one has. */
  ghost predicate Mapped(s: System) {
    && Inverse(s.desk.maps)
    && (forall t :: t in s.desk.maps.tasksToRequests <==> t in s.made && !(t in s.gathered && t in s.calls))
    && (forall t :: t in s.desk.maps.taskEvents ==> s.desk.maps.taskEvents[t] == Events(t in s.calls, t in s.gathered))
    && (forall t :: t in s.gathered ==> t in s.made) && (forall t :: t in s.calls ==> t in s.made)
  }

  /** Each task completes once, and its completion waits exactly while the task is completed and still mapped. */
  ghost predicate Waiting(s: System) {
    && (forall i, j :: 0 <= i < j < |s.calls| ==> s.calls[i] != s.calls[j])
    && (forall t :: t in s.desk.waiting <==> t in s.calls && t in s.desk.maps.tasksToRequests)
    && (forall t :: t in s.desk.waiting ==> s.desk.waiting[t] < |s.calls| && s.calls[s.desk.waiting[t]] == t)
  }

  /** A completion has run exactly once if both events of its task have come, and not at all before. */
  ghost predicate RanOnce(s: System) {
    forall c: Completion ::
      Count(s.desk.ran, c) == if c < |s.calls| && s.calls[c] in s.gathered then 1 else 0
  }

  ghost predicate Rendezvous(s: System) { Mapped(s) && Waiting(s) && RanOnce(s) }

  /** Letting a mapped pair go, or marking an event of a mapped task, keeps the maps inverse. */
  lemma InverseKept(m: Maps, task: Task, events: Events)
    requires Inverse(m) && task in m.tasksToRequests
    ensures Inverse(Remove(m, task, m.tasksToRequests[task])) && Inverse(m.(taskEvents := m.taskEvents[task := events]))
  {
  }

  lemma MakeMapped(s: System, request: Request, task: Task)
    requires Mapped(s) && Enabled(s, Make(request, task))
    ensures Mapped(Step(s, Make(request, task)).value)
  {
    AssociationExact(s.desk.maps, task, request);
    hide Inverse;
  }

  lemma GatherMapped(s: System, task: Task)
    requires Mapped(s) && Enabled(s, Gather(task))
    ensures Step(s, Gather(task)).Some? && Mapped(Step(s, Gather(task)).value)
  {
    var m := s.desk.maps;
    assert task in m.taskEvents.Keys && task in m.tasksToRequests;
    InverseKept(m, task, Events(false, true));
    hide Inverse;
  }

  lemma FinishMapped(s: System, task: Task)
    requires Mapped(s) && Enabled(s, Finish(task))
    ensures Step(s, Finish(task)).Some? && Mapped(Step(s, Finish(task)).value)
  {
    var m := s.desk.maps;
    assert task in m.taskEvents.Keys && task in m.tasksToRequests;
    InverseKept(m, task, Events(true, false));
    hide Inverse;
  }

  lemma StepMapped(s: System, e: Event)
    requires Mapped(s) && Enabled(s, e)
    ensures Step(s, e).Some? && Mapped(Step(s, e).value)
  {
    hide Mapped;
    match e
    case Make(request, task) => MakeMapped(s, request, task);
    case Gather(task) => GatherMapped(s, task);
    case Finish(task) => FinishMapped(s, task);
  }

  /** Metrics that come second let the task go and run the completion that waited for them. */
  lemma GatherEffect(s: System, task: Task)
    requires Mapped(s) && Waiting(s) && Enabled(s, Gather(task))
    ensures Metrics(s.desk, task).Some?
    ensures var d, was := Metrics(s.desk, task).value, s.desk;
            if task in s.calls
            then d.maps.tasksToRequests == was.maps.tasksToRequests - {task} && task in was.waiting
                 && d.waiting == was.waiting - {task} && d.ran == was.ran + [was.waiting[task]]
            else d.maps.tasksToRequests == was.maps.tasksToRequests && d.waiting == was.waiting && d.ran == was.ran
  {
    assert task in s.desk.maps.taskEvents.Keys && task in s.desk.maps.tasksToRequests;
  }

  /** A completion that comes second lets the task go and runs at once; one that comes first waits. */
  lemma FinishEffect(s: System, task: Task, c: Completion)
    requires Mapped(s) && Enabled(s, Finish(task))
    ensures Completed(s.desk, task, c).Some? && task in s.desk.maps.tasksToRequests
    ensures var d, was := Completed(s.desk, task, c).value, s.desk;
            if task in s.gathered
            then d.maps.tasksToRequests == was.maps.tasksToRequests - {task}
                 && d.waiting == was.waiting && d.ran == was.ran + [c]
            else d.maps.tasksToRequests == was.maps.tasksToRequests
                 && d.waiting == was.waiting[task := c] && d.ran == was.ran
  {
    assert task in s.desk.maps.taskEvents.Keys && task in s.desk.maps.tasksToRequests;
  }

  lemma GatherWaiting(s: System, task: Task)
    requires Mapped(s) && Waiting(s) && Enabled(s, Gather(task))
    ensures Step(s, Gather(task)).Some? && Waiting(Step(s, Gather(task)).value)
  {
    GatherEffect(s, task);
    hide Metrics, Mapped;
  }

  lemma FinishWaiting(s: System, task: Task)
    requires Mapped(s) && Waiting(s) && Enabled(s, Finish(task))
    ensures Step(s, Finish(task)).Some? && Waiting(Step(s, Finish(task)).value)
  {
    FinishEffect(s, task, |s.calls|);
    hide Completed, Mapped;
  }

  lemma StepWaiting(s: System, e: Event)
    requires Mapped(s) && Waiting(s) && Enabled(s, e)
    ensures Step(s, e).Some? && Waiting(Step(s, e).value)
  {
    match e
    case Make(request, task) =>
    case Gather(task) => GatherWaiting(s, task);
    case Finish(task) => FinishWaiting(s, task);
  }

  lemma StepRan(s: System, e: Event, c: Completion)
    requires Rendezvous(s) && Enabled(s, e)
    ensures Step(s, e).Some?
    ensures var t := Step(s, e).value;
            Count(t.desk.ran, c) == if c < |t.calls| && t.calls[c] in t.gathered then 1 else 0
  {
    assert Count(s.desk.ran, c) == if c < |s.calls| && s.calls[c] in s.gathered then 1 else 0;
    match e
    case Make(request, task) =>
    case Gather(task) =>
      GatherEffect(s, task);
      hide Inverse, Metrics, Mapped, RanOnce;
      if task in s.calls { CountConcat(s.desk.ran, [s.desk.waiting[task]], c); }
    case Finish(task) =>
      FinishEffect(s, task, |s.calls|);
      hide Inverse, Completed, Mapped, Waiting, RanOnce;
      if task in s.gathered { CountConcat(s.desk.ran, [|s.calls|], c); }
  }

  lemma {:induction false} RunKeeps(s: System, events: seq<Event>)
    requires Rendezvous(s) && Possible(s, events)
    ensures Run(s, events).Some? && Rendezvous(Run(s, events).value)
    decreases |events|
  {
    hide Step, Enabled, Mapped, Waiting;
    if events != [] {
      StepMapped(s, events[0]);
      StepWaiting(s, events[0]);
      forall c: Completion
        ensures var t := Step(s, events[0]).value;
                Count(t.desk.ran, c) == if c < |t.calls| && t.calls[c] in t.gathered then 1 else 0
      {
        StepRan(s, events[0], c);
      }
      RunKeeps(Step(s, events[0]).value, events[1..]);
    }
  }

  /**
   For any interleaving of tasks made and of one metrics and one completion event for each, no consistency
   error is reached, the maps stay mutually inverse, and each completion runs exactly once, after both events.
   */
  lemma EveryCompletionRunsOnce(events: seq<Event>)
    requires Possible(INITIAL, events)
    ensures Run(INITIAL, events).Some? && Rendezvous(Run(INITIAL, events).value)
  {
    RunKeeps(INITIAL, events);
  }

  /** When every task has reported both ways, nothing is left in any dictionary and every completion has run. */
  lemma EverythingIsReleased(events: seq<Event>)
    requires Possible(INITIAL, events)
    requires Run(INITIAL, events).Some? ==>
               var s := Run(INITIAL, events).value; forall t :: t in s.made ==> t in s.gathered && t in s.calls
    ensures Run(INITIAL, events).Some?
    ensures var s := Run(INITIAL, events).value;
            && s.desk.maps == Maps(map[], map[], map[]) && s.desk.waiting == map[]
            && forall c: Completion :: Count(s.desk.ran, c) == if c < |s.calls| then 1 else 0
  {
    hide Run, Possible;
    EveryCompletionRunsOnce(events);
    var s := Run(INITIAL, events).value;
    assert s.desk.maps.tasksToRequests.Keys == {};
    forall c: Completion | c < |s.calls|
      ensures s.calls[c] in s.gathered
    {
      assert s.calls[c] in s.calls;
    }
  }

  /** Without that promise it fails: a second task for a request that has one leaves the maps out of step. */
  lemma TwoTasksForOneRequest()
    ensures var m := Associate(Associate(Maps(map[], map[], map[]), 1, 7), 2, 7);
            |m.tasksToRequests| == 2 && |m.requestsToTasks| == 1
  {
    var m := Associate(Associate(Maps(map[], map[], map[]), 1, 7), 2, 7);
    assert m.tasksToRequests == map[1 := 7, 2 := 7] && m.requestsToTasks == map[7 := 2];
    assert m.tasksToRequests.Keys == {1, 2};
  }
}
