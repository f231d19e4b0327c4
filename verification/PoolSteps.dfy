/**
 The worker pool of pkg/appsrv/workers.go as a step system.  Each step is one
 critical section of the pool or of its queue, or one rendezvous with a request
 waiting in pkg/appsrv/response.go; any goroutine may take the next step.
 */
module PoolSteps {
  import opened Basics

  type Task = nat
  type Id = nat

  datatype Mode = Active | Detached

  /** A list element: its identity and the list it was pushed on. */
  datatype Place = Place(list: Mode, elem: nat)

  datatype Entry = Entry(elem: nat, worker: Id)

  datatype Worker = Worker(mode: Mode, container: Option<Place>)

  /** What workerLock protects: the two lists and the workers that are in them. */
  datatype Manager = Manager(
    limit: nat,                  // workerCount
    active: seq<Entry>,
    detached: seq<Entry>,
    nextElem: nat,
    lastId: nat,                 // workerId
    workers: map<Id, Worker>     // not yet removed
  )

  /** Where the loop of SWorker.run stands. */
  datatype Stage =
    | Checking               // about to ask isDetached
    | Popping                // about to pop the queue
    | Offering(task: Task)   // sending itself to the request of the task it popped
    | Running(task: Task)
    | Leaving                // left the loop, about to be removed

  /** The wait loop of a request: the worker it was told of, until it returns. */
  datatype Wait = Waiting(worker: Option<Id>) | Returned

  /** What has happened so far. */
  datatype Log = Log(
    accepted: seq<Task>,
    rejected: set<Task>,
    taken: seq<(Task, Id)>,      // pops, in order
    handed: seq<(Task, Id)>,     // hand-offs, in order
    started: seq<Task>,
    finished: set<Task>,
    extra: map<Id, nat>,         // for every worker ever detached: pops since then
    repeats: nat                 // Detach calls on a worker that was detached already
  )

  datatype Pool = Pool(
    manager: Manager,
    capacity: nat,               // of the queue
    queue: seq<Task>,
    stages: map<Id, Stage>,      // live goroutines
    unscheduled: nat,            // Run calls that have pushed and not yet scheduled
    waits: map<Task, Wait>,      // of the tasks submitted with a worker channel
    log: Log
  )

  datatype Step =
    | Submit(task: Task, withChannel: bool)
    | Schedule
    | Check(worker: Id)
    | Pop(worker: Id)
    | HandOff(worker: Id)
    | Finish(worker: Id)
    | Timeout(task: Task)
    | Close(task: Task)
    | Remove(worker: Id)

  /** NewWorkerManager */
  function Init(workerCount: nat, backlog: nat): Pool {
    Pool(Manager(workerCount, [], [], 0, 0, map[]), workerCount * backlog, [], map[], 0, map[],
         Log([], {}, [], [], [], {}, map[], 0))
  }

  // ---- The critical sections ------------------------------------------------

  /** list.Remove, on a list this element belongs to. */
  function RemoveEntry(list: seq<Entry>, elem: nat): seq<Entry> {
    if list == [] then []
    else if list[0].elem == elem then list[1..]
    else [list[0]] + RemoveEntry(list[1..], elem)
  }

  /** The first entry with the element goes, ... */
  lemma {:induction false} RemoveFound(list: seq<Entry>, elem: nat, i: nat)
    requires i < |list| && list[i].elem == elem && forall j | 0 <= j < i :: list[j].elem != elem
    ensures RemoveEntry(list, elem) == list[..i] + list[i + 1..]
    decreases |list|
  {
    if i > 0 {
      RemoveFound(list[1..], elem, i - 1);
      assert [list[0]] + (list[1..][..i - 1] + list[1..][i..]) == list[..i] + list[i + 1..];
    }
  }

  /** ... and nothing if there is none. */
  lemma {:induction false} RemoveAbsent(list: seq<Entry>, elem: nat)
    requires forall j | 0 <= j < |list| :: list[j].elem != elem
    ensures RemoveEntry(list, elem) == list
  {
    if list != [] { RemoveAbsent(list[1..], elem); }
  }

  /** list.Remove: nothing happens to an element of another list. */
  function RemoveFrom(list: seq<Entry>, name: Mode, place: Place): seq<Entry> {
    if place.list == name then RemoveEntry(list, place.elem) else list
  }

  predicate HasRoom(m: Manager, queued: nat) {
    |m.active| < m.limit && queued > 0
  }

  /** scheduleWithLock: one new worker when there is room and work. */
  function ScheduleWithLock(m: Manager, queued: nat): Manager {
    if HasRoom(m, queued) then
      Manager(m.limit, m.active + [Entry(m.nextElem, m.lastId + 1)], m.detached, m.nextElem + 1, m.lastId + 1,
              m.workers[m.lastId + 1 := Worker(Active, Some(Place(Active, m.nextElem)))])
    else m
  }

  /** The worker has not been removed, so it has a container. */
  predicate Registered(m: Manager, w: Id) {
    w in m.workers && m.workers[w].container.Some?
  }

  /** SWorker.Detach, up to its call of scheduleWithLock */
  function MoveToDetached(m: Manager, w: Id): Manager
    requires Registered(m, w)
  {
    Manager(m.limit, RemoveFrom(m.active, Active, m.workers[w].container.value),
            m.detached + [Entry(m.nextElem, w)], m.nextElem + 1, m.lastId,
            m.workers[w := Worker(Detached, Some(Place(Detached, m.nextElem)))])
  }

  /** removeWorker */
  function RemoveWorker(m: Manager, w: Id): Manager
    requires Registered(m, w)
  {
    var place := m.workers[w].container.value;
    if m.workers[w].mode == Active
    then m.(workers := m.workers - {w}, active := RemoveFrom(m.active, Active, place))
    else m.(workers := m.workers - {w}, detached := RemoveFrom(m.detached, Detached, place))
  }

  // ---- Steps ----------------------------------------------------------------

  predicate Fresh(s: Pool, t: Task) {
    t !in s.log.accepted && t !in s.log.rejected && t !in s.waits
  }

  predicate InStage(s: Pool, w: Id) {
    w in s.stages && w in s.manager.workers
  }

  /** A step can be taken. */
  predicate Enabled(s: Pool, step: Step) {
    match step
    case Submit(t, _) => Fresh(s, t)
    case Schedule => s.unscheduled > 0
    case Check(w) => InStage(s, w) && s.stages[w].Checking?
    case Pop(w) => InStage(s, w) && s.stages[w].Popping?
    case HandOff(w) =>
      && InStage(s, w) && s.stages[w].Offering?
      && s.stages[w].task in s.waits && s.waits[s.stages[w].task].Waiting?
    case Finish(w) => InStage(s, w) && s.stages[w].Running?
    case Timeout(t) => t in s.waits && s.waits[t].Waiting?
    case Close(t) => t in s.waits && s.waits[t].Waiting? && t in s.log.started
    case Remove(w) => InStage(s, w) && s.stages[w].Leaving? && Registered(s.manager, w)
  }

  /** scheduleWithLock, with the goroutine it starts. */
  function Schedules(s: Pool): Pool {
    if HasRoom(s.manager, |s.queue|)
    then s.(manager := ScheduleWithLock(s.manager, |s.queue|), stages := s.stages[s.manager.lastId + 1 := Checking])
    else s
  }

  function Submitted(s: Pool, t: Task, withChannel: bool): Pool {
    var waits := if withChannel then s.waits[t := Waiting(None)] else s.waits;
    if |s.queue| < s.capacity
    then s.(waits := waits, queue := s.queue + [t], unscheduled := s.unscheduled + 1,
            log := s.log.(accepted := s.log.accepted + [t]))
    else s.(waits := waits, log := s.log.(rejected := s.log.rejected + {t}))
  }

  function Popped(s: Pool, w: Id): Pool {
    if s.queue == [] then s.(stages := s.stages[w := Leaving])
    else
      var t := s.queue[0];
      var log := s.log.(taken := s.log.taken + [(t, w)],
                        extra := if w in s.log.extra then s.log.extra[w := s.log.extra[w] + 1] else s.log.extra);
      if t in s.waits
      then s.(queue := s.queue[1..], stages := s.stages[w := Offering(t)], log := log)
      else s.(queue := s.queue[1..], stages := s.stages[w := Running(t)], log := log.(started := s.log.started + [t]))
  }

  function HandedOff(s: Pool, w: Id, t: Task): Pool {
    s.(waits := s.waits[t := Waiting(Some(w))],
       stages := s.stages[w := Running(t)],
       log := s.log.(handed := s.log.handed + [(t, w)], started := s.log.started + [t]))
  }

  /**
   The request gives up and detaches the worker it was told of.  That worker may be active, or
   detached already for an earlier request, or gone; then list.Remove panics on its nil container
   before any list has changed.
   */
  function TimedOut(s: Pool, t: Task, worker: Option<Id>): Pool {
    if worker.None? || !Registered(s.manager, worker.value) then s.(waits := s.waits[t := Returned])
    else Schedules(Moved(s, t, worker.value))
  }

  function Moved(s: Pool, t: Task, w: Id): Pool
    requires Registered(s.manager, w)
  {
    s.(waits := s.waits[t := Returned],
       manager := MoveToDetached(s.manager, w),
       log := s.log.(extra := if w in s.log.extra then s.log.extra else s.log.extra[w := 0],
                     repeats := s.log.repeats + if s.manager.workers[w].mode == Detached then 1 else 0))
  }

  function Apply(s: Pool, step: Step): Pool
    requires Enabled(s, step)
  {
    match step
    case Submit(t, withChannel) => Submitted(s, t, withChannel)
    case Schedule => Schedules(s.(unscheduled := s.unscheduled - 1))
    case Check(w) => s.(stages := s.stages[w := if s.manager.workers[w].mode == Detached then Leaving else Popping])
    case Pop(w) => Popped(s, w)
    case HandOff(w) => HandedOff(s, w, s.stages[w].task)
    case Finish(w) =>
      s.(stages := s.stages[w := Checking], log := s.log.(finished := s.log.finished + {s.stages[w].task}))
    case Timeout(t) => TimedOut(s, t, s.waits[t].worker)
    case Close(t) => s.(waits := s.waits[t := Returned])
    case Remove(w) => s.(manager := RemoveWorker(s.manager, w), stages := s.stages - {w})
  }

  /** A run: every step enabled where it is taken. */
  predicate Legal(s: Pool, steps: seq<Step>)
    decreases |steps|
  {
    steps == [] || (Enabled(s, steps[0]) && Legal(Apply(s, steps[0]), steps[1..]))
  }

  function Run(s: Pool, steps: seq<Step>): Pool
    requires Legal(s, steps)
    decreases |steps|
  {
    if steps == [] then s else Run(Apply(s, steps[0]), steps[1..])
  }
}
