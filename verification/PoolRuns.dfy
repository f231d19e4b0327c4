/** Hand-offs and detachment, and the theorem over every run of the pool. */
module PoolRuns {
  import opened Basics
  import opened PoolSteps
  import opened PoolLists
  import opened PoolTasks

  /** The worker a request was told of is the one that popped its task. */
  ghost predicate ToldOfPopper(s: Pool) {
    forall t | t in s.waits && s.waits[t].Waiting? && s.waits[t].worker.Some? :: (t, s.waits[t].worker.value) in s.log.taken
  }

  /** Each request gets at most one hand-off, made by the popper of its task as the task starts. */
  ghost predicate HandedOnce(s: Pool) {
    && (forall i, j :: 0 <= i < j < |s.log.handed| ==> s.log.handed[i].0 != s.log.handed[j].0)
    && (forall x | x in s.log.handed :: x in s.log.taken && x.0 in s.log.started)
  }

  /** A detached worker pops at most one more task. */
  ghost predicate LastPop(s: Pool, w: Id)
    requires w in s.log.extra
  {
    && w <= s.manager.lastId && s.log.extra[w] <= 1
    && (w in s.manager.workers ==> s.manager.workers[w].mode == Detached)
    && (s.log.extra[w] == 1 && w in s.stages ==> !s.stages[w].Popping?)
  }

  ghost predicate LastPops(s: Pool) {
    forall w | w in s.log.extra :: LastPop(s, w)
  }

  /** A worker offers itself only for a task that came with a worker channel. */
  ghost predicate OffersAwaited(s: Pool) {
    forall w | w in s.stages && s.stages[w].Offering? :: s.stages[w].task in s.waits
  }

  ghost predicate HandOffsOk(s: Pool) {
    ToldOfPopper(s) && HandedOnce(s) && LastPops(s) && OffersAwaited(s)
  }

  ghost predicate Invariant(s: Pool) {
    PoolOk(s) && TasksOk(s) && HandOffsOk(s) && |s.queue| <= s.capacity
  }

  lemma TakenGrows(s: Pool, step: Step)
    requires Enabled(s, step)
    ensures s.log.taken <= Apply(s, step).log.taken && s.log.started <= Apply(s, step).log.started
    ensures forall x | x in s.log.taken :: x in Apply(s, step).log.taken
    ensures forall x | x in s.log.started :: x in Apply(s, step).log.started
  {
  }

  lemma StepTold(s: Pool, step: Step)
    requires TasksOk(s) && ToldOfPopper(s) && Enabled(s, step)
    ensures ToldOfPopper(Apply(s, step))
  {
  }

  lemma StepHanded(s: Pool, step: Step)
    requires TasksOk(s) && HandedOnce(s) && Enabled(s, step)
    ensures HandedOnce(Apply(s, step))
  {
    TakenGrows(s, step);
    var s' := Apply(s, step);
    if step.HandOff? {
      var t := s.stages[step.worker].task;
      assert HoldsOwn(s, step.worker);
      assert s'.log.started[|s.log.started|] == t;
      forall i | 0 <= i < |s.log.handed| ensures s.log.handed[i].0 != t { assert s.log.handed[i] in s.log.handed; }
    } else {
      assert s'.log.handed == s.log.handed;
    }
  }

  lemma StepOffers(s: Pool, step: Step)
    requires OffersAwaited(s) && Enabled(s, step)
    ensures OffersAwaited(Apply(s, step))
  {
  }

  predicate MovesWorkers(step: Step) {
    step.Timeout? || step.Schedule?
  }

  lemma OtherLastPop(s: Pool, step: Step, w: Id)
    requires Enabled(s, step) && !MovesWorkers(step) && w in s.log.extra && LastPop(s, w)
    ensures Apply(s, step).log.extra.Keys == s.log.extra.Keys && LastPop(Apply(s, step), w)
  {
  }

  lemma TimeoutLastPops(s: Pool, t: Task, worker: Option<Id>)
    requires PoolOk(s) && LastPops(s)
    ensures LastPops(TimedOut(s, t, worker))
  {
    if worker.Some? && Registered(s.manager, worker.value) {
      MovedLastPops(s, t, worker.value);
      ScheduleLastPops(Moved(s, t, worker.value));
    }
  }

  lemma MovedLastPops(s: Pool, t: Task, w: Id)
    requires AllListed(s.manager) && LastPops(s) && Registered(s.manager, w)
    ensures LastPops(Moved(s, t, w))
  {
    assert Listed(s.manager, w);
    forall v | v in Moved(s, t, w).log.extra ensures LastPop(Moved(s, t, w), v) {
      assert v in s.log.extra ==> LastPop(s, v);
    }
  }

  lemma ScheduleLastPops(s: Pool)
    requires LastPops(s)
    ensures LastPops(Schedules(s))
  {
  }

  lemma OtherLastPops(s: Pool, step: Step)
    requires LastPops(s) && Enabled(s, step) && !MovesWorkers(step)
    ensures LastPops(Apply(s, step))
  {
    assert Apply(s, step).log.extra.Keys == s.log.extra.Keys;
    forall w | w in s.log.extra ensures LastPop(Apply(s, step), w) { OtherLastPop(s, step, w); }
  }

  lemma StepLastPop(s: Pool, step: Step)
    requires PoolOk(s) && LastPops(s) && Enabled(s, step)
    ensures LastPops(Apply(s, step))
  {
    match step
    case Timeout(t) => TimeoutLastPops(s, t, s.waits[t].worker);
    case Schedule => ScheduleLastPops(s.(unscheduled := s.unscheduled - 1));
    case _ => OtherLastPops(s, step);
  }

  lemma StepKeeps(s: Pool, step: Step)
    requires Invariant(s) && Enabled(s, step)
    ensures Invariant(Apply(s, step))
  {
    StepLists(s, step);
    NewIdIsFree(s.manager);
    StepTasks(s, step);
    StepTold(s, step);
    StepHanded(s, step);
    StepOffers(s, step);
    StepLastPop(s, step);
    SizesKept(s, step);
  }

  lemma {:induction false} RunKeeps(s: Pool, steps: seq<Step>)
    requires Invariant(s) && Legal(s, steps)
    ensures Invariant(Run(s, steps))
    ensures Run(s, steps).manager.limit == s.manager.limit && Run(s, steps).capacity == s.capacity
    decreases |steps|
  {
    if steps != [] {
      StepKeeps(s, steps[0]);
      SizesKept(s, steps[0]);
      RunKeeps(Apply(s, steps[0]), steps[1..]);
    }
  }

  lemma SizesKept(s: Pool, step: Step)
    requires Enabled(s, step) && |s.queue| <= s.capacity
    ensures Apply(s, step).manager.limit == s.manager.limit && Apply(s, step).capacity == s.capacity
    ensures |Apply(s, step).queue| <= s.capacity
  {
  }

  /** Where a goroutine is alive its worker is registered, so no step of the loop of SWorker.run is ever held up by that. */
  lemma LiveIsRegistered(s: Pool, w: Id)
    requires PoolOk(s) && w in s.stages
    ensures InStage(s, w) && s.manager.workers[w].container.Some?
    ensures s.stages[w].Checking? ==> Enabled(s, Check(w))
    ensures s.stages[w].Popping? ==> Enabled(s, Pop(w))
    ensures s.stages[w].Running? ==> Enabled(s, Finish(w))
    ensures s.stages[w].Leaving? ==> Enabled(s, Remove(w))
  {
    assert Listed(s.manager, w);
  }

  /** The step the loop of SWorker.run takes next. */
  function NextStep(s: Pool, w: Id): Step
    requires w in s.stages
  {
    match s.stages[w]
    case Checking => Check(w)
    case Popping => Pop(w)
    case Offering(_) => HandOff(w)
    case Running(_) => Finish(w)
    case Leaving => Remove(w)
  }

  /** The worker offers itself to a request that has gone. */
  predicate Stuck(s: Pool, w: Id) {
    w in s.stages && s.stages[w].Offering? && s.stages[w].task in s.waits && s.waits[s.stages[w].task].Returned?
  }

  /** A live worker can take its next step iff it is not stuck. */
  lemma NextStepIffNotStuck(s: Pool, w: Id)
    requires Invariant(s) && w in s.stages
    ensures Enabled(s, NextStep(s, w)) <==> !Stuck(s, w)
  {
    LiveIsRegistered(s, w);
  }

  lemma StuckStep(s: Pool, step: Step, w: Id)
    requires s.manager.lastId + 1 !in s.stages && Enabled(s, step) && Stuck(s, w)
    ensures Stuck(Apply(s, step), w) && Apply(s, step).stages[w] == s.stages[w]
  {
  }

  /** A stuck worker stays where it is, whatever happens. */
  lemma {:induction false} StuckForever(s: Pool, steps: seq<Step>, w: Id)
    requires Invariant(s) && Legal(s, steps) && Stuck(s, w)
    ensures Stuck(Run(s, steps), w) && Run(s, steps).stages[w] == s.stages[w]
    decreases |steps|
  {
    if steps != [] {
      NewIdIsFree(s.manager);
      StuckStep(s, steps[0], w);
      StepKeeps(s, steps[0]);
      StuckForever(Apply(s, steps[0]), steps[1..], w);
    }
  }

  /** Every interleaving of every number of steps, from a new pool. */
  lemma EveryRun(workerCount: nat, backlog: nat, steps: seq<Step>)
    requires Legal(Init(workerCount, backlog), steps)
    ensures Invariant(Run(Init(workerCount, backlog), steps))
    ensures |Run(Init(workerCount, backlog), steps).manager.active| <= workerCount
    ensures |Run(Init(workerCount, backlog), steps).queue| <= workerCount * backlog
  {
    RunKeeps(Init(workerCount, backlog), steps);
  }

  // ---- When the lists are exact ------------------------------------------------------------

  /** The step detaches a worker that is detached already. */
  predicate Redetaches(s: Pool, step: Step) {
    && step.Timeout? && step.task in s.waits && s.waits[step.task].Waiting? && s.waits[step.task].worker.Some?
    && var w := s.waits[step.task].worker.value; Registered(s.manager, w) && s.manager.workers[w].mode == Detached
  }

  predicate NeverRedetaches(s: Pool, steps: seq<Step>)
    requires Legal(s, steps)
    decreases |steps|
  {
    steps == [] || (!Redetaches(s, steps[0]) && NeverRedetaches(Apply(s, steps[0]), steps[1..]))
  }

  lemma StepRepeats(s: Pool, step: Step)
    requires Enabled(s, step)
    ensures Apply(s, step).log.repeats == s.log.repeats + if Redetaches(s, step) then 1 else 0
  {
  }

  lemma {:induction false} RunRepeats(s: Pool, steps: seq<Step>)
    requires Legal(s, steps)
    ensures Run(s, steps).log.repeats >= s.log.repeats
    ensures Run(s, steps).log.repeats == s.log.repeats <==> NeverRedetaches(s, steps)
    decreases |steps|
  {
    if steps != [] {
      StepRepeats(s, steps[0]);
      RunRepeats(Apply(s, steps[0]), steps[1..]);
    }
  }

  /** After every run both lists are exact iff no timeout of the run met a worker detached before. */
  lemma ListsExactIff(workerCount: nat, backlog: nat, steps: seq<Step>)
    requires Legal(Init(workerCount, backlog), steps)
    ensures ListsOk(Run(Init(workerCount, backlog), steps).manager) <==> NeverRedetaches(Init(workerCount, backlog), steps)
  {
    EveryRun(workerCount, backlog, steps);
    ExactIffNoRepeat(Run(Init(workerCount, backlog), steps));
    RunRepeats(Init(workerCount, backlog), steps);
  }

  /** A timeout only ever detaches the worker that popped the task of that request. */
  lemma TimeoutDetachesPopper(workerCount: nat, backlog: nat, steps: seq<Step>, t: Task, w: Id)
    requires Legal(Init(workerCount, backlog), steps)
    requires var s := Run(Init(workerCount, backlog), steps); Enabled(s, Timeout(t)) && s.waits[t].worker == Some(w)
    ensures var s := Run(Init(workerCount, backlog), steps); (t, w) in s.log.taken && forall v | (t, v) in s.log.taken :: v == w
  {
    EveryRun(workerCount, backlog, steps);
    var s := Run(Init(workerCount, backlog), steps);
    forall v | (t, v) in s.log.taken ensures v == w { OnePopper(s, t, v, w); }
  }

  lemma FirstStep(s: Pool, step: Step, rest: seq<Step>)
    requires Enabled(s, step) && Legal(Apply(s, step), rest)
    ensures Legal(s, [step] + rest) && Run(s, [step] + rest) == Run(Apply(s, step), rest)
  {
    assert ([step] + rest)[1..] == rest;
  }

  lemma {:induction false} RunJoin(s: Pool, first: seq<Step>, rest: seq<Step>)
    requires Legal(s, first) && Legal(Run(s, first), rest)
    ensures Legal(s, first + rest) && Run(s, first + rest) == Run(Run(s, first), rest)
    decreases |first|
  {
    if first == [] {
      assert first + rest == rest;
    } else {
      RunJoin(Apply(s, first[0]), first[1..], rest);
      assert (first + rest)[0] == first[0] && (first + rest)[1..] == first[1..] + rest;
    }
  }

  // One worker serves two requests, both of which then time out.

  function OneWorker(queue: seq<Task>, stage: Stage, waits: map<Task, Wait>, log: Log): Pool {
    Pool(Manager(1, [Entry(0, 1)], [], 1, 1, map[1 := Worker(Active, Some(Place(Active, 0)))]), 4, queue,
         map[1 := stage], 1, waits, log)
  }

  const FIRST_POPPED := OneWorker([1], Offering(0), map[0 := Waiting(None), 1 := Waiting(None)],
                                  Log([0, 1], {}, [(0, 1)], [], [], {}, map[], 0))

  const SECOND_POPPED := OneWorker([], Offering(1), map[0 := Waiting(Some(1)), 1 := Waiting(None)],
                                   Log([0, 1], {}, [(0, 1), (1, 1)], [(0, 1)], [0], {0}, map[], 0))

  const STARTED := OneWorker([0, 1], Checking, map[0 := Waiting(None), 1 := Waiting(None)],
                             Log([0, 1], {}, [], [], [], {}, map[], 0))

  lemma BothSubmitted()
    ensures var steps := [Submit(0, true), Submit(1, true), Schedule];
            Legal(Init(1, 4), steps) && Run(Init(1, 4), steps) == STARTED
  {
    var s1 := Apply(Init(1, 4), Submit(0, true));
    var s2 := Apply(s1, Submit(1, true));
    assert Apply(s2, Schedule) == STARTED;
    FirstStep(s2, Schedule, []);
    FirstStep(s1, Submit(1, true), [Schedule]);
    FirstStep(Init(1, 4), Submit(0, true), [Submit(1, true), Schedule]);
  }

  lemma FirstRequest()
    ensures Legal(STARTED, [Check(1), Pop(1)]) && Run(STARTED, [Check(1), Pop(1)]) == FIRST_POPPED
  {
    var s4 := Apply(STARTED, Check(1));
    assert Apply(s4, Pop(1)) == FIRST_POPPED;
    FirstStep(s4, Pop(1), []);
    FirstStep(STARTED, Check(1), [Pop(1)]);
  }

  lemma SecondRequest()
    ensures var steps := [HandOff(1), Finish(1), Check(1), Pop(1)];
            Legal(FIRST_POPPED, steps) && Run(FIRST_POPPED, steps) == SECOND_POPPED
  {
    var s6 := Apply(FIRST_POPPED, HandOff(1));
    var s7 := Apply(s6, Finish(1));
    var s8 := Apply(s7, Check(1));
    assert Apply(s8, Pop(1)) == SECOND_POPPED;
    FirstStep(s8, Pop(1), []);
    FirstStep(s7, Check(1), [Pop(1)]);
    FirstStep(s6, Finish(1), [Check(1), Pop(1)]);
    FirstStep(FIRST_POPPED, HandOff(1), [Finish(1), Check(1), Pop(1)]);
  }

  lemma BothTimeOut()
    ensures var steps := [HandOff(1), Timeout(0), Timeout(1)];
            Legal(SECOND_POPPED, steps) && Run(SECOND_POPPED, steps).log.repeats == 1
  {
    var s10 := Apply(SECOND_POPPED, HandOff(1));
    var s11 := Apply(s10, Timeout(0));
    FirstStep(s11, Timeout(1), []);
    FirstStep(s10, Timeout(0), [Timeout(1)]);
    FirstStep(SECOND_POPPED, HandOff(1), [Timeout(0), Timeout(1)]);
  }

  /** A legal run after which the worker is in the detached list twice. */
  lemma RepeatExample() returns (steps: seq<Step>)
    ensures Legal(Init(1, 4), steps) && Run(Init(1, 4), steps).log.repeats == 1
    ensures !ListsOk(Run(Init(1, 4), steps).manager)
  {
    var start, first := [Submit(0, true), Submit(1, true), Schedule], [Check(1), Pop(1)];
    var second, third := [HandOff(1), Finish(1), Check(1), Pop(1)], [HandOff(1), Timeout(0), Timeout(1)];
    BothSubmitted();
    FirstRequest();
    SecondRequest();
    BothTimeOut();
    RunJoin(FIRST_POPPED, second, third);
    RunJoin(STARTED, first, second + third);
    RunJoin(Init(1, 4), start, first + (second + third));
    steps := start + (first + (second + third));
    EveryRun(1, 4, steps);
    ExactIffNoRepeat(Run(Init(1, 4), steps));
  }

  lemma PopsTimedOut()
    ensures var steps := [Timeout(0), Check(1), Pop(1)]; Legal(STARTED, steps) && Stuck(Run(STARTED, steps), 1)
  {
    var s4 := Apply(STARTED, Timeout(0));
    var s5 := Apply(s4, Check(1));
    FirstStep(s5, Pop(1), []);
    FirstStep(s4, Check(1), [Pop(1)]);
    FirstStep(STARTED, Timeout(0), [Check(1), Pop(1)]);
  }

  /** A request times out while its task is queued: a legal run after which the worker that popped the task is stuck. */
  lemma StuckExample() returns (steps: seq<Step>)
    ensures Legal(Init(1, 4), steps) && Stuck(Run(Init(1, 4), steps), 1)
  {
    var start, rest := [Submit(0, true), Submit(1, true), Schedule], [Timeout(0), Check(1), Pop(1)];
    BothSubmitted();
    PopsTimedOut();
    RunJoin(Init(1, 4), start, rest);
    steps := start + rest;
  }
}
