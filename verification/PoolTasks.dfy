/** The tasks of the pool, over every run: none lost, none run twice, none out of order. */
module PoolTasks {
  import opened Basics
  import opened PoolSteps

  predicate Holds(s: Pool, w: Id, t: Task) {
    w in s.stages && (s.stages[w] == Offering(t) || s.stages[w] == Running(t))
  }

  /** Pops come in acceptance order: the tasks taken, then the queue, are the tasks accepted. */
  ghost predicate InOrder(s: Pool) {
    && |s.log.taken| <= |s.log.accepted|
    && s.log.accepted[|s.log.taken|..] == s.queue
    && (forall i | 0 <= i < |s.log.taken| :: s.log.taken[i].0 == s.log.accepted[i])
    && NoDup(s.log.accepted)
  }

  /** What a worker holds is a task it popped itself and has not finished; it has started iff it is past the hand-off. */
  ghost predicate HoldsOwn(s: Pool, w: Id)
    requires w in s.stages
  {
    match s.stages[w]
    case Offering(t) => (t, w) in s.log.taken && t !in s.log.finished && t !in s.log.started
    case Running(t) => (t, w) in s.log.taken && t !in s.log.finished && t in s.log.started
    case _ => true
  }

  /** Every task popped is finished or still with the worker that popped it. */
  ghost predicate Accounted(s: Pool) {
    forall i | 0 <= i < |s.log.taken| ::
      s.log.taken[i].0 in s.log.finished || Holds(s, s.log.taken[i].1, s.log.taken[i].0)
  }

  ghost predicate StartedOnce(s: Pool) {
    && NoDup(s.log.started)
    && (forall t | t in s.log.started :: t in s.log.accepted && t !in s.queue)
    && (forall t | t in s.log.finished :: t in s.log.started)
  }

  ghost predicate TasksOk(s: Pool) {
    && InOrder(s)
    && (forall t | t in s.log.rejected :: t !in s.log.accepted)
    && (forall w | w in s.stages :: HoldsOwn(s, w))
    && Accounted(s)
    && StartedOnce(s)
  }

  // ---- Consequences -------------------------------------------------------------

  /** Only one worker ever pops a task. */
  lemma OnePopper(s: Pool, t: Task, v: Id, w: Id)
    requires InOrder(s) && (t, v) in s.log.taken && (t, w) in s.log.taken
    ensures v == w
  {
  }

  /**
   Conservation: an accepted task is queued, finished, or held by exactly one
   worker, and never two of these.  A rejected task is in none of them.
   */
  lemma Conservation(s: Pool, t: Task)
    requires TasksOk(s)
    ensures t in s.log.accepted <==> t in s.queue || t in s.log.finished || exists w :: Holds(s, w, t)
    ensures !(t in s.queue && t in s.log.finished)
    ensures forall w | Holds(s, w, t) :: t !in s.queue && t !in s.log.finished
    ensures forall v, w | Holds(s, v, t) && Holds(s, w, t) :: v == w
    ensures t in s.log.rejected ==> t !in s.queue && t !in s.log.started && t !in s.log.finished && !exists w :: Holds(s, w, t)
  {
  }

  // ---- Every step ---------------------------------------------------------------

  predicate Busy(stage: Stage) {
    stage.Offering? || stage.Running?
  }

  ghost predicate SameBusy(s: Pool, s': Pool) {
    && (forall w | w in s.stages && Busy(s.stages[w]) :: w in s'.stages && s'.stages[w] == s.stages[w])
    && (forall w | w in s'.stages && Busy(s'.stages[w]) :: w in s.stages && s'.stages[w] == s.stages[w])
  }

  /** Steps that neither queue, pop, start nor finish a task. */
  lemma SameTasks(s: Pool, s': Pool)
    requires TasksOk(s) && s'.queue == s.queue && s'.log == s.log.(extra := s'.log.extra, repeats := s'.log.repeats) && SameBusy(s, s')
    ensures TasksOk(s')
  {
  }

  lemma SubmitTasks(s: Pool, t: Task, withChannel: bool)
    requires TasksOk(s) && Fresh(s, t)
    ensures TasksOk(Submitted(s, t, withChannel))
  {
    var s' := Submitted(s, t, withChannel);
    assert s'.log.taken == s.log.taken && s'.stages == s.stages;
    assert s'.log.started == s.log.started && s'.log.finished == s.log.finished;
    forall w | w in s'.stages ensures HoldsOwn(s', w) { assert HoldsOwn(s, w); }
    assert Accounted(s') by {
      forall i | 0 <= i < |s'.log.taken| ensures s'.log.taken[i].0 in s'.log.finished || Holds(s', s'.log.taken[i].1, s'.log.taken[i].0) {
        assert s.log.taken[i].0 in s.log.finished || Holds(s, s.log.taken[i].1, s.log.taken[i].0);
      }
    }
  }

  lemma FinishTasks(s: Pool, w: Id)
    requires TasksOk(s) && Enabled(s, Finish(w))
    ensures TasksOk(Apply(s, Finish(w)))
  {
  }

  lemma HandOffTasks(s: Pool, w: Id)
    requires TasksOk(s) && Enabled(s, HandOff(w))
    ensures TasksOk(Apply(s, HandOff(w)))
  {
  }

  lemma PopInOrder(s: Pool, w: Id)
    requires TasksOk(s) && s.queue != [] && w in s.stages
    ensures s.queue[0] in s.log.accepted && s.queue[0] !in s.log.started && s.queue[0] !in s.log.finished
    ensures InOrder(Popped(s, w))
    ensures forall v: Id | v in s.stages :: !Holds(s, v, s.queue[0])
    ensures s.queue[0] !in s.queue[1..]
  {
  }

  lemma PopAccounted(s: Pool, w: Id)
    requires Accounted(s) && Enabled(s, Pop(w)) && s.queue != []
    ensures Accounted(Popped(s, w))
  {
  }

  lemma PopHolds(s: Pool, w: Id)
    requires TasksOk(s) && Enabled(s, Pop(w)) && s.queue != []
    ensures forall v | v in Popped(s, w).stages :: HoldsOwn(Popped(s, w), v)
  {
  }

  lemma PopStarted(s: Pool, w: Id)
    requires InOrder(s) && StartedOnce(s) && s.queue != []
    requires s.queue[0] in s.log.accepted && s.queue[0] !in s.log.started && s.queue[0] !in s.queue[1..]
    ensures StartedOnce(Popped(s, w))
  {
  }

  lemma PopTasks(s: Pool, w: Id)
    requires TasksOk(s) && Enabled(s, Pop(w)) && s.queue != []
    ensures TasksOk(Popped(s, w))
  {
    PopInOrder(s, w);
    PopHolds(s, w);
    PopAccounted(s, w);
    PopStarted(s, w);
  }

  lemma QuietSteps(s: Pool, step: Step)
    requires Enabled(s, step) && s.manager.lastId + 1 !in s.stages
    requires step.Schedule? || step.Check? || step.Timeout? || step.Close? || step.Remove?
    ensures var s' := Apply(s, step);
            s'.queue == s.queue && s'.log == s.log.(extra := s'.log.extra, repeats := s'.log.repeats) && SameBusy(s, s')
  {
  }

  lemma StepTasks(s: Pool, step: Step)
    requires TasksOk(s) && Enabled(s, step)
    requires s.manager.lastId + 1 !in s.stages
    ensures TasksOk(Apply(s, step))
  {
    match step
    case Submit(t, withChannel) => SubmitTasks(s, t, withChannel);
    case Pop(w) => if s.queue != [] { PopTasks(s, w); } else { SameTasks(s, Apply(s, step)); }
    case HandOff(w) => HandOffTasks(s, w);
    case Finish(w) => FinishTasks(s, w);
    case _ =>
      QuietSteps(s, step);
      SameTasks(s, Apply(s, step));
  }
}
