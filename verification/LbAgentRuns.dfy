/** What every run of the load-balancer agent keeps. */
module LbAgentRuns {
  import opened Basics
  import opened LbAgent

  function Last<T>(s: seq<T>): T
    requires s != []
  {
    s[|s| - 1]
  }

  // ---- Delivery of the HA state -------------------------------------------------------

  /** The loads sent are some of the loads, in order, none twice. */
  ghost predicate InOrder(w: WatcherData) {
    && (forall i | 0 <= i < |w.sent| :: 0 <= w.sent[i] < |w.loads|)
    && (forall i, j | 0 <= i < j < |w.sent| :: w.sent[i] < w.sent[j])
  }

  predicate Behind(w: WatcherData)
    requires w.sent != []
  {
    Last(w.sent) != |w.loads| - 1
  }

  /** Between iterations a state is pending exactly when the last load is not the last one sent. */
  ghost predicate WatcherOk(w: WatcherData, first: bool) {
    && InOrder(w)
    && (w.loads != [] ==> w.current == Last(w.loads))
    && match w.at
       case Starting => w.loads == [] && w.sent == [] && first
       case FirstSend => |w.loads| == 1 && w.sent == [] && first
       case Trying => w.sent != [] && !first && Behind(w)
       case _ => w.sent != [] && !first && (w.pending <==> Behind(w))
  }

  /** The state the API helper has, or will have once the command in hand is done with. */
  function Heard(a: ApiData): HaState {
    match a.at
    case Sending(_, next) => if next.Some? then next.value else a.haState
    case WaitingFor(_, next) => if next.Some? then next.value else a.haState
    case _ => a.haState
  }

  /** The states received are the loads sent, in order. */
  ghost predicate ReceivedSent(w: WatcherData, a: ApiData) {
    && |a.received| == |w.sent|
    && (forall i | 0 <= i < |w.sent| :: 0 <= w.sent[i] < |w.loads| && a.received[i] == w.loads[w.sent[i]])
  }

  /** The API helper goes by the last state it received. */
  ghost predicate HeardLast(a: ApiData) {
    a.received != [] ==> Heard(a) == Last(a.received)
  }

  // ---- Commands -----------------------------------------------------------------------

  function InHand(h: Haproxy): seq<Cmd> {
    if h.Handling? then [h.cmd] else []
  }

  /** The commands made and no longer being sent. */
  function Passed(a: ApiData): seq<Cmd> {
    if a.at.Sending? && a.made != [] then a.made[..|a.made| - 1] else a.made
  }

  /** The API helper numbers its commands in order, and sends the last one. */
  ghost predicate Numbered(a: ApiData) {
    && (forall i | 0 <= i < |a.made| :: a.made[i].id == i)
    && (a.at.Sending? ==> a.made != [] && Last(a.made) == a.at.cmd)
  }

  /** What the haproxy helper received are commands the API helper made, in that order, none twice and none changed. */
  ghost predicate FromApi(a: ApiData, h: HaproxyData) {
    && (forall i, j | 0 <= i < j < |h.issued| :: h.issued[i].id < h.issued[j].id)
    && (forall i | 0 <= i < |h.issued| :: h.issued[i].id < |Passed(a)| && Passed(a)[h.issued[i].id] == h.issued[i])
    && (forall id | id in h.released :: id < |Passed(a)|)
  }

  ghost predicate SameVersions(a: ApiData, cmd: Cmd) {
    cmd.UseCorpus? ==> a.corpus == Some(cmd.corpus) && a.params == Some(cmd.params)
  }

  /** While a UseCorpus command is handled, its sender waits for it and corpus and params are as they were sent. */
  ghost predicate Exclusive(a: ApiData, h: HaproxyData) {
    && (h.at.Handling? && h.at.cmd.UseCorpus? ==>
          && a.at.WaitingFor? && a.at.id == h.at.cmd.id && a.at.id !in h.released
          && SameVersions(a, h.at.cmd))
    && (a.at.WaitingFor? && a.at.id !in h.released ==>
          h.at.Handling? && h.at.cmd.UseCorpus? && h.at.cmd.id == a.at.id)
    && (a.at.Sending? ==> SameVersions(a, a.at.cmd))
  }

  /** The commands handled, and the one in hand, are the commands received, in order. */
  ghost predicate CommandsOk(a: ApiData, h: HaproxyData) {
    h.handled + InHand(h.at) == h.issued && Numbered(a) && FromApi(a, h) && Exclusive(a, h)
  }

  /** Unless the agent was cancelled, every command made and no longer being sent has been received. */
  ghost predicate NoneLost(s: State) {
    s.cancelled || s.haproxy.issued == Passed(s.api)
  }

  /** BACKUP states received by the select of Run, that is, all but the first state. */
  function StopsOwed(received: seq<HaState>): nat {
    if |received| <= 1 then 0
    else StopsOwed(received[..|received| - 1]) + if Last(received) == BACKUP then 1 else 0
  }

  function StopsIssued(issued: seq<Cmd>): nat {
    if issued == [] then 0 else StopsIssued(issued[..|issued| - 1]) + if Last(issued).StopDaemons? then 1 else 0
  }

  predicate SendingStop(a: Api) {
    a.Sending? && a.cmd.StopDaemons?
  }

  /** Every BACKUP received stops the daemons exactly once; only a cancelled agent may owe some. */
  ghost predicate StopsOk(s: State) {
    var issued := StopsIssued(s.haproxy.issued) + if SendingStop(s.api.at) then 1 else 0;
    if s.cancelled then issued <= StopsOwed(s.api.received) else issued == StopsOwed(s.api.received)
  }

  /** A command in hand is StopDaemons exactly for a new BACKUP; UseCorpus is for a sync or for a state that is new. */
  ghost predicate Meant(a: ApiData) {
    a.at.Sending? ==>
      && (a.at.cmd.StopDaemons? <==> a.at.next == Some(BACKUP))
      && (a.at.cmd.UseCorpus? && a.at.next.Some? ==> a.at.next.value != a.haState)
  }

  ghost predicate Invariant(s: State) {
    && StopsOk(s) && Meant(s.api)
    && WatcherOk(s.watcher, s.api.at.FirstReceive?) && ReceivedSent(s.watcher, s.api) && HeardLast(s.api)
    && CommandsOk(s.api, s.haproxy) && NoneLost(s)
    && (s.cancelled || AllRunning(s))
  }

  predicate AllRunning(s: State) {
    !s.watcher.at.WatcherExited? && !s.api.at.ApiExited? && !s.haproxy.at.HaproxyExited?
  }

  // ---- Every step, every run ------------------------------------------------------------

  lemma StepSent(w: WatcherData, step: Step)
    requires InOrder(w) && (w.sent != [] && (step.SendFirst? || step.TrySend?) ==> Behind(w))
    requires w.loads == [] ==> !step.SendFirst? && !step.TrySend?
    ensures InOrder(ApplyWatcher(w, step))
  {
  }

  lemma StepWatcher(s: State, step: Step)
    requires WatcherOk(s.watcher, s.api.at.FirstReceive?) && Enabled(s, step)
    ensures WatcherOk(Apply(s, step).watcher, Apply(s, step).api.at.FirstReceive?)
  {
    StepSent(s.watcher, step);
  }

  lemma StepReceived(s: State, step: Step)
    requires WatcherOk(s.watcher, s.api.at.FirstReceive?) && ReceivedSent(s.watcher, s.api) && Enabled(s, step)
    ensures ReceivedSent(Apply(s, step).watcher, Apply(s, step).api)
  {
  }

  lemma StepHeard(s: State, step: Step)
    requires HeardLast(s.api) && Enabled(s, step)
    ensures HeardLast(Apply(s, step).api)
  {
  }

  lemma StepNumbered(s: State, step: Step)
    requires Numbered(s.api) && Enabled(s, step)
    ensures Numbered(Apply(s, step).api)
  {
  }

  /** The API helper's list of commands sent grows by the command that a send or its abandonment is over with. */
  lemma StepPassed(s: State, step: Step)
    requires Numbered(s.api) && Enabled(s, step)
    ensures Passed(Apply(s, step).api) == Passed(s.api) + if step.SendCmd? || step.AbandonCmd? then [s.api.at.cmd] else []
  {
  }

  lemma StepFromApi(s: State, step: Step)
    requires CommandsOk(s.api, s.haproxy) && Enabled(s, step)
    ensures FromApi(Apply(s, step).api, Apply(s, step).haproxy)
  {
    StepPassed(s, step);
    if step.Handled? { assert Last(s.haproxy.issued) == s.haproxy.at.cmd; }
  }

  lemma StepNoneLost(s: State, step: Step)
    requires Numbered(s.api) && NoneLost(s) && Enabled(s, step)
    ensures NoneLost(Apply(s, step))
  {
    StepPassed(s, step);
  }

  lemma StepExclusive(s: State, step: Step)
    requires Numbered(s.api) && FromApi(s.api, s.haproxy) && Exclusive(s.api, s.haproxy) && Enabled(s, step)
    ensures Exclusive(Apply(s, step).api, Apply(s, step).haproxy)
  {
  }

  lemma StepCommands(s: State, step: Step)
    requires CommandsOk(s.api, s.haproxy) && Enabled(s, step)
    ensures CommandsOk(Apply(s, step).api, Apply(s, step).haproxy)
  {
    StepNumbered(s, step);
    StepFromApi(s, step);
    StepExclusive(s, step);
  }

  lemma StepKeeps(s: State, step: Step)
    requires Invariant(s) && Enabled(s, step)
    ensures Invariant(Apply(s, step))
  {
    StepWatcher(s, step);
    StepReceived(s, step);
    StepHeard(s, step);
    StepCommands(s, step);
    StepNoneLost(s, step);
    StepRunning(s, step);
    StepStops(s, step);
    StepMeant(s.api, step, s.watcher.current);
  }

  lemma StepStops(s: State, step: Step)
    requires StopsOk(s) && WatcherOk(s.watcher, s.api.at.FirstReceive?) && ReceivedSent(s.watcher, s.api) && Enabled(s, step)
    ensures StopsOk(Apply(s, step))
  {
    var s' := Apply(s, step);
    if step.SendCmd? { assert s'.haproxy.issued[..|s'.haproxy.issued| - 1] == s.haproxy.issued; }
    if step.TrySend? { assert s'.api.received[..|s'.api.received| - 1] == s.api.received; }
  }

  lemma StepMeant(a: ApiData, step: Step, state: HaState)
    requires Meant(a)
    requires step.SyncData? ==> a.at.SyncingData?
    requires step.SyncParams? ==> a.at.SyncingParams?
    requires step.SendCmd? || step.AbandonCmd? ==> a.at.Sending?
    requires step.Released? ==> a.at.WaitingFor?
    ensures Meant(ApplyApi(a, step, state))
  {
  }

  lemma StepRunning(s: State, step: Step)
    requires (s.cancelled || AllRunning(s)) && Enabled(s, step)
    ensures Apply(s, step).cancelled || AllRunning(Apply(s, step))
  {
  }

  lemma {:induction false} RunKeeps(s: State, steps: seq<Step>)
    requires Invariant(s) && Legal(s, steps)
    ensures Invariant(Run(s, steps))
    decreases |steps|
  {
    if steps != [] {
      StepKeeps(s, steps[0]);
      RunKeeps(Apply(s, steps[0]), steps[1..]);
    }
  }

  /** Whatever the order of steps and whenever it is cancelled, the agent keeps all of the above. */
  lemma EveryRun(steps: seq<Step>)
    requires Legal(INIT, steps)
    ensures Invariant(Run(INIT, steps))
  {
    InitKeeps();
    RunKeeps(INIT, steps);
  }

  lemma InitKeeps()
    ensures Invariant(INIT)
  {
  }

  lemma Quiet(s: State)
    requires WatcherOk(s.watcher, s.api.at.FirstReceive?) && ReceivedSent(s.watcher, s.api) && HeardLast(s.api)
    requires s.watcher.at.Watching? && !s.watcher.pending && s.api.at.Serving?
    ensures s.api.haState == s.watcher.current
  {
  }

  /** With nothing pending and the API helper idle, it knows the current state. */
  lemma QuietMeansCurrent(steps: seq<Step>)
    requires Legal(INIT, steps)
    requires var s := Run(INIT, steps); s.watcher.at.Watching? && !s.watcher.pending && s.api.at.Serving?
    ensures Run(INIT, steps).api.haState == Run(INIT, steps).watcher.current
  {
    EveryRun(steps);
    Quiet(Run(INIT, steps));
  }

  // ---- No deadlock --------------------------------------------------------------------

  predicate AllExited(s: State) {
    s.watcher.at.WatcherExited? && s.api.at.ApiExited? && s.haproxy.at.HaproxyExited?
  }

  /** Work left once the context is cancelled. */
  function Work(s: State): nat {
    (match s.watcher.at case Starting => 4 case FirstSend => 3 case Trying => 2 case Watching => 1 case WatcherExited => 0)
    + (match s.api.at case FirstReceive => 7 case Peeking => 6 case SyncingData(_) => 5 case SyncingParams(_, _) => 4
       case Sending(_, _) => 3 case WaitingFor(_, _) => 2 case Serving => 1 case ApiExited => 0)
    + (match s.haproxy.at case Handling(_) => 2 case Receiving => 1 case HaproxyExited => 0)
  }

  /** A step that brings a cancelled agent closer to its end. */
  function Closing(s: State): Step {
    match s.watcher.at
    case Starting => Load(UNKNOWN)
    case FirstSend => SendFirst
    case Trying => TryFail
    case Watching => WatcherExit
    case WatcherExited =>
      if s.haproxy.at.Handling? then Handled
      else match s.api.at
        case Peeking => PeekCancelled
        case SyncingData(_) => SyncData(false)
        case SyncingParams(_, _) => SyncParams(false)
        case Sending(_, _) => AbandonCmd
        case WaitingFor(_, _) => Released
        case Serving => ApiExit
        case _ => HaproxyExit
  }

  lemma ClosingCloses(s: State)
    requires WatcherOk(s.watcher, s.api.at.FirstReceive?) && Exclusive(s.api, s.haproxy) && s.cancelled && !AllExited(s)
    ensures Enabled(s, Closing(s)) && Apply(s, Closing(s)).cancelled && Work(Apply(s, Closing(s))) < Work(s)
  {
  }

  lemma {:induction false} Drain(s: State) returns (steps: seq<Step>)
    requires Invariant(s) && s.cancelled
    ensures Legal(s, steps) && AllExited(Run(s, steps))
    decreases Work(s)
  {
    steps := [];
    if !AllExited(s) {
      ClosingCloses(s);
      StepKeeps(s, Closing(s));
      var rest := Drain(Apply(s, Closing(s)));
      steps := [Closing(s)] + rest;
      assert steps[1..] == rest;
    }
  }

  lemma CancelAndDrain(s: State) returns (steps: seq<Step>)
    requires Invariant(s)
    ensures Legal(s, steps) && AllExited(Run(s, steps))
  {
    if s.cancelled {
      steps := Drain(s);
    } else {
      StepKeeps(s, Cancel);
      var rest := Drain(Apply(s, Cancel));
      steps := [Cancel] + rest;
      assert steps[1..] == rest;
    }
  }

  /** From every reachable state the agent can still be brought to its end. */
  lemma CanAlwaysEnd(steps: seq<Step>) returns (more: seq<Step>)
    requires Legal(INIT, steps)
    ensures Legal(Run(INIT, steps), more) && AllExited(Run(Run(INIT, steps), more))
  {
    EveryRun(steps);
    more := CancelAndDrain(Run(INIT, steps));
  }

  // ---- No delivery gets stuck ------------------------------------------------------------

  predicate AtRest(s: State) {
    s.watcher.at.Watching? && !s.watcher.pending && s.api.at.Serving? && s.haproxy.at.Receiving?
  }

  /** A step towards rest that neither cancels nor loads a new state. */
  function Calming(s: State): Step {
    if s.watcher.at.Starting? then Load(UNKNOWN)
    else if s.watcher.at.FirstSend? then SendFirst
    else if s.haproxy.at.Handling? then Handled
    else match s.api.at
      case Peeking => Peek(false)
      case SyncingData(_) => SyncData(false)
      case SyncingParams(_, _) => SyncParams(false)
      case Sending(_, _) => SendCmd
      case WaitingFor(_, _) => Released
      case _ => if s.watcher.at.Trying? then TrySend else Tick
  }

  function Unrest(s: State): nat {
    20 * (match s.watcher.at case Starting => 4 case FirstSend => 3 case Trying => 1
          case _ => if s.watcher.pending then 2 else 0)
    + (match s.api.at case FirstReceive => 12 case Peeking => 10 case SyncingData(_) => 8 case SyncingParams(_, _) => 7
       case Sending(_, _) => 5 case WaitingFor(_, _) => 2 case _ => 0)
    + (if s.haproxy.at.Handling? then 2 else 0)
  }

  lemma CalmingCalms(s: State)
    requires WatcherOk(s.watcher, s.api.at.FirstReceive?) && Exclusive(s.api, s.haproxy)
    requires !s.cancelled && AllRunning(s) && !AtRest(s)
    ensures Enabled(s, Calming(s)) && !Apply(s, Calming(s)).cancelled && Unrest(Apply(s, Calming(s))) < Unrest(s)
  {
  }

  lemma {:induction false} Calm(s: State) returns (steps: seq<Step>)
    requires Invariant(s) && !s.cancelled
    ensures Legal(s, steps) && Cancel !in steps
    ensures AtRest(Run(s, steps)) && Run(s, steps).api.haState == Run(s, steps).watcher.current
    decreases Unrest(s)
  {
    steps := [];
    if AtRest(s) {
      Quiet(s);
    } else {
      CalmingCalms(s);
      StepKeeps(s, Calming(s));
      var rest := Calm(Apply(s, Calming(s)));
      steps := [Calming(s)] + rest;
      assert steps[1..] == rest;
    }
  }

  /**
   From every reachable state that is not cancelled the agent can come to rest
   without being cancelled, and then the API helper knows the current state.
   */
  lemma CanAlwaysDeliver(steps: seq<Step>) returns (more: seq<Step>)
    requires Legal(INIT, steps) && !Run(INIT, steps).cancelled
    ensures Legal(Run(INIT, steps), more) && Cancel !in more
    ensures var s := Run(Run(INIT, steps), more); AtRest(s) && s.api.haState == s.watcher.current
  {
    EveryRun(steps);
    more := Calm(Run(INIT, steps));
  }

  /** A step that the three processes can take by themselves: not a cancellation, and no new state of the file. */
  predicate OwnStep(s: State, step: Step) {
    !step.Cancel? && (step.Load? ==> s.watcher.at.Starting?) && Enabled(s, step)
  }

  /** In every reachable state all have exited, or the agent rests with nothing left to deliver, or a process can go on. */
  lemma NoDeadlock(steps: seq<Step>)
    requires Legal(INIT, steps)
    ensures var s := Run(INIT, steps); AllExited(s) || (!s.cancelled && AtRest(s)) || exists step :: OwnStep(s, step)
  {
    EveryRun(steps);
    var s := Run(INIT, steps);
    if s.cancelled && !AllExited(s) {
      ClosingCloses(s);
      assert OwnStep(s, Closing(s));
    } else if !s.cancelled && !AtRest(s) {
      CalmingCalms(s);
      assert OwnStep(s, Calming(s));
    }
  }
}
