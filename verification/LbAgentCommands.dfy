/** Which commands the API helper makes, over every run: exactly those that the events call for. */
module LbAgentCommands {
  import opened Basics
  import opened LbAgent
  import opened LbAgentRuns

  datatype Kind = Stop | Use

  /** The state received last. */
  function Known(events: seq<Event>): HaState {
    if events == [] then "UNKNOWN"
    else
      match events[|events| - 1]
      case First(state) => state
      case Later(state, _) => state
      case Synchronised(_, _, _, _) => Known(events[..|events| - 1])
  }

  /**
   What an event calls for when `known` was the state before: BACKUP stops the daemons; another state that
   is new, the initial sync, and a sync that changed something use the corpus, if there is one with params.
   */
  function Due(known: HaState, e: Event): seq<Kind> {
    match e
    case First(_) => []
    case Later(state, ready) => if state == "BACKUP" then [Stop] else if state != known && ready then [Use] else []
    case Synchronised(initial, data, params, ready) => if (initial || data || params) && ready then [Use] else []
  }

  function Owed(events: seq<Event>): seq<Kind> {
    if events == [] then []
    else Owed(events[..|events| - 1]) + Due(Known(events[..|events| - 1]), events[|events| - 1])
  }

  function Kinds(cmds: seq<Cmd>): seq<Kind> {
    if cmds == [] then []
    else Kinds(cmds[..|cmds| - 1]) + [if cmds[|cmds| - 1].StopDaemons? then Stop else Use]
  }

  /** The commands made are those owed, in order, and the helper goes by the state received last. */
  ghost predicate MakesOwed(a: ApiData) {
    Kinds(a.made) == Owed(a.events) && Heard(a) == Known(a.events)
  }

  // ---- Histories that grow by one --------------------------------------------------------

  lemma OwedNext(events: seq<Event>, e: Event)
    ensures Owed(events + [e]) == Owed(events) + Due(Known(events), e)
  {
    assert (events + [e])[..|events|] == events;
  }

  lemma KnownNext(events: seq<Event>, e: Event)
    ensures Known(events + [e]) == if e.Synchronised? then Known(events) else e.state
  {
    assert (events + [e])[..|events|] == events;
  }

  lemma KindsNext(cmds: seq<Cmd>, c: Cmd)
    ensures Kinds(cmds + [c]) == Kinds(cmds) + [if c.StopDaemons? then Stop else Use]
  {
    assert (cmds + [c])[..|cmds|] == cmds;
  }

  // ---- Every step ---------------------------------------------------------------------------

  function KindOf(cmd: Option<Cmd>): seq<Kind> {
    if cmd.None? then [] else [if cmd.value.StopDaemons? then Stop else Use]
  }

  function Listed(cmd: Option<Cmd>): seq<Cmd> {
    if cmd.None? then [] else [cmd.value]
  }

  /** One event, answered by the command it is due. */
  lemma {:induction false} Answered(a: ApiData, a': ApiData, e: Event, cmd: Option<Cmd>)
    requires MakesOwed(a) && a'.events == a.events + [e] && a'.made == a.made + Listed(cmd)
    requires Due(Known(a.events), e) == KindOf(cmd) && Heard(a') == if e.Synchronised? then Heard(a) else e.state
    ensures MakesOwed(a')
  {
    OwedNext(a.events, e);
    KnownNext(a.events, e);
    if cmd.Some? { KindsNext(a.made, cmd.value); } else { assert a.made + [] == a.made && Kinds(a.made) + [] == Kinds(a.made); }
  }

  lemma {:induction false} ReceiveOwed(a: ApiData, state: HaState)
    requires MakesOwed(a) && a.at.Serving?
    ensures MakesOwed(ApplyApi(a, TrySend, state))
  {
    var a', e := ApplyApi(a, TrySend, state), Later(state, a.corpus.Some? && a.params.Some?);
    if state == BACKUP {
      Answered(a, a', e, Some(StopDaemons(|a.made|)));
    } else if state != a.haState && a.corpus.Some? && a.params.Some? {
      Answered(a, a', e, Some(UseCorpus(|a.made|, a.corpus.value, a.params.value)));
    } else {
      assert a'.made == a.made + [];
      Answered(a, a', e, None);
    }
  }

  lemma {:induction false} SyncOwed(a: ApiData, changed: bool, state: HaState)
    requires MakesOwed(a) && a.at.SyncingParams?
    ensures MakesOwed(ApplyApi(a, SyncParams(changed), state))
  {
    var a' := ApplyApi(a, SyncParams(changed), state);
    var e := Synchronised(a.at.initial, a.at.dataChanged, changed, a.corpus.Some? && (changed || a.params.Some?));
    var params := if changed then Bump(a.params) else a.params;
    if (a.at.initial || a.at.dataChanged || changed) && a.corpus.Some? && params.Some? {
      Answered(a, a', e, Some(UseCorpus(|a.made|, a.corpus.value, params.value)));
    } else {
      assert a'.made == a.made + [];
      Answered(a, a', e, None);
    }
  }

  lemma {:induction false} StepOwed(s: State, step: Step)
    requires MakesOwed(s.api) && Enabled(s, step)
    ensures MakesOwed(Apply(s, step).api)
  {
    match step
    case TrySend => ReceiveOwed(s.api, s.watcher.current);
    case SyncParams(changed) => SyncOwed(s.api, changed, s.watcher.current);
    case SendFirst =>
      assert Apply(s, step).api.made == s.api.made + [];
      Answered(s.api, Apply(s, step).api, First(s.watcher.current), None);
    case _ => OtherSteps(s, step);
  }

  lemma OtherSteps(s: State, step: Step)
    requires Enabled(s, step) && !step.TrySend? && !step.SyncParams? && !step.SendFirst?
    ensures var a' := Apply(s, step).api; a'.made == s.api.made && a'.events == s.api.events && Heard(a') == Heard(s.api)
  {
  }

  lemma {:induction false} RunOwed(s: State, steps: seq<Step>)
    requires MakesOwed(s.api) && Legal(s, steps)
    ensures MakesOwed(Run(s, steps).api)
    decreases |steps|
  {
    if steps != [] {
      StepOwed(s, steps[0]);
      RunOwed(Apply(s, steps[0]), steps[1..]);
    }
  }

  /** In every run the API helper makes exactly the commands that are owed, no more and no fewer, in order. */
  lemma EveryRunOwed(steps: seq<Step>)
    requires Legal(INIT, steps)
    ensures Kinds(Run(INIT, steps).api.made) == Owed(Run(INIT, steps).api.events)
  {
    RunOwed(INIT, steps);
  }

  // ---- What the events record ------------------------------------------------------------------

  /** A state that arrives in the select is recorded, and calls at once for the command it is due. */
  lemma TrySendEffect(s: State)
    requires MakesOwed(s.api) && Enabled(s, TrySend)
    ensures var a, a', state := s.api, Apply(s, TrySend).api, s.watcher.current;
      if state == "BACKUP" then a'.at == Sending(StopDaemons(|a.made|), Some(state))
      else if state != a.haState && a.corpus.Some? && a.params.Some?
        then a'.at == Sending(UseCorpus(|a.made|, a.corpus.value, a.params.value), Some(state))
      else a'.at.Serving? && a'.haState == state && a'.made == a.made
  {
  }

  /**
   A sync gives the corpus a version it never had, and the params one iff they changed; the first sync
   follows the peek, which may bring an old corpus, the others a tick.
   */
  lemma SyncEffect(s: State, changed: bool)
    ensures Enabled(s, SyncData(changed)) ==>
      var a' := Apply(s, SyncData(changed)).api;
      a'.corpus.Some? && (s.api.corpus.Some? ==> a'.corpus.value > s.api.corpus.value) && a'.params == s.api.params
      && a'.at == SyncingParams(s.api.at.initial, changed)
    ensures Enabled(s, SyncParams(changed)) ==>
      var a' := Apply(s, SyncParams(changed)).api;
      && a'.corpus == s.api.corpus && (if changed then a'.params != s.api.params && a'.params.Some? else a'.params == s.api.params)
      && (a'.at.Sending? <==> (s.api.at.initial || s.api.at.dataChanged || changed) && a'.corpus.Some? && a'.params.Some?)
    ensures Enabled(s, SyncTick) ==> Apply(s, SyncTick).api == s.api.(at := SyncingData(false))
    ensures Enabled(s, Peek(changed)) ==>
      var a' := Apply(s, Peek(changed)).api;
      && a'.at == SyncingData(true) && a'.params == s.api.params
      && if changed then a'.corpus.Some? && a'.corpus != s.api.corpus else a'.corpus == s.api.corpus
  {
  }

  /** Some sync of the history was the initial one. */
  predicate InitialDone(events: seq<Event>) {
    events != [] &&
    var last := events[|events| - 1];
    (last.Synchronised? && last.initial) || InitialDone(events[..|events| - 1])
  }

  predicate PastInit(at: Api) {
    match at
    case FirstReceive => false
    case Peeking => false
    case SyncingData(initial) => !initial
    case SyncingParams(initial, _) => !initial
    case _ => true
  }

  lemma InitialNext(events: seq<Event>, e: Event)
    ensures InitialDone(events + [e]) <==> InitialDone(events) || (e.Synchronised? && e.initial)
  {
    assert (events + [e])[..|events|] == events;
  }

  /** Unless it was cancelled, an API helper that serves has synced once. */
  ghost predicate SyncedFirst(s: State) {
    s.cancelled || (PastInit(s.api.at) ==> InitialDone(s.api.events))
  }

  lemma StepSyncedFirst(s: State, step: Step)
    requires SyncedFirst(s) && Enabled(s, step)
    ensures SyncedFirst(Apply(s, step))
  {
    match step
    case TrySend => InitialNext(s.api.events, Later(s.watcher.current, s.api.corpus.Some? && s.api.params.Some?));
    case SyncParams(changed) =>
      InitialNext(s.api.events, Synchronised(s.api.at.initial, s.api.at.dataChanged, changed,
                                             s.api.corpus.Some? && (changed || s.api.params.Some?)));
    case _ =>
  }

  lemma {:induction false} RunSyncedFirst(s: State, steps: seq<Step>)
    requires SyncedFirst(s) && Legal(s, steps)
    ensures SyncedFirst(Run(s, steps))
    decreases |steps|
  {
    if steps != [] {
      StepSyncedFirst(s, steps[0]);
      RunSyncedFirst(Apply(s, steps[0]), steps[1..]);
    }
  }
}
