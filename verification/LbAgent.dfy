/**
 The three processes of the load-balancer agent (pkg/lbagent) as one step system:
 the HA state watcher, the API helper and the haproxy helper, two unbuffered
 channels, a WaitGroup per UseCorpus command, and a context that may be cancelled
 before any step.  Remote calls are steps whose outcome is free.
 */
module LbAgent {
  import opened Basics

  type HaState = string

  const BACKUP := "BACKUP"
  const UNKNOWN := "UNKNOWN"

  /** A command and its number; UseCorpus carries the versions of corpus and params it hands over. */
  datatype Cmd = UseCorpus(id: nat, corpus: nat, params: nat) | StopDaemons(id: nat)

  /** HaStateWatcher.Run */
  datatype Watcher =
    | Starting   // about to load the state for the first time
    | FirstSend  // blocked in the first send
    | Watching   // in the select
    | Trying     // about to attempt a send that does not block
    | WatcherExited

  /** ApiHelper.Run; `next` is the state to record when the command is done with. */
  datatype Api =
    | FirstReceive
    | Peeking
    | SyncingData(initial: bool)
    | SyncingParams(initial: bool, dataChanged: bool)
    | Sending(cmd: Cmd, next: Option<HaState>)
    | WaitingFor(id: nat, next: Option<HaState>)
    | Serving    // in the select
    | ApiExited

  /** HaproxyHelper.Run */
  datatype Haproxy = Receiving | Handling(cmd: Cmd) | HaproxyExited

  datatype WatcherData = WatcherData(
    at: Watcher,
    current: HaState,        // CurrentState
    pending: bool,           // statePending
    loads: seq<HaState>,     // history: every state loaded
    sent: seq<int>           // history: the loads sent, as positions in `loads`
  )

  /** What has called for commands: a state received, or a sync of corpus and params; `ready`: both are there. */
  datatype Event =
    | First(state: HaState)
    | Later(state: HaState, ready: bool)
    | Synchronised(initial: bool, dataChanged: bool, paramsChanged: bool, ready: bool)

  datatype ApiData = ApiData(
    at: Api,
    haState: HaState,
    corpus: Option<nat>,     // version of the corpus, if there is one
    params: Option<nat>,
    made: seq<Cmd>,          // history: every command made, numbered by position
    received: seq<HaState>,  // history: every state received
    events: seq<Event>       // history
  )

  datatype HaproxyData = HaproxyData(
    at: Haproxy,
    released: set<nat>,      // commands whose WaitGroup is at zero
    issued: seq<Cmd>,        // history: commands received
    handled: seq<Cmd>        // history: commands done
  )

  datatype State = State(cancelled: bool, watcher: WatcherData, api: ApiData, haproxy: HaproxyData)

  const INIT := State(false, WatcherData(Starting, UNKNOWN, false, [], []),
                      ApiData(FirstReceive, UNKNOWN, None, None, [], [], []), HaproxyData(Receiving, {}, [], []))

  datatype Step =
    | Cancel
    | Load(state: HaState)       // first load, or on a file event; UNKNOWN when it fails
    | SendFirst
    | TrySend                    // the non-blocking send finds the API helper receiving
    | TryFail                    // or it does not
    | Tick                       // of the watcher
    | WatcherExit
    | Peek(local: bool)          // the agent answers; `local`: an old corpus is loaded
    | PeekCancelled
    | SyncTick
    | SyncData(changed: bool)
    | SyncParams(changed: bool)
    | SendCmd                    // meets the haproxy helper
    | AbandonCmd                 // ctx.Done instead
    | Released                   // Wg.Wait returns
    | ApiExit
    | Handled
    | HaproxyExit

  // ---- The watcher's own code ---------------------------------------------------------

  function Loaded(w: WatcherData, state: HaState): WatcherData {
    w.(current := state, loads := w.loads + [state], at := if w.at.Starting? then FirstSend else Trying)
  }

  /** The state loaded last is handed over. */
  function HandedOver(w: WatcherData): WatcherData {
    w.(at := Watching, pending := false, sent := w.sent + [|w.loads| - 1])
  }

  // ---- The API helper's own code -----------------------------------------------------

  function Settled(a: ApiData, next: Option<HaState>): ApiData {
    a.(at := Serving, haState := if next.Some? then next.value else a.haState)
  }

  function BeginSend(a: ApiData, cmd: Cmd, next: Option<HaState>): ApiData {
    a.(at := Sending(cmd, next), made := a.made + [cmd])
  }

  /** doUseCorpus, up to its select. */
  function BeginUseCorpus(a: ApiData, next: Option<HaState>): ApiData {
    if a.corpus.None? || a.params.None? then Settled(a, next)
    else BeginSend(a, UseCorpus(|a.made|, a.corpus.value, a.params.value), next)
  }

  /** A state arrives at the select of Run. */
  function Receive(a: ApiData, state: HaState): ApiData {
    if state == BACKUP then BeginSend(a, StopDaemons(|a.made|), Some(state))
    else if state != a.haState then BeginUseCorpus(a, Some(state))
    else Settled(a, Some(state))
  }

  function Bump(version: Option<nat>): Option<nat> {
    Some(if version.Some? then version.value + 1 else 0)
  }

  /** doSyncAgentParams has returned: the tail of runInit or of the sync case of Run. */
  function Synced(a: ApiData, initial: bool, dataChanged: bool, changed: bool): ApiData {
    var a' := a.(params := if changed then Bump(a.params) else a.params);
    if initial || dataChanged || changed then BeginUseCorpus(a', None) else Settled(a', None)
  }

  /** The command is in the haproxy helper's hands: doUseCorpus waits, doStopDaemons does not. */
  function SentCmd(a: ApiData, cmd: Cmd, next: Option<HaState>): ApiData {
    if cmd.UseCorpus? then a.(at := WaitingFor(cmd.id, next)) else Settled(a, next)
  }

  // ---- The haproxy helper's own code ----------------------------------------------------

  function Finished(h: HaproxyData, cmd: Cmd): HaproxyData {
    h.(at := Receiving, handled := h.handled + [cmd],
       released := if cmd.UseCorpus? then h.released + {cmd.id} else h.released)
  }

  // ---- Steps ---------------------------------------------------------------------------

  predicate Enabled(s: State, step: Step) {
    match step
    case Cancel => !s.cancelled
    case Load(_) => s.watcher.at.Starting? || s.watcher.at.Watching?
    case SendFirst => s.watcher.at.FirstSend? && s.api.at.FirstReceive?
    case TrySend => s.watcher.at.Trying? && s.api.at.Serving?
    case TryFail => s.watcher.at.Trying?
    case Tick => s.watcher.at.Watching? && s.watcher.pending
    case WatcherExit => s.watcher.at.Watching? && s.cancelled
    case Peek(_) => s.api.at.Peeking?
    case PeekCancelled => s.api.at.Peeking? && s.cancelled
    case SyncTick => s.api.at.Serving?
    case SyncData(_) => s.api.at.SyncingData?
    case SyncParams(_) => s.api.at.SyncingParams?
    case SendCmd => s.api.at.Sending? && s.haproxy.at.Receiving?
    case AbandonCmd => s.api.at.Sending? && s.cancelled
    case Released => s.api.at.WaitingFor? && s.api.at.id in s.haproxy.released
    case ApiExit => s.api.at.Serving? && s.cancelled
    case Handled => s.haproxy.at.Handling?
    case HaproxyExit => s.haproxy.at.Receiving? && s.cancelled
  }

  function ApplyWatcher(w: WatcherData, step: Step): WatcherData {
    match step
    case Load(state) => Loaded(w, state)
    case SendFirst => HandedOver(w)
    case TrySend => HandedOver(w)
    case TryFail => w.(at := Watching, pending := true)
    case Tick => w.(at := Trying)
    case WatcherExit => w.(at := WatcherExited)
    case _ => w
  }

  /** `state` is what the watcher sends in this step, if it sends. */
  function ApplyApi(a: ApiData, step: Step, state: HaState): ApiData
    requires step.SyncData? ==> a.at.SyncingData?
    requires step.SyncParams? ==> a.at.SyncingParams?
    requires step.SendCmd? || step.AbandonCmd? ==> a.at.Sending?
    requires step.Released? ==> a.at.WaitingFor?
  {
    match step
    case SendFirst => a.(at := Peeking, haState := state, received := a.received + [state],
                          events := a.events + [First(state)])
    case TrySend =>
      Receive(a.(received := a.received + [state],
                 events := a.events + [Later(state, a.corpus.Some? && a.params.Some?)]), state)
    case Peek(local) => a.(at := SyncingData(true), corpus := if local then Bump(a.corpus) else a.corpus)
    case PeekCancelled => a.(at := Serving)
    case SyncTick => a.(at := SyncingData(false))
    case SyncData(changed) => a.(at := SyncingParams(a.at.initial, changed), corpus := Bump(a.corpus))
    case SyncParams(changed) =>
      Synced(a.(events := a.events + [Synchronised(a.at.initial, a.at.dataChanged, changed,
                                                   a.corpus.Some? && (changed || a.params.Some?))]),
             a.at.initial, a.at.dataChanged, changed)
    case SendCmd => SentCmd(a, a.at.cmd, a.at.next)
    case AbandonCmd => Settled(a, a.at.next)
    case Released => Settled(a, a.at.next)
    case ApiExit => a.(at := ApiExited)
    case _ => a
  }

  /** `api` is where the API helper stands. */
  function ApplyHaproxy(h: HaproxyData, step: Step, api: Api): HaproxyData
    requires step.SendCmd? ==> api.Sending?
    requires step.Handled? ==> h.at.Handling?
  {
    match step
    case SendCmd => h.(at := Handling(api.cmd), issued := h.issued + [api.cmd])
    case Handled => Finished(h, h.at.cmd)
    case HaproxyExit => h.(at := HaproxyExited)
    case _ => h
  }

  function Apply(s: State, step: Step): State
    requires Enabled(s, step)
  {
    State(s.cancelled || step.Cancel?,
          ApplyWatcher(s.watcher, step),
          ApplyApi(s.api, step, s.watcher.current),
          ApplyHaproxy(s.haproxy, step, s.api.at))
  }

  predicate Legal(s: State, steps: seq<Step>)
    decreases |steps|
  {
    steps == [] || (Enabled(s, steps[0]) && Legal(Apply(s, steps[0]), steps[1..]))
  }

  function Run(s: State, steps: seq<Step>): State
    requires Legal(s, steps)
    decreases |steps|
  {
    if steps == [] then s else Run(Apply(s, steps[0]), steps[1..])
  }
}
