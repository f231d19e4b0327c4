# Verified models of OneCloud's request routing, worker pool and agents

OneCloud serves its REST APIs with its own small application server
(`pkg/appsrv`).  This project models the parts of that server, and of three
services around it, whose behaviour is hardest to see from the code, and proves
what they keep over every input, every run and every interleaving.

## The models

**Route tree** (`Paths`, `RoutePatterns`, `RouteChoice`, `RouteGraph`,
`RouteTree`, `RouteTable`, `Dispatch`, `Statistics`).  Requests are dispatched by
a mutable tree with literal children in a map and regular-expression children in
registration order.  `RouteTree.RadixNode` is that tree, node objects and all.
`RoutePatterns` gives the flat meaning: a list of accepted registrations, which
of them match a prefix of a request, and a priority (`Beats`) between two that
match.  The priority compares the two keys at the point where they part: a
longer key beats its own prefix; a literal edge beats a regular expression;
between two regular expressions the side whose remainder takes a literal edge or
consumes the request wins, and otherwise the one registered first.  `RouteGraph`
lies between the two, the tree as a value.  The chain of proofs is: objects show
a graph, the graph represents the list, searching the list finds the one key
that beats all others.  The regular-expression engine is a parameter.

**Worker pool** (`Ring`, `PoolSteps`, `PoolEffects`, `PoolLists`, `PoolTasks`,
`PoolRuns`, `WorkerPool`).  `PoolSteps` is a step system: every critical section under the
pool's lock, every queue operation and every rendezvous with a waiting request is
one step, and runs are arbitrary interleavings.  `WorkerPool` holds the objects
themselves, whose critical sections move them exactly as the step system says.
A timeout may detach a worker in any state: active, detached already for an
earlier request of the same worker, or gone.  In the second case the code appends
a second entry to the detached list, which nothing removes later; the model does
the same, and `PoolRuns.ListsExactIff` says that this is the only way the lists
can become inexact.  In the third case `list.Remove` panics on a nil container
before any list has changed.

**Response relay** (`Response`).  The handler goroutine and the waiting request
goroutine, the channels between them, and their closing, as a step system.

**Load-balancer agent** (`LbAgent`, `LbAgentRuns`, `LbAgentCommands`).  State watcher, API helper and
haproxy helper with their two unbuffered channels, the WaitGroup of a UseCorpus
command and a context that may be cancelled before any step.  A corpus is
represented by its version number, so that "not synced while rendered" can be
said.

**Text** (`MsgTemplate`, `HeaderList`, `Origins`).  The error message templates,
the CORS header list scanner and the CORS origin check, each loop proved against
a meaning that has no loop state.

**Streaming and endpoints** (`Stream`, `Catalog`).  The chunk arithmetic of image
range requests over a file with short reads, and V3 endpoint selection.

Where code and documentation disagree the model follows the code.  The option
`AllowOriginFunc` is documented to make `AllowedOrigins` irrelevant
(`pkg/appsrv/cors.go:124-127`), but an entry `*` allows every origin before the
function is asked; `Origins.CustomFunctionDecides` says exactly when the
documentation holds.

Eight promises hold only under a condition, which is proved to be exact:

- a byte range is streamed whole unless its length is 1 modulo 4096, in which
  case the last byte is missing (`Stream.WholeRangeIff`);
- a plain file is streamed from the requested position only when that position
  is 0, since `SFile.Read` does not use its offset (`Stream.FreshFileRightIffFromZero`);
- an error message without params agrees with its template iff it has no `%%` and
  no `%` before a verb, since it is then not formatted (`MsgTemplate.NoParamsAgreesIff`);
- substituting into templates is formatting iff every verb prints every param as
  Sprint does (`MsgTemplate.SubstitutingIsFormattingIff`);
- a header list is split and canonicalised word by word, and is a fixed point of
  parsing, unless a character that is not kept comes before a letter at a place
  where upper case is due (`HeaderList.ParsesByWordsIff`, `HeaderList.FixedPointIff`);
- the two worker lists are exact iff no timeout met a worker that was detached
  before (`PoolRuns.ListsExactIff`);
- a region id splits back into region and zone only if the region has no `-` to
  be mistaken for the separator (`Catalog.RegionZoneRoundTrip`).

Each of them has a lemma with an input on which the promise fails.

## Model

| member | source | states |
|---|---|---|
| Paths.SplitPath | pkg/appsrv/appsrv.go:99-108 | the loop returns the trimmed non-empty parts between slashes, in order |
| Paths.TrimCutsBlanks | pkg/appsrv/appsrv.go:102 | a part is blanks, what is kept of it and blanks; what is kept has no blank at either end, blanks being space, tab, carriage return and newline |
| Paths.SegmentsAreClean | pkg/appsrv/appsrv.go:99-108 | every segment is non-empty, without slash and without blank at either end |
| Paths.SegmentsJoin | pkg/appsrv/appsrv.go:99-108 | the segments of a joined path are those of its parts, so extra slashes vanish |
| Paths.SegmentsOfJoin | pkg/appsrv/appsrv.go:99-108 | splitting a joined list of clean segments gives the list back |
| Paths.SegmentsStable | pkg/appsrv/appsrv.go:99-108 | joining the segments of any path and splitting again changes nothing |
| RoutePatterns.NamedPattern | pkg/appsrv/radix.go:88-103 | a segment spelled <name:pattern> stands for the regular expression pattern and the parameter <name> |
| RoutePatterns.NamedOnly | pkg/appsrv/radix.go:95-100 | a segment spelled <name> takes any segment under the parameter <name> |
| RoutePatterns.OtherwiseLiteral | pkg/appsrv/radix.go:63-69 | every segment that is not something in angle brackets stands for itself |
| RoutePatterns.AcceptsIsMatch | pkg/appsrv/radix.go:88-118 | by its spelling alone a route segment takes exactly the request segments its normalised form matches |
| RouteChoice.ChooseFindsBest | pkg/appsrv/radix.go:141-176 | for every registration list and request the search returns nothing iff no registration matches a prefix, else the candidate that beats every other one, and its flag is true iff all segments are consumed or a literal edge was taken |
| RouteChoice.BeatsAsymmetric | pkg/appsrv/radix.go:141-176 | of two keys at most one beats the other |
| RouteChoice.BestIsUnique | pkg/appsrv/radix.go:141-176 | at most one candidate beats all others, so the priority determines the route |
| RouteChoice.ChooseRexFindsBest | pkg/appsrv/radix.go:152-172 | among the regular expressions from any position on, first flagged result, else first result, is the best candidate starting with one of them |
| RouteChoice.ExactLiteralRouteWins | pkg/appsrv/radix.go:141-151 | an all-literal route equal to the request wins whatever regular-expression routes exist |
| RouteChoice.LiteralTableLongestPrefix | pkg/appsrv/radix.go:141-176 | without regular expressions the longest registered prefix is chosen |
| RouteChoice.LiteralTableOrderIrrelevant | pkg/appsrv/radix.go:141-176 | without regular expressions the order of registration does not matter |
| RouteGraph.AddRepresents | pkg/appsrv/radix.go:79-128 | adding along a path is refused iff the key has data; else the graph represents the list with one registration more |
| RouteGraph.MatchIsChoose | pkg/appsrv/radix.go:141-176 | a lookup in the graph ends at the node whose path the search of the list returns, with the same flag |
| RouteTree.RadixNode.FindRegexp | pkg/appsrv/radix.go:54-61 | finds the child of a regular expression iff there is one |
| RouteTree.RadixNode.AddAt | pkg/appsrv/radix.go:79-128 | the recursion on objects does what adding in the graph does, and a refusal changes no node |
| RouteTree.RadixNode.MatchAt | pkg/appsrv/radix.go:141-176 | the recursion on objects returns the node and flag of the lookup in the graph |
| RouteTree.RadixNode.MatchRegexps | pkg/appsrv/radix.go:152-172 | the loop keeps the first unflagged result and stops at the first flagged one |
| RouteTree.RadixNode.WalkAt | pkg/appsrv/radix.go:178-195 | visits every entry at or below a node exactly once, with its path and data |
| RouteTable.Radix.constructor | pkg/appsrv/radix.go:38-45 | a new tree stands for the empty registration list |
| RouteTable.Radix.Add | pkg/appsrv/radix.go:71-77 | insertion into a table keyed by normalised segments: refused iff the key has data, refusal changes nothing, success appends exactly one registration |
| RouteTable.Radix.Match | pkg/appsrv/radix.go:130-139 | after any sequence of adds, the data of the best candidate; none iff no registration matches a prefix; every name index in bounds and every name bound to a segment at one of its positions |
| RouteTable.Radix.Walk | pkg/appsrv/radix.go:178-195 | lists every entry of the table exactly once |
| RouteTable.BindParams | pkg/appsrv/radix.go:135-138 | each parameter name gets the segment at one of its positions, other bindings stay |
| RouteTable.UniqueNameBound | pkg/appsrv/radix.go:135-138 | a name used once is bound to the segment at its position |
| Dispatch.AddHandler | pkg/appsrv/appsrv.go:149-155 | a handler is registered under the key and names of its own path, or refused because the key is taken and then no node changes |
| Dispatch.Handle | pkg/appsrv/appsrv.go:236-271 | the best handler for the request's segments, whose path takes them by its spelling; none iff the path of no registered handler does; the path is no longer than the request so the slice behind it is legal; parameters named once are the segments at their positions |
| Dispatch.CandidateBySpelling | pkg/appsrv/appsrv.go:236-241 | a registered path is a candidate for a request iff each of its segments, by its spelling, takes the segment at its position |
| Dispatch.ServeAlone | pkg/appsrv/appsrv.go:236-271 | with one handler for <name:pattern> a request of one segment is served iff the pattern takes the segment, and the parameter <name> is that segment |
| Statistics.AllTotals | pkg/appsrv/stats.go:45-55 | each of the six fields of the totals is that field of the default handler plus its sum, as numbers add, over the registered entries of all trees |
| Statistics.Totals | pkg/appsrv/stats.go:50-55 | walking one tree adds to each field its sum over the registered entries |
| Statistics.AddUp | pkg/appsrv/stats.go:25-43 | each visited handler's counters are added once |
| Statistics.EveryFieldAdds | pkg/appsrv/stats.go:36-41 | adding counters adds hits as integers and durations as reals, in each of the three classes |
| Statistics.OneMoreHandler | pkg/appsrv/stats.go:25-43 | one more handler raises each field of the totals by exactly its own |
| Statistics.EntriesListed | pkg/appsrv/stats.go:45-55 | the accepted registrations with data are exactly the entries a walk lists |
| Statistics.SumOfSameElements | pkg/appsrv/stats.go:25-43 | totals do not depend on the order in which a walk visits |
| Ring.Ring.constructor | pkg/appsrv/ring.go:27-33 | an empty queue with one slot more than its capacity |
| Ring.NextPointer | pkg/appsrv/ring.go:35-41 | the next index modulo the buffer size |
| Ring.Ring.Push | pkg/appsrv/ring.go:43-52 | accepted iff fewer than Capacity values are queued, and then appended |
| Ring.Ring.Pop | pkg/appsrv/ring.go:54-63 | nothing iff empty, else the oldest value, which leaves the queue |
| Ring.Ring.Size | pkg/appsrv/ring.go:69-77 | the number of queued values, whichever index is ahead |
| PoolEffects.ScheduleEffect | pkg/appsrv/workers.go:209-228 | with work queued and fewer active entries than workerCount exactly one goroutine is started, at the end of the active list, otherwise none |
| PoolEffects.TimeoutEffect | pkg/appsrv/workers.go:88-99 | the request has returned, its live worker is detached, listed so and no longer active, and one goroutine is started iff there is work and room after the move |
| PoolEffects.TimeoutAlone | pkg/appsrv/response.go:104-110 | a timeout that knows of no live worker only ends the wait |
| PoolEffects.SubmitEffect | pkg/appsrv/workers.go:175-183 | accepted and queued last while the queue has room, otherwise rejected |
| PoolEffects.LoopEffect | pkg/appsrv/workers.go:69-86 | an active worker goes on to the queue and a detached one leaves; an empty queue ends the loop, otherwise the oldest task is taken; after a task the loop starts again |
| PoolEffects.RequestEffect | pkg/appsrv/response.go:103-120 | a hand-off tells the request of the worker, and a closed stream ends the wait |
| PoolEffects.RemoveEffect | pkg/appsrv/workers.go:185-194 | the goroutine, its worker and one list entry are gone, and nothing else changes |
| PoolLists.RemoveOne | pkg/appsrv/workers.go:128-131 | removing a worker's entry removes that entry only |
| PoolLists.ScheduleLists | pkg/appsrv/workers.go:216-228 | starting a worker keeps lists, states and containers in agreement and the active list within the limit |
| PoolLists.DetachLists | pkg/appsrv/workers.go:88-94 | moving a worker in any state to the detached list keeps every live worker in the list its state names, with its container its entry, and the active list exact |
| PoolLists.DetachExactIffActive | pkg/appsrv/workers.go:88-94 | Detach keeps both lists exact iff the worker is still active |
| PoolLists.RemoveLists | pkg/appsrv/workers.go:185-194 | removing a worker from the list its state names keeps them in agreement |
| PoolLists.StepLists | pkg/appsrv/workers.go:69-99 | every step keeps: each live worker is in the list its state names and its container is its entry there, the active list is exact, ids are distinct, live goroutines plus repeated detachments are active plus detached entries |
| PoolLists.ExactIffNoRepeat | pkg/appsrv/workers.go:69-99 | both lists are exact, each live worker exactly once and live goroutines active plus detached, iff no Detach was repeated |
| PoolTasks.Conservation | pkg/appsrv/workers.go:69-86 | an accepted task is in exactly one of queued, finished, held by one worker; a rejected task is in none and never starts |
| PoolTasks.OnePopper | pkg/appsrv/workers.go:75-81 | no task is popped by two workers |
| PoolTasks.PopInOrder | pkg/appsrv/workers.go:75-81 | a pop takes the oldest accepted task not yet taken, which nobody holds and which never started |
| PoolTasks.HandOffTasks | pkg/appsrv/workers.go:78-81 | a hand-off starts the task once and keeps the accounts |
| PoolTasks.StepTasks | pkg/appsrv/workers.go:69-86 | every step keeps: pops in acceptance order, each popped task finished or with its popper, each task started at most once |
| PoolRuns.StepTold | pkg/appsrv/response.go:103-110 | the worker a request knows of is always the one that popped its task |
| PoolRuns.StepHanded | pkg/appsrv/workers.go:78-80 | each request gets at most one hand-off |
| PoolRuns.StepLastPop | pkg/appsrv/workers.go:71-75 | after being detached a worker pops at most one more task |
| PoolRuns.EveryRun | pkg/appsrv/workers.go:69-228 | all of the above hold in every state of every interleaving from a new pool, with at most workerCount active workers and workerCount times backlog queued tasks |
| PoolRuns.ListsExactIff | pkg/appsrv/workers.go:88-99 | after every run both lists are exact iff no timeout of the run met a worker detached before |
| PoolRuns.RepeatExample | pkg/appsrv/response.go:104-110 | one worker serves two requests and both time out: a legal run after which the worker is listed twice |
| PoolRuns.LiveIsRegistered | pkg/appsrv/workers.go:69-86 | a live worker that is neither offering itself nor gone can always take its next step |
| PoolRuns.NextStepIffNotStuck | pkg/appsrv/workers.go:75-81 | a live worker can take its next step iff it is not offering itself to a request that has gone |
| PoolRuns.StuckForever | pkg/appsrv/workers.go:78-80 | a worker that does stays there in every continuation |
| PoolRuns.StuckExample | pkg/appsrv/response.go:104-110 | a request times out while its task is queued: a legal run after which the worker that popped it is stuck |
| PoolRuns.TimeoutDetachesPopper | pkg/appsrv/response.go:104-110 | the worker a timeout detaches is the only one that ever popped that request's task |
| WorkerPool.SWorkerList.Add | pkg/appsrv/workers.go:123-126 | appends the worker and sets its container |
| WorkerPool.SWorkerList.Remove | pkg/appsrv/workers.go:128-131 | removes the container's element if it is of this list and clears the container |
| WorkerPool.SWorkerManager.constructor | pkg/appsrv/workers.go:149-163 | the objects show the initial state of the step system, with a queue of workerCount times backlog |
| WorkerPool.SWorkerManager.ScheduleLocked | pkg/appsrv/workers.go:216-228 | the objects move as scheduleWithLock of the step system; a worker is started iff the active list is shorter than workerCount and the queue is not empty |
| WorkerPool.SWorkerManager.Run | pkg/appsrv/workers.go:175-183 | accepted iff the queue has room; then queued last, and a worker started iff the active list is shorter than workerCount, which joins the workers of the manager; else nothing changes |
| WorkerPool.SWorkerManager.IsDetached | pkg/appsrv/workers.go:62-67 | whether the worker's state is detached |
| WorkerPool.SWorkerManager.Detach | pkg/appsrv/workers.go:88-99 | on a worker in any state the objects move as detach and reschedule of the step system; a worker is started, and joins, iff after the move the active list is shorter than workerCount and the queue is not empty; it panics iff the worker has been removed, and then nothing is moved |
| WorkerPool.SWorkerManager.RemoveLocked | pkg/appsrv/workers.go:185-194 | the objects move as the removal of the step system |
| Response.StepFaithful | pkg/appsrv/response.go:58-73 | every step keeps: relayed calls are the handler's first calls, and answered calls got the answer to that very call |
| Response.StepInStep | pkg/appsrv/response.go:97-142 | every step keeps handler and waiter in matching positions, in particular a handler awaiting an answer always has a waiter about to give it |
| Response.EveryRun | pkg/appsrv/response.go:97-130 | in every run the body at the backend is the concatenation of a prefix of the handler's Write arguments and every answer is the backend's count and error for that chunk |
| Response.OrderlyEndIsComplete | pkg/appsrv/response.go:113-128 | a wait that returns without timeout has relayed every call of the handler, all answered |
| Response.NothingAfterReturn | pkg/appsrv/appsrv.go:296-306 | once wait has returned no call of the handler reaches the backend in any continuation |
| Response.ClosingCloses | pkg/appsrv/response.go:97-142 | until handler and waiter are finished a step other than a new call or a timeout is enabled and leaves less to do |
| Response.CanAlwaysEnd | pkg/appsrv/appsrv.go:265-306 | from every reachable state both can end without a new call, and if there was no timeout everything written has then been relayed |
| Response.EveryRunPage | pkg/appsrv/appsrv.go:296-305 | in every run exactly one error page is written, and last, iff the wait timed out and has left; after a call that was not answered every later call is refused |
| Response.CallEffect | pkg/appsrv/response.go:58-73 | a call is refused at once on a closed stream, goes under way on an open one, and panics if the stream closes meanwhile |
| LbAgentRuns.StepWatcher | pkg/lbagent/hastate.go:75-124 | every step keeps: sent states are loaded ones, in order, none twice; between iterations a state is pending iff the last load is not the last one sent |
| LbAgentRuns.StepReceived | pkg/lbagent/api.go:84-94 | the states received are the states sent, in order |
| LbAgentRuns.StepHeard | pkg/lbagent/api.go:84-94 | the API helper goes by the last state it received |
| LbAgentRuns.StepExclusive | pkg/lbagent/api.go:381-407 | while a UseCorpus command is handled its sender waits for that command's WaitGroup, and corpus and params are those that were sent |
| LbAgentRuns.StepCommands | pkg/lbagent/haproxy.go:62-92 | the commands handled and the one in hand are the commands received, which are commands the API helper made, in that order, none twice and none changed |
| LbAgentRuns.StepNoneLost | pkg/lbagent/api.go:400-418 | unless the agent is cancelled every command made and no longer being sent has been received |
| LbAgentRuns.StepStops | pkg/lbagent/api.go:84-94 | every BACKUP received after the first state issues exactly one StopDaemons; only a cancelled agent may drop one |
| LbAgentRuns.StepMeant | pkg/lbagent/api.go:84-94 | a command in hand is StopDaemons iff a BACKUP was received; UseCorpus is for a sync or a state other than the recorded one |
| LbAgentCommands.EveryRunOwed | pkg/lbagent/api.go:74-94 | in every run the commands made are exactly those owed, in order: StopDaemons for each later BACKUP, UseCorpus for each other state that is new and each sync that is initial or changed something, if corpus and params are there |
| LbAgentCommands.TrySendEffect | pkg/lbagent/api.go:84-94 | a received state other than BACKUP that is new sends UseCorpus with the versions at hand, one that is known sends nothing, BACKUP sends StopDaemons |
| LbAgentCommands.SyncEffect | pkg/lbagent/api.go:74-83 | a sync gives the corpus a new version and the params one iff they changed, and sends UseCorpus iff it is initial or something changed and both are there |
| LbAgentCommands.RunSyncedFirst | pkg/lbagent/api.go:196-218 | unless cancelled, an API helper that serves has done the initial sync |
| LbAgentRuns.EveryRun | pkg/lbagent/api.go:59-99 | all of these hold in every state of every run, cancelled or not |
| LbAgentRuns.QuietMeansCurrent | pkg/lbagent/hastate.go:75-124 | with nothing pending and the API helper idle, its haState is CurrentState |
| LbAgentRuns.NoDeadlock | pkg/lbagent/api.go:196-218 | in every reachable state all three have exited, or the agent is not cancelled and rests with the state delivered, or a process has an enabled step that is neither a cancellation nor a change of the state file |
| LbAgentRuns.ClosingCloses | pkg/lbagent/haproxy.go:68-78 | in every cancelled state some step is enabled that leaves strictly less to do |
| LbAgentRuns.CanAlwaysEnd | pkg/lbagent/hastate.go:121-123 | from every reachable state there is a continuation in which all three exit |
| LbAgentRuns.CanAlwaysDeliver | pkg/lbagent/hastate.go:113-120 | from every reachable state that is not cancelled there is a continuation without cancellation to rest, and there haState is CurrentState |
| MsgTemplate.MsgToTemplate | pkg/httperrors/errors.go:29-69 | on every string the one-pass scanner yields the template of the string's tokens, read with lookahead |
| MsgTemplate.TokensSpell | pkg/httperrors/errors.go:29-69 | the tokens spell the message, so no character and no pending % is lost |
| MsgTemplate.TokensOfText | pkg/httperrors/errors.go:29-34 | a message in the simple grammar is read as the tokens it was built of |
| MsgTemplate.HoleCharacters | pkg/httperrors/errors.go:48-55 | the nineteen characters that make a hole when they follow a %, and no others |
| MsgTemplate.HolesInOrder | pkg/httperrors/errors.go:49-54 | in every message without { the holes of the template, read back, are numbered 0 to n-1 in order |
| MsgTemplate.BraceExample | pkg/httperrors/errors.go:29-34 | a { of the message can make a hole that no verb asked for |
| MsgTemplate.SubstituteFormats | pkg/httperrors/errors.go:29-83 | putting fields into the holes equals formatting, token by token |
| MsgTemplate.SubstitutingIsFormattingIff | pkg/httperrors/errors.go:29-83 | for all messages in the simple grammar with one param per verb substituting gives the formatted message, iff every verb prints every param as Sprint does |
| MsgTemplate.HexExample | pkg/httperrors/errors.go:71-83 | a verb and a param for which they differ |
| MsgTemplate.TextIsTemplate | pkg/httperrors/errors.go:71-83 | one such message agrees if its own verbs print its own params as the fields show them |
| MsgTemplate.LoneVerb | pkg/httperrors/errors.go:71-83 | for a single verb the two texts agree iff the verb prints its param as Sprint does |
| MsgTemplate.ErrorMessage | pkg/httperrors/errors.go:71-83 | text, template and fields; with params formatted as the fields show them the text is the template with its fields put in, without params it is iff there is nothing to format |
| MsgTemplate.NoParamsAgreesIff | pkg/httperrors/errors.go:78-80 | for every message: without params text and template agree iff the message has no %% and no % before a verb |
| MsgTemplate.UnformattedExample | pkg/httperrors/errors.go:78-80 | a message on which they differ |
| HeaderList.ParseHeaderList | pkg/appsrv/cors.go:71-113 | on every string the scanner yields the headers of the words between separators |
| HeaderList.Take | pkg/appsrv/cors.go:83-111 | one turn of the scanner: what is appended, flushed and expected next |
| HeaderList.KeepsFiltered | pkg/appsrv/cors.go:85-97 | of a word exactly the letters, digits, - and _ are kept, in order, and only their case may change |
| HeaderList.CanonicalAt | pkg/appsrv/cors.go:85-97 | a letter is in upper case at the start of a header and after - or _, else in lower case |
| HeaderList.CutWord | pkg/appsrv/cors.go:99-108 | a separator ends a word: the words are the split at spaces and commas |
| HeaderList.ParsesByWords | pkg/appsrv/cors.go:71-113 | on letters, digits, -, _, space and comma parsing is split, drop empties, canonicalise |
| HeaderList.ParsesByWordsIff | pkg/appsrv/cors.go:71-113 | on every string it is so iff no word that starts with a letter comes right after a word of which nothing was kept |
| HeaderList.CarriedExample | pkg/appsrv/cors.go:99-111 | a string on which the case carries over from one word to the next |
| HeaderList.FixedPointIff | pkg/appsrv/cors.go:71-113 | on every string joining the headers with ", " and parsing again changes nothing iff no letter that starts a header or follows a mark in it has a character that is not kept before it |
| HeaderList.FixedPoint | pkg/appsrv/cors.go:71-113 | on letters, digits, -, _, space and comma joining the headers with ", " and parsing again changes nothing |
| HeaderList.NotFixedExample | pkg/appsrv/cors.go:71-113 | a string outside that alphabet on which parsing again changes the header |
| Origins.Wildcard.Match | pkg/appsrv/cors.go:55-57 | the text is the prefix, anything, the suffix |
| Origins.Cors.constructor | pkg/appsrv/cors.go:191-216 | the two lists and the flag accept the same hosts as the configured entries |
| Origins.Cors.IsOriginAllowed | pkg/appsrv/cors.go:422-446 | the decision of the configured options, for every parsed or unparsable origin |
| Origins.AllowedIffGlobbed | pkg/appsrv/cors.go:422-446 | without a custom function a parsed host is allowed iff the list is empty or some entry globs it at its first * |
| Origins.OrderIrrelevant | pkg/appsrv/cors.go:191-216 | order and repetition of entries do not matter |
| Origins.CustomFunctionDecides | pkg/appsrv/cors.go:124-127 | whatever custom function is set decides alone on every host iff no entry is * |
| Origins.UnparsableAllowedIff | pkg/appsrv/cors.go:422-429 | an origin that does not parse is allowed iff some entry is * or nothing is configured |
| Origins.StarOverridesExample | pkg/appsrv/cors.go:422-425 | with the entry * a function that refuses everything is not heard |
| Stream.ReadFile | pkg/hostimage/image.go:120-134 | despite short reads, the next count bytes from the file's cursor, fewer only at its end |
| Stream.StartStream | pkg/hostimage/host_image_service.go:188-225 | the chunks are contiguous and never pass the range; without failure the bytes sent are those from the file's cursor on, all of the range iff its length is not 1 modulo 4096 |
| Stream.TilesInRange | pkg/hostimage/host_image_service.go:195-202 | each chunk lies in the range and ends where the next one starts |
| Stream.TilesDisjoint | pkg/hostimage/host_image_service.go:195-202 | chunks never overlap |
| Stream.WholeRangeIff | pkg/hostimage/host_image_service.go:195-198 | a complete stream sends every byte and its chunks tile the range iff the length is not 1 modulo 4096, else both stop one byte short |
| Stream.LastByteMissingExample | pkg/hostimage/host_image_service.go:195-198 | of the range 0 to 4096 exactly the first 4096 bytes are sent |
| Stream.FreshFileRightIffFromZero | pkg/hostimage/image.go:120-134 | on a fresh file the bytes from the cursor are those from the requested position on, for every content, iff it is 0 or nothing is sent |
| Stream.StreamRightIff | pkg/hostimage/host_image_service.go:188-225 | every complete stream of a range, from every fresh file that is long enough, sends exactly the bytes of the range iff it starts at 0 and its length is not 1 modulo 4096 |
| Stream.OffsetIgnoredExample | pkg/hostimage/image.go:120-134 | a range whose bytes are not the ones sent |
| Catalog.GetServiceURLs | pkg/mcclient/token3.go:282-333 | among the endpoints of the first non-empty service of the type: all URLs, in order, of those whose region id is region-zone (empty without a zone) and whose interface begins the endpoint type, internalURL by default; if there are none those of the region; else an error; never an empty list |
| Catalog.Group | pkg/mcclient/token3.go:299-311 | the map groups the wanted URLs by region id, in order |
| Catalog.UrlsInAny | pkg/mcclient/token3.go:297-311 | the plain filter picks the URLs of all fit endpoints in order of their positions, and none iff none is fit |
| Catalog.Chosen | pkg/mcclient/token3.go:286-290 | the first service of the type that has endpoints |
| Catalog.GetServiceURL | pkg/mcclient/token3.go:274-280 | any index below the number of URLs is legal and yields the URL of an endpoint fit for region and zone, or else for the region; no URL iff there is none; likewise for an empty region |
| Catalog.NotSeparableExample | pkg/mcclient/token3.go:257-272 | a region with a separator of its own comes back cut in two |
| Catalog.RegionZoneRoundTrip | pkg/mcclient/token3.go:257-272 | a region id splits back into region and zone iff the region is not confused with a separator |

## Left out

- Route tree: choosing the tree of an HTTP method (`pkg/appsrv/appsrv.go:114-127`) is a map lookup.
- Route tree: the meaning of regular expressions and the panic on one that does not compile; the engine is a parameter.
- Route tree: the slash-joined path strings that walk passes along are modelled as lists of edges.
- Statistics: durations are `real`, counters unbounded.
- Pool: liveness. An empty pop and the later removal are separate steps, and a hand-off blocks for good once its request has gone (`PoolRuns.StuckForever`); that every queued task runs is not claimed.
- Pool: wrap-around of the 64-bit worker id, logging, and the choice of pool by request method.
- WorkerPool: the unbounded loop of SWorker.run is modelled by the stages of the step system, not as a method.
- Response: closeChannels is one step; a race between two closers on its unprotected flag is not modelled. Flush, Hijack and Header bypass the relay.
- Response: the objects and channels themselves; goroutines and unbuffered channels are states and steps, since the language has neither.
- LbAgent: heartbeats, file watching, rendering, process control and the content of corpus and params; remote calls are steps with a free outcome. The parsing of the state file is not modelled, any state may be loaded.
- Pool: what becomes of a request whose Detach panics; it counts as returned.
- LbAgentRuns.NoDeadlock: assumes, as a step with a free outcome does, that remote calls return.
- MsgTemplate: formatting is modelled for messages in the simple grammar with one param per verb; formatting with missing or extra params and with flags or widths belongs to package fmt.
- HeaderList: characters are bytes below 128; the capacity estimate of the result is not modelled.
- Origins: URL parsing and lower-casing are parameters; methods, headers and the writing of response headers are not modelled.
- Stream: rate limiting, compression and qcow2 images; wrap-around of 64-bit positions.
- Catalog: the random index is any legal index; for an empty region the group is any one of those found, as map order is unspecified.
- Everything else in the repository: command line shells, cloud drivers, database models and plumbing over packages that would only add simple members.
