/**
 The relay of pkg/appsrv/response.go as a step system: one handler goroutine that
 writes, one request goroutine that waits, unbuffered channels between them, and
 channels that either of them may close.
 */
module Response {
  import opened Basics

  type Byte = nat
  type Error = Option<string>

  /** A call of the handler on its response writer, and of the relay on the backend. */
  datatype Op = Body(bytes: seq<Byte>) | Status(code: int)

  /** What the backend answers; WriteHeader answers nothing. */
  datatype Reply = Wrote(count: int, err: Error) | Done

  /** What a call of the handler came to: the backend's answer, an error for a closed stream, or a send that panicked. */
  datatype Result = Answered(reply: Reply) | Refused | Aborted

  datatype Handler =
    | Idle
    | Sending(op: Op)    // past the isClosed test, blocked in the send
    | Awaiting(op: Op)   // sent, blocked on the answer
    | Ended

  datatype Waiter =
    | Select
    | Relaying(op: Op)       // received, about to call the backend
    | Replying(reply: Reply) // sending the backend's answer back
    | Returned(timeout: bool)
    | Left(timeout: bool)    // has closed the channels and gone

  /** A call on the backend, by the relay or by the request goroutine itself. */
  datatype Event = Relay(op: Op, reply: Reply) | ErrorPage

  datatype State = State(
    handler: Handler,
    waiter: Waiter,
    closed: bool,
    ops: seq<Op>,          // calls of the handler so far
    results: seq<Result>,  // of the calls that have returned
    events: seq<Event>     // calls on the backend so far
  )

  datatype Step =
    | Call(op: Op)            // Write or WriteHeader, up to the send
    | Exchange                // the handler's send meets the select
    | CallBackend(reply: Reply)
    | Answer                  // the reply meets the handler
    | Panic                   // send on a closed channel
    | End                     // the handler returns and closes the channels
    | Timeout
    | SeeClosed               // the select receives from a closed channel
    | ReportTimeout           // error page of a timeout, then closeChannels
    | Leave                   // closeChannels after an orderly end

  const INIT := State(Idle, Select, false, [], [], [])

  predicate Matches(op: Op, reply: Reply) {
    op.Body? <==> reply.Wrote?
  }

  predicate Enabled(s: State, step: Step) {
    match step
    case Call(op) => s.handler.Idle?
    case Exchange => s.handler.Sending? && s.waiter.Select? && !s.closed
    case CallBackend(reply) => s.waiter.Relaying? && Matches(s.waiter.op, reply)
    case Answer => s.waiter.Replying? && s.handler.Awaiting? && !s.closed
    case Panic => s.handler.Sending? && s.closed
    case End => s.handler.Idle?
    case Timeout => s.waiter.Select?
    case SeeClosed => s.waiter.Select? && s.closed
    case ReportTimeout => s.waiter == Returned(true)
    case Leave => s.waiter == Returned(false)
  }

  function Apply(s: State, step: Step): State
    requires Enabled(s, step)
  {
    match step
    case Call(op) =>
      if s.closed then s.(ops := s.ops + [op], results := s.results + [Refused])
      else s.(ops := s.ops + [op], handler := Sending(op))
    case Exchange => s.(handler := Awaiting(s.handler.op), waiter := Relaying(s.handler.op))
    case CallBackend(reply) =>
      s.(events := s.events + [Relay(s.waiter.op, reply)], waiter := Replying(reply))
    case Answer => s.(handler := Idle, waiter := Select, results := s.results + [Answered(s.waiter.reply)])
    case Panic => s.(handler := Idle, results := s.results + [Aborted])
    case End => s.(handler := Ended, closed := true)
    case Timeout => s.(waiter := Returned(true))
    case SeeClosed => s.(waiter := Returned(false))
    case ReportTimeout => s.(events := s.events + [ErrorPage], waiter := Left(true), closed := true)
    case Leave => s.(waiter := Left(false), closed := true)
  }

  predicate Legal(s: State, steps: seq<Step>)
    decreases |steps|
  {
    steps == [] || (Enabled(s, steps[0]) && Legal(Apply(s, steps[0]), steps[1..]))
  }

  function Run(s: State, steps: seq<Step>): State
    requires Legal(s, steps)
    decreases |steps|
  {
    if steps == [] then s else Run(Apply(s, steps[0]), steps[1..])
  }

  // ---- What the backend has seen --------------------------------------------------

  /** The calls relayed to the backend, in order, with the answers. */
  function Relayed(events: seq<Event>): seq<(Op, Reply)> {
    if events == [] then []
    else
      var last := events[|events| - 1];
      Relayed(events[..|events| - 1]) + if last.Relay? then [(last.op, last.reply)] else []
  }

  /** The body those calls make: the bytes of every Body, concatenated. */
  function BodyOf(ops: seq<Op>): seq<Byte> {
    if ops == [] then []
    else BodyOf(ops[..|ops| - 1]) + if ops[|ops| - 1].Body? then ops[|ops| - 1].bytes else []
  }

  function OpsOf(calls: seq<(Op, Reply)>): (r: seq<Op>)
    ensures |r| == |calls| && forall i | 0 <= i < |r| :: r[i] == calls[i].0
  {
    if calls == [] then [] else OpsOf(calls[..|calls| - 1]) + [calls[|calls| - 1].0]
  }

  predicate Gone(w: Waiter) {
    w.Returned? || w.Left?
  }

  /** The relayed calls are the first calls of the handler, each with the answer the handler got for it. */
  ghost predicate Agree(sent: seq<(Op, Reply)>, ops: seq<Op>, results: seq<Result>) {
    && |sent| <= |ops| && |results| <= |ops|
    && (forall i | 0 <= i < |sent| :: sent[i].0 == ops[i])
    && (forall i | 0 <= i < |results| && i < |sent| :: results[i] == Answered(sent[i].1))
    && (forall i | |sent| <= i < |results| :: !results[i].Answered?)
  }

  ghost predicate Faithful(s: State) {
    Agree(Relayed(s.events), s.ops, s.results)
  }

  /** Where the two goroutines stand relative to each other. */
  ghost predicate InStep(s: State) {
    var k, n := |Relayed(s.events)|, |s.ops|;
    && (s.waiter.Left? ==> s.closed)
    && (Gone(s.waiter) && !s.waiter.timeout ==> s.handler.Ended? && k == n)
    && match s.handler
       case Idle => |s.results| == n && (s.waiter.Select? || Gone(s.waiter)) && (s.waiter.Select? ==> !s.closed && k == n)
       case Sending(op) => |s.results| == n - 1 && s.ops[n - 1] == op && k < n
                           && (s.waiter.Select? || Gone(s.waiter)) && (s.waiter.Select? ==> !s.closed && k == n - 1)
       case Awaiting(op) => |s.results| == n - 1 && s.ops[n - 1] == op && !s.closed &&
         (match s.waiter
          case Relaying(o) => o == op && k == n - 1
          case Replying(reply) => k == n && Relayed(s.events)[n - 1].1 == reply
          case _ => false)
       case Ended => |s.results| == n && s.closed && (s.waiter.Select? || Gone(s.waiter)) && (s.waiter.Select? ==> k == n)
  }

  ghost predicate Invariant(s: State) {
    Faithful(s) && InStep(s)
  }

  /** The calls relayed after one step. */
  lemma RelayedAfter(s: State, step: Step)
    requires Enabled(s, step)
    ensures Relayed(Apply(s, step).events) ==
            Relayed(s.events) + if step.CallBackend? then [(s.waiter.op, step.reply)] else []
  {
  }

  lemma StepFaithful(s: State, step: Step)
    requires Invariant(s) && Enabled(s, step)
    ensures Faithful(Apply(s, step))
  {
    var sent, s' := Relayed(s.events), Apply(s, step);
    RelayedAfter(s, step);
    match step
    case Call(op) => AgreeCall(sent, s.ops, s.results, op, s'.results);
    case CallBackend(reply) => AgreeRelay(sent, s.ops, s.results, (s.waiter.op, reply));
    case Answer => AgreeResult(sent, s.ops, s.results, Answered(s.waiter.reply));
    case Panic => AgreeResult(sent, s.ops, s.results, Aborted);
    case _ => assert Relayed(s'.events) == sent;
  }

  lemma AgreeCall(sent: seq<(Op, Reply)>, ops: seq<Op>, results: seq<Result>, op: Op, results': seq<Result>)
    requires Agree(sent, ops, results) && (results' == results || (results' == results + [Refused] && |sent| <= |results|))
    ensures Agree(sent, ops + [op], results')
  {
  }

  lemma AgreeRelay(sent: seq<(Op, Reply)>, ops: seq<Op>, results: seq<Result>, call: (Op, Reply))
    requires Agree(sent, ops, results) && |results| <= |sent| < |ops| && ops[|sent|] == call.0
    ensures Agree(sent + [call], ops, results)
  {
  }

  lemma AgreeResult(sent: seq<(Op, Reply)>, ops: seq<Op>, results: seq<Result>, result: Result)
    requires Agree(sent, ops, results) && |results| < |ops|
    requires if |results| < |sent| then result == Answered(sent[|results|].1) else !result.Answered?
    ensures Agree(sent, ops, results + [result])
  {
  }

  lemma StepInStep(s: State, step: Step)
    requires Invariant(s) && Enabled(s, step)
    ensures InStep(Apply(s, step))
  {
  }

  lemma StepKeeps(s: State, step: Step)
    requires Invariant(s) && Enabled(s, step)
    ensures Invariant(Apply(s, step))
  {
    StepFaithful(s, step);
    StepInStep(s, step);
  }

  lemma {:induction false} RunKeeps(s: State, steps: seq<Step>)
    requires Invariant(s) && Legal(s, steps)
    ensures Invariant(Run(s, steps))
    decreases |steps|
  {
    if steps != [] {
      StepKeeps(s, steps[0]);
      RunKeeps(Apply(s, steps[0]), steps[1..]);
    }
  }

  /** The body of the first calls is a prefix of the body of all of them. */
  lemma {:induction false} BodyPrefix(ops: seq<Op>, k: nat)
    requires k <= |ops|
    ensures BodyOf(ops[..k]) <= BodyOf(ops)
    decreases |ops|
  {
    if k < |ops| {
      BodyPrefix(ops[..|ops| - 1], k);
      assert ops[..|ops| - 1][..k] == ops[..k];
    } else {
      assert ops[..k] == ops;
    }
  }

  /**
   Every run: what reaches the backend through the relay is a prefix of the handler's
   calls, so the body is the concatenation of a prefix of the Write arguments, and
   every call that was answered got the backend's answer to that very call.
   */
  lemma EveryRun(steps: seq<Step>)
    requires Legal(INIT, steps)
    ensures var s := Run(INIT, steps);
            OpsOf(Relayed(s.events)) <= s.ops && BodyOf(OpsOf(Relayed(s.events))) <= BodyOf(s.ops)
    ensures var s := Run(INIT, steps);
            forall i | 0 <= i < |s.results| && s.results[i].Answered? ::
              i < |s.ops| && i < |Relayed(s.events)| && Relayed(s.events)[i] == (s.ops[i], s.results[i].reply)
  {
    RunKeeps(INIT, steps);
    var s := Run(INIT, steps);
    var sent := Relayed(s.events);
    assert OpsOf(sent) == s.ops[..|sent|];
    BodyPrefix(s.ops, |sent|);
  }

  /** A wait that returns without a timeout has relayed everything: the backend has the whole body, all of it answered. */
  lemma OrderlyEndIsComplete(steps: seq<Step>)
    requires Legal(INIT, steps) && Gone(Run(INIT, steps).waiter) && !Run(INIT, steps).waiter.timeout
    ensures var s := Run(INIT, steps); OpsOf(Relayed(s.events)) == s.ops && |s.results| == |s.ops|
    ensures forall i | 0 <= i < |Run(INIT, steps).results| :: Run(INIT, steps).results[i].Answered?
  {
    RunKeeps(INIT, steps);
    AllRelayed(Run(INIT, steps));
  }

  /** After the wait has returned, for whatever reason, no call of the handler reaches the backend any more. */
  lemma {:induction false} NothingAfterReturn(s: State, steps: seq<Step>)
    requires Legal(s, steps) && Gone(s.waiter)
    ensures Gone(Run(s, steps).waiter) && Relayed(Run(s, steps).events) == Relayed(s.events)
    decreases |steps|
  {
    if steps != [] {
      RelayedAfter(s, steps[0]);
      NothingAfterReturn(Apply(s, steps[0]), steps[1..]);
    }
  }

  // ---- Both goroutines can always come to their end ------------------------------------------

  predicate Finished(s: State) {
    s.handler.Ended? && s.waiter.Left?
  }

  /** The step that brings the two closer to their end: no new call of the handler, no timeout. */
  function Closing(s: State): Step {
    match s.waiter
    case Relaying(op) => CallBackend(if op.Body? then Wrote(0, None) else Done)
    case Replying(_) => Answer
    case Returned(timeout) => if timeout then ReportTimeout else Leave
    case Select => if s.handler.Sending? then Exchange else if s.handler.Idle? then End else SeeClosed
    case Left(_) => if s.handler.Sending? then Panic else End
  }

  function Work(s: State): nat {
    (match s.handler case Sending(_) => 10 case Awaiting(_) => 5 case Idle => 1 case Ended => 0)
    + (match s.waiter case Relaying(_) => 5 case Replying(_) => 4 case Select => 3 case Returned(_) => 1 case Left(_) => 0)
  }

  /** No deadlock: until both are finished a step other than a new call or a timeout is enabled, and it leaves less to do. */
  lemma ClosingCloses(s: State)
    requires InStep(s) && !Finished(s)
    ensures Enabled(s, Closing(s)) && !Closing(s).Call? && !Closing(s).Timeout?
    ensures Work(Apply(s, Closing(s))) < Work(s)
    ensures TimedOut(Apply(s, Closing(s))) == TimedOut(s) && Apply(s, Closing(s)).ops == s.ops
  {
  }

  predicate TimedOut(s: State) {
    Gone(s.waiter) && s.waiter.timeout
  }

  lemma {:induction false} Drain(s: State) returns (steps: seq<Step>)
    requires Invariant(s)
    ensures Legal(s, steps) && Finished(Run(s, steps)) && Invariant(Run(s, steps))
    ensures TimedOut(Run(s, steps)) == TimedOut(s) && Run(s, steps).ops == s.ops
    decreases Work(s)
  {
    steps := [];
    if !Finished(s) {
      ClosingCloses(s);
      StepKeeps(s, Closing(s));
      var rest := Drain(Apply(s, Closing(s)));
      steps := [Closing(s)] + rest;
      assert steps[1..] == rest;
    }
  }

  /**
   From every reachable state there is a continuation, without any new call of the handler, in which the
   handler ends and the waiter leaves; if the wait has not timed out, everything the handler wrote has then
   been relayed.
   */
  lemma CanAlwaysEnd(steps: seq<Step>) returns (more: seq<Step>)
    requires Legal(INIT, steps)
    ensures Legal(Run(INIT, steps), more) && Finished(Run(Run(INIT, steps), more))
    ensures var s, s' := Run(INIT, steps), Run(Run(INIT, steps), more);
            !TimedOut(s) ==> OpsOf(Relayed(s'.events)) == s.ops && BodyOf(OpsOf(Relayed(s'.events))) == BodyOf(s.ops)
  {
    RunKeeps(INIT, steps);
    more := Drain(Run(INIT, steps));
    var s' := Run(Run(INIT, steps), more);
    if !TimedOut(s') { AllRelayed(s'); }
  }

  lemma AllRelayed(s: State)
    requires Invariant(s) && Gone(s.waiter) && !s.waiter.timeout
    ensures OpsOf(Relayed(s.events)) == s.ops && |s.results| == |s.ops|
    ensures forall i | 0 <= i < |s.results| :: s.results[i].Answered?
  {
    assert OpsOf(Relayed(s.events)) == s.ops;
  }

  // ---- The error page, and calls that were not answered ----------------------------------------

  function Pages(events: seq<Event>): nat {
    if events == [] then 0 else Pages(events[..|events| - 1]) + if events[|events| - 1].ErrorPage? then 1 else 0
  }

  /** One error page iff the wait timed out and has left, and nothing after it. */
  ghost predicate PageOk(s: State) {
    && Pages(s.events) == (if s.waiter == Left(true) then 1 else 0)
    && (s.waiter == Left(true) ==> s.events != [] && s.events[|s.events| - 1].ErrorPage?)
  }

  /** A call not answered means a closed stream, and from then on every call is refused; only the first may have been under way. */
  ghost predicate RefusedAfter(s: State) {
    && (forall i, j | 0 <= i < j < |s.results| && !s.results[i].Answered? :: s.results[j].Refused?)
    && (forall i | 0 <= i < |s.results| && !s.results[i].Answered? :: s.closed && !s.handler.Sending? && !s.handler.Awaiting?)
  }

  lemma PagesNext(events: seq<Event>, e: Event)
    ensures Pages(events + [e]) == Pages(events) + if e.ErrorPage? then 1 else 0
  {
    assert (events + [e])[..|events|] == events;
  }

  lemma StepPage(s: State, step: Step)
    requires PageOk(s) && Enabled(s, step)
    ensures PageOk(Apply(s, step))
  {
    match step
    case CallBackend(reply) => PagesNext(s.events, Relay(s.waiter.op, reply));
    case ReportTimeout => PagesNext(s.events, ErrorPage);
    case _ =>
  }

  lemma StepRefused(s: State, step: Step)
    requires RefusedAfter(s) && InStep(s) && Enabled(s, step)
    ensures RefusedAfter(Apply(s, step))
  {
  }

  lemma {:induction false} RunPage(s: State, steps: seq<Step>)
    requires Invariant(s) && PageOk(s) && RefusedAfter(s) && Legal(s, steps)
    ensures PageOk(Run(s, steps)) && RefusedAfter(Run(s, steps))
    decreases |steps|
  {
    if steps != [] {
      StepKeeps(s, steps[0]);
      StepPage(s, steps[0]);
      StepRefused(s, steps[0]);
      RunPage(Apply(s, steps[0]), steps[1..]);
    }
  }

  /** In every run: the error page of a timeout is written exactly once, last, and calls after the close are refused. */
  lemma EveryRunPage(steps: seq<Step>)
    requires Legal(INIT, steps)
    ensures PageOk(Run(INIT, steps)) && RefusedAfter(Run(INIT, steps))
  {
    RunPage(INIT, steps);
  }

  /** A call is refused at once on a closed stream, goes under way on an open one, and panics if the stream closes meanwhile. */
  lemma CallEffect(s: State, op: Op)
    ensures Enabled(s, Call(op)) && s.closed ==>
      Apply(s, Call(op)).handler.Idle? && Apply(s, Call(op)).results == s.results + [Refused]
    ensures Enabled(s, Call(op)) && !s.closed ==>
      Apply(s, Call(op)).handler == Sending(op) && Apply(s, Call(op)).results == s.results
    ensures Enabled(s, Panic) ==> Apply(s, Panic).results == s.results + [Aborted]
  {
  }
}
