/** What each step of the pool does, said of the state before and after it. */
module PoolEffects {
  import opened Basics
  import opened PoolSteps
  import opened PoolLists

  /** One goroutine more, at the start of its loop, and one entry more at the end of the active list. */
  ghost predicate StartsOne(active: seq<Entry>, stages: map<Id, Stage>, s': Pool) {
    exists e: Entry ::
      && s'.manager.active == active + [e]
      && e.worker !in stages && s'.stages == stages[e.worker := Checking]
      && e.worker in s'.manager.workers && s'.manager.workers[e.worker].mode == Active
  }

  /** With work queued and a place free exactly one worker is started, otherwise none. */
  ghost predicate StartsIfNeeded(queue: seq<Task>, limit: nat, active: seq<Entry>, stages: map<Id, Stage>, s': Pool) {
    if queue != [] && |active| < limit then StartsOne(active, stages, s')
    else s'.manager.active == active && s'.stages == stages
  }

  lemma SchedulesEffect(s: Pool)
    requires AllListed(s.manager) && s.stages.Keys == s.manager.workers.Keys
    ensures StartsIfNeeded(s.queue, s.manager.limit, s.manager.active, s.stages, Schedules(s))
    ensures Schedules(s).log == s.log && Schedules(s).manager.detached == s.manager.detached
    ensures forall w | w in s.manager.workers :: w in Schedules(s).manager.workers && Schedules(s).manager.workers[w] == s.manager.workers[w]
    ensures Schedules(s).waits == s.waits && Schedules(s).queue == s.queue
  {
    NewIdIsFree(s.manager);
    if s.queue != [] && |s.manager.active| < s.manager.limit {
      assert Schedules(s).manager.active == s.manager.active + [Entry(s.manager.nextElem, s.manager.lastId + 1)];
    }
  }

  /** schedule */
  lemma ScheduleEffect(s: Pool)
    requires PoolOk(s) && Enabled(s, Schedule)
    ensures StartsIfNeeded(s.queue, s.manager.limit, s.manager.active, s.stages, Apply(s, Schedule))
    ensures Apply(s, Schedule).queue == s.queue
  {
    SchedulesEffect(s.(unscheduled := s.unscheduled - 1));
  }

  /** The active list without the entry of one worker. */
  function Without(list: seq<Entry>, w: Id): seq<Entry> {
    if list == [] then []
    else Without(list[..|list| - 1], w) + if list[|list| - 1].worker == w then [] else [list[|list| - 1]]
  }

  lemma {:induction false} WithoutOther(list: seq<Entry>, w: Id)
    requires forall i | 0 <= i < |list| :: list[i].worker != w
    ensures Without(list, w) == list
  {
    if list != [] {
      var init, last := list[..|list| - 1], list[|list| - 1];
      WithoutOther(init, w);
      assert list == init + [last];
      assert Without(list, w) == Without(init, w) + [last];
    }
  }

  lemma {:induction false} WithoutOnly(list: seq<Entry>, i: nat)
    requires i < |list| && forall j | 0 <= j < |list| && j != i :: list[j].worker != list[i].worker
    ensures Without(list, list[i].worker) == list[..i] + list[i + 1..]
    decreases |list|
  {
    var n := |list| - 1;
    if i == n {
      WithoutOther(list[..n], list[n].worker);
    } else {
      WithoutOnly(list[..n], i);
      assert list[..n][..i] == list[..i];
      assert list[i + 1..] == list[..n][i + 1..] + [list[n]];
    }
  }

  lemma OwnedOnce(m: Manager, i: nat, j: nat)
    requires AllOwned(m, Active, m.active) && Distinct(m.active, m.nextElem) && i < |m.active| && j < |m.active| && i != j
    ensures m.active[i].worker != m.active[j].worker
  {
    assert Owned(m, Active, m.active[i]) && Owned(m, Active, m.active[j]);
  }

  /** Removing a worker's only entry leaves the list of the others. */
  lemma {:induction false} RemovedIsWithout(m: Manager, elem: nat, w: Id)
    requires AllOwned(m, Active, m.active) && Distinct(m.active, m.nextElem) && Entry(elem, w) in m.active
    ensures RemoveEntry(m.active, elem) == Without(m.active, w)
  {
    var i :| 0 <= i < |m.active| && m.active[i] == Entry(elem, w);
    RemoveFound(m.active, elem, i);
    forall j | 0 <= j < |m.active| && j != i ensures m.active[j].worker != m.active[i].worker { OwnedOnce(m, i, j); }
    WithoutOnly(m.active, i);
  }

  lemma ActiveWithout(m: Manager, w: Id)
    requires Fits(m) && Registered(m, w)
    ensures MoveToDetached(m, w).active == Without(m.active, w)
  {
    assert Listed(m, w);
    if m.workers[w].mode == Active {
      RemovedIsWithout(m, m.workers[w].container.value.elem, w);
    } else {
      NotInList(m, Active, m.active, w);
      WithoutOther(m.active, w);
    }
  }

  lemma LastEntry(list: seq<Entry>, e: Entry)
    ensures e in list + [e]
  {
    assert (list + [e])[|list|] == e;
  }

  /** What Detach has done before it schedules. */
  lemma MovedEffect(s: Pool, t: Task, w: Id)
    requires PoolOk(s) && Registered(s.manager, w)
    ensures var s' := Moved(s, t, w);
      && AllListed(s'.manager) && s'.stages == s.stages && s'.manager.workers.Keys == s.manager.workers.Keys
      && s'.waits == s.waits[t := Returned] && s'.queue == s.queue && s'.manager.limit == s.manager.limit
      && s'.manager.workers[w].mode == Detached && Entry(s.manager.nextElem, w) in s'.manager.detached
      && s'.manager.active == Without(s.manager.active, w)
      && s'.log.extra == (if w in s.log.extra then s.log.extra else s.log.extra[w := 0])
  {
    DetachLists(s.manager, w);
    ActiveWithout(s.manager, w);
    LastEntry(s.manager.detached, Entry(s.manager.nextElem, w));
  }

  /**
   A timeout that knows of a live worker: the request has returned, the worker is detached and listed so,
   no longer among the active, and a worker is started in its place if there is work and room.
   */
  lemma TimeoutEffect(s: Pool, t: Task, w: Id)
    requires PoolOk(s) && Enabled(s, Timeout(t)) && s.waits[t].worker == Some(w) && w in s.stages
    ensures var s' := Apply(s, Timeout(t));
      && s'.waits[t].Returned? && s'.queue == s.queue
      && w in s'.manager.workers && s'.manager.workers[w].mode == Detached
      && (exists e :: e in s'.manager.detached && e.worker == w)
      && StartsIfNeeded(s.queue, s.manager.limit, Without(s.manager.active, w), s.stages, s')
      && s'.log.extra == (if w in s.log.extra then s.log.extra else s.log.extra[w := 0])
  {
    assert Listed(s.manager, w);
    var moved := Moved(s, t, w);
    MovedEffect(s, t, w);
    SchedulesEffect(moved);
    assert Apply(s, Timeout(t)) == Schedules(moved);
    assert Entry(s.manager.nextElem, w) in moved.manager.detached;
  }

  /** A timeout that knows of no worker, or of one that has gone, only ends the wait. */
  lemma TimeoutAlone(s: Pool, t: Task)
    requires PoolOk(s) && Enabled(s, Timeout(t)) && (s.waits[t].worker.Some? ==> s.waits[t].worker.value !in s.stages)
    ensures Apply(s, Timeout(t)) == s.(waits := s.waits[t := Returned])
  {
  }

  /** Run: accepted and queued last while the queue has room, otherwise rejected. */
  lemma SubmitEffect(s: Pool, t: Task, withChannel: bool)
    requires Enabled(s, Submit(t, withChannel))
    ensures var s' := Apply(s, Submit(t, withChannel));
      && (t in s'.waits <==> withChannel)
      && if |s.queue| < s.capacity
         then s'.queue == s.queue + [t] && t in s'.log.accepted && t !in s'.log.rejected && s'.unscheduled == s.unscheduled + 1
         else s'.queue == s.queue && t !in s'.log.accepted && t in s'.log.rejected && s'.unscheduled == s.unscheduled
  {
    if |s.queue| < s.capacity { assert (s.log.accepted + [t])[|s.log.accepted|] == t; }
  }

  /**
   The loop of SWorker.run: an active worker goes on to the queue, a detached one leaves; an empty queue
   ends the loop, otherwise the oldest task is taken; after a task the loop starts again.
   */
  lemma LoopEffect(s: Pool, w: Id)
    requires w in s.stages && w in s.manager.workers
    ensures s.stages[w].Checking? ==>
      Apply(s, Check(w)) == s.(stages := s.stages[w := if s.manager.workers[w].mode == Active then Popping else Leaving])
    ensures s.stages[w].Popping? && s.queue == [] ==> Apply(s, Pop(w)) == s.(stages := s.stages[w := Leaving])
    ensures s.stages[w].Popping? && s.queue != [] ==>
      var s' := Apply(s, Pop(w));
      && s.queue == [s'.log.taken[|s.log.taken|].0] + s'.queue && s'.log.taken[|s.log.taken|].1 == w
      && s'.stages[w] == (if s.queue[0] in s.waits then Offering(s.queue[0]) else Running(s.queue[0]))
      && s'.log.extra == (if w in s.log.extra then s.log.extra[w := s.log.extra[w] + 1] else s.log.extra)
      && s'.log.started == s.log.started + (if s.queue[0] in s.waits then [] else [s.queue[0]])
    ensures s.stages[w].Running? ==>
      Apply(s, Finish(w)).stages[w].Checking? && Apply(s, Finish(w)).log.finished == s.log.finished + {s.stages[w].task}
  {
  }

  /** The other rendezvous: a hand-off tells the request of the worker, and a closed stream ends the wait. */
  lemma RequestEffect(s: Pool, t: Task, w: Id)
    ensures Enabled(s, HandOff(w)) && s.stages[w].task == t ==>
      && Apply(s, HandOff(w)).waits[t] == Waiting(Some(w)) && Apply(s, HandOff(w)).stages[w] == Running(t)
      && Apply(s, HandOff(w)).log.handed == s.log.handed + [(t, w)] && Apply(s, HandOff(w)).log.started == s.log.started + [t]
    ensures Enabled(s, Close(t)) ==> Apply(s, Close(t)) == s.(waits := s.waits[t := Returned])
  {
  }

  /** removeWorker: the goroutine is gone and so is its worker. */
  lemma RemoveEffect(s: Pool, w: Id)
    requires PoolOk(s) && Enabled(s, Remove(w))
    ensures var s' := Apply(s, Remove(w));
      && s'.stages.Keys == s.stages.Keys - {w} && w !in s'.manager.workers
      && s'.queue == s.queue && s'.log == s.log && s'.waits == s.waits
      && |s'.manager.active| + |s'.manager.detached| == |s.manager.active| + |s.manager.detached| - 1
  {
    RemoveCounts(s.manager, w);
  }
}
