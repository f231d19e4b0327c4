/** The active and detached lists of the pool, over every run. */
module PoolLists {
  import opened Basics
  import opened PoolSteps

  /** Every live worker is in the list its state names, and its container is its entry there. */
  ghost predicate Listed(m: Manager, w: Id)
    requires w in m.workers
  {
    var x := m.workers[w];
    && 1 <= w <= m.lastId
    && x.container.Some? && x.container.value.list == x.mode
    && Entry(x.container.value.elem, w) in (if x.mode == Active then m.active else m.detached)
  }

  /** An entry of a list belongs to a live worker that has it as container. */
  ghost predicate Owned(m: Manager, name: Mode, e: Entry) {
    e.worker in m.workers && m.workers[e.worker] == Worker(name, Some(Place(name, e.elem)))
  }

  /** The elements are different ones, all made before `next`. */
  ghost predicate Distinct(list: seq<Entry>, next: nat) {
    && (forall i | 0 <= i < |list| :: list[i].elem < next)
    && (forall i, j | 0 <= i < j < |list| :: list[i].elem != list[j].elem)
  }

  ghost predicate AllListed(m: Manager) {
    forall w | w in m.workers :: Listed(m, w)
  }

  ghost predicate AllOwned(m: Manager, name: Mode, list: seq<Entry>) {
    forall e | e in list :: Owned(m, name, e)
  }

  /** What holds in every run: the active list is exact, the detached list has an entry for every detached worker. */
  ghost predicate Fits(m: Manager) {
    && AllListed(m) && AllOwned(m, Active, m.active)
    && Distinct(m.active, m.nextElem) && Distinct(m.detached, m.nextElem)
    && |m.active| <= m.limit
  }

  /** Both lists are exact: their entries are the live workers, each once, in the list its state names. */
  ghost predicate ListsOk(m: Manager) {
    && Fits(m) && AllOwned(m, Detached, m.detached)
    && |m.workers| == |m.active| + |m.detached|
  }

  /** The goroutines alive are the workers; the detached list has one entry too many for each repeated Detach. */
  ghost predicate PoolOk(s: Pool) {
    var m := s.manager;
    && Fits(m) && s.stages.Keys == m.workers.Keys
    && |m.workers| + s.log.repeats == |m.active| + |m.detached|
    && (s.log.repeats == 0 ==> AllOwned(m, Detached, m.detached))
  }

  // ---- Lists without one entry ------------------------------------------------

  lemma WithoutAt(list: seq<Entry>, next: nat, i: nat)
    requires Distinct(list, next) && i < |list|
    ensures Distinct(list[..i] + list[i + 1..], next)
    ensures forall e | e in list && e.elem != list[i].elem :: e in list[..i] + list[i + 1..]
    ensures forall e | e in list[..i] + list[i + 1..] :: e in list && e.elem != list[i].elem
  {
    var rest := list[..i] + list[i + 1..];
    assert forall j | 0 <= j < |rest| :: rest[j] == list[if j < i then j else j + 1];
    forall e | e in list && e.elem != list[i].elem ensures e in rest {
      var j :| 0 <= j < |list| && list[j] == e;
      assert rest[if j < i then j else j - 1] == e;
    }
  }

  /** Removing a worker's entry removes that entry only and keeps the others in order. */
  lemma {:induction false} RemoveOne(list: seq<Entry>, next: nat, elem: nat, w: Id)
    requires Distinct(list, next) && Entry(elem, w) in list
    ensures Distinct(RemoveEntry(list, elem), next) && |RemoveEntry(list, elem)| == |list| - 1
    ensures forall e | e in list && e.elem != elem :: e in RemoveEntry(list, elem)
    ensures forall e | e in RemoveEntry(list, elem) :: e in list && e.elem != elem
  {
    var i :| 0 <= i < |list| && list[i] == Entry(elem, w);
    RemoveFound(list, elem, i);
    WithoutAt(list, next, i);
  }

  /** In a list of owned entries no worker has two. */
  lemma OneEntryEach(m: Manager, name: Mode, list: seq<Entry>, elem: nat, w: Id)
    requires AllOwned(m, name, list) && Owned(m, name, Entry(elem, w))
    ensures forall e | e in list && e.worker == w :: e.elem == elem
  {
    forall e | e in list && e.worker == w ensures e.elem == elem { assert Owned(m, name, e); }
  }

  // ---- Every critical section keeps the lists ---------------------------------

  lemma NewIdIsFree(m: Manager)
    requires AllListed(m)
    ensures m.lastId + 1 !in m.workers
  {
  }

  /** Entries of other workers stay owned when one worker changes. */
  lemma OthersOwned(m: Manager, m': Manager, name: Mode, list: seq<Entry>, w: Id)
    requires AllOwned(m, name, list)
    requires forall e | e in list :: e.worker != w
    requires forall v | v in m.workers && v != w :: v in m'.workers && m'.workers[v] == m.workers[v]
    ensures AllOwned(m', name, list)
  {
  }

  /** Workers in the other list, or in none, have no entry in this one. */
  lemma NotInList(m: Manager, name: Mode, list: seq<Entry>, w: Id)
    requires AllOwned(m, name, list) && (w !in m.workers || m.workers[w].mode != name)
    ensures forall e | e in list :: e.worker != w
  {
  }

  lemma ScheduleLists(m: Manager, queued: nat)
    requires Fits(m)
    ensures Fits(ScheduleWithLock(m, queued))
    ensures AllOwned(m, Detached, m.detached) ==> AllOwned(ScheduleWithLock(m, queued), Detached, m.detached)
  {
    if HasRoom(m, queued) {
      var m', id := ScheduleWithLock(m, queued), m.lastId + 1;
      NewIdIsFree(m);
      assert AllListed(m') by {
        assert m'.active[|m.active|] == Entry(m.nextElem, id);
        forall w | w in m'.workers ensures Listed(m', w) { assert w != id ==> Listed(m, w); }
      }
      NotInList(m, Active, m.active, id);
      OthersOwned(m, m', Active, m.active, id);
      if AllOwned(m, Detached, m.detached) {
        NotInList(m, Detached, m.detached, id);
        OthersOwned(m, m', Detached, m.detached, id);
      }
    }
  }

  /** No other worker has its entry at this worker's element. */
  lemma OtherElem(m: Manager, v: Id, w: Id)
    requires AllListed(m) && v in m.workers && w in m.workers && v != w && m.workers[v].mode == m.workers[w].mode
    requires Distinct(m.active, m.nextElem) && Distinct(m.detached, m.nextElem)
    ensures Listed(m, v) && Listed(m, w) && m.workers[v].container.value.elem != m.workers[w].container.value.elem
  {
    assert Listed(m, v) && Listed(m, w);
  }

  lemma OtherListed(m: Manager, w: Id, v: Id)
    requires Fits(m) && Registered(m, w) && v in m.workers && v != w
    ensures Listed(MoveToDetached(m, w), v)
  {
    assert Listed(m, w) && Listed(m, v);
    if m.workers[w].mode == Active {
      RemoveOne(m.active, m.nextElem, m.workers[w].container.value.elem, w);
      if m.workers[v].mode == Active { OtherElem(m, v, w); }
    }
  }

  lemma DetachListed(m: Manager, w: Id)
    requires Fits(m) && Registered(m, w)
    ensures AllListed(MoveToDetached(m, w)) && Distinct(MoveToDetached(m, w).active, m.nextElem)
    ensures |MoveToDetached(m, w).active| <= |m.active|
  {
    var m' := MoveToDetached(m, w);
    forall v | v in m'.workers ensures Listed(m', v) {
      if v == w {
        assert Listed(m, w);
        assert m'.detached[|m.detached|] == Entry(m.nextElem, w);
      } else {
        OtherListed(m, w, v);
      }
    }
    DetachActive(m, w);
  }

  lemma DetachActive(m: Manager, w: Id)
    requires Fits(m) && Registered(m, w)
    ensures Distinct(MoveToDetached(m, w).active, m.nextElem) && |MoveToDetached(m, w).active| <= |m.active|
  {
    assert Listed(m, w);
    if m.workers[w].mode == Active { RemoveOne(m.active, m.nextElem, m.workers[w].container.value.elem, w); }
  }

  lemma DetachOwned(m: Manager, w: Id)
    requires Fits(m) && Registered(m, w)
    ensures AllOwned(MoveToDetached(m, w), Active, MoveToDetached(m, w).active)
  {
    assert Listed(m, w);
    var elem := m.workers[w].container.value.elem;
    if m.workers[w].mode == Active {
      RemoveOne(m.active, m.nextElem, elem, w);
      OneEntryEach(m, Active, m.active, elem, w);
    } else {
      NotInList(m, Active, m.active, w);
    }
    OthersOwned(m, MoveToDetached(m, w), Active, MoveToDetached(m, w).active, w);
  }

  lemma DetachLists(m: Manager, w: Id)
    requires Fits(m) && Registered(m, w)
    ensures Fits(MoveToDetached(m, w))
  {
    DetachListed(m, w);
    DetachOwned(m, w);
  }

  /** An active worker moves from one list to the other; a detached one gets a second entry. */
  lemma DetachCounts(m: Manager, w: Id)
    requires Fits(m) && Registered(m, w)
    ensures var m' := MoveToDetached(m, w);
            && m'.workers.Keys == m.workers.Keys
            && |m'.active| + |m'.detached| == |m.active| + |m.detached| + if m.workers[w].mode == Active then 0 else 1
    ensures AllOwned(m, Detached, m.detached) && m.workers[w].mode == Active ==>
              AllOwned(MoveToDetached(m, w), Detached, MoveToDetached(m, w).detached)
  {
    assert Listed(m, w);
    if m.workers[w].mode == Active {
      RemoveOne(m.active, m.nextElem, m.workers[w].container.value.elem, w);
      if AllOwned(m, Detached, m.detached) {
        NotInList(m, Detached, m.detached, w);
        OthersOwned(m, MoveToDetached(m, w), Detached, m.detached, w);
      }
    }
  }

  /** Detach keeps both lists exact iff the worker is still active. */
  lemma DetachExactIffActive(m: Manager, w: Id)
    requires ListsOk(m) && Registered(m, w)
    ensures ListsOk(MoveToDetached(m, w)) <==> m.workers[w].mode == Active
  {
    DetachLists(m, w);
    DetachCounts(m, w);
  }

  lemma RemoveListed(m: Manager, w: Id)
    requires Fits(m) && Registered(m, w)
    ensures var m' := RemoveWorker(m, w);
            AllListed(m') && Distinct(m'.active, m.nextElem) && Distinct(m'.detached, m.nextElem) && |m'.active| <= |m.active|
  {
    var m', mode := RemoveWorker(m, w), m.workers[w].mode;
    assert Listed(m, w);
    RemoveOne(if mode == Active then m.active else m.detached, m.nextElem, m.workers[w].container.value.elem, w);
    forall v | v in m'.workers ensures Listed(m', v) {
      assert Listed(m, v);
      if m.workers[v].mode == mode { OtherElem(m, v, w); }
    }
  }

  lemma RemoveOwned(m: Manager, w: Id)
    requires Fits(m) && Registered(m, w)
    ensures AllOwned(RemoveWorker(m, w), Active, RemoveWorker(m, w).active)
  {
    assert Listed(m, w);
    var elem := m.workers[w].container.value.elem;
    if m.workers[w].mode == Active {
      RemoveOne(m.active, m.nextElem, elem, w);
      OneEntryEach(m, Active, m.active, elem, w);
    } else {
      NotInList(m, Active, m.active, w);
    }
    OthersOwned(m, RemoveWorker(m, w), Active, RemoveWorker(m, w).active, w);
  }

  lemma RemoveLists(m: Manager, w: Id)
    requires Fits(m) && Registered(m, w)
    ensures Fits(RemoveWorker(m, w))
  {
    RemoveListed(m, w);
    RemoveOwned(m, w);
  }

  lemma RemoveCounts(m: Manager, w: Id)
    requires Fits(m) && Registered(m, w)
    ensures var m' := RemoveWorker(m, w);
            && m'.workers.Keys == m.workers.Keys - {w}
            && |m'.workers| == |m.workers| - 1 && |m'.active| + |m'.detached| == |m.active| + |m.detached| - 1
    ensures AllOwned(m, Detached, m.detached) ==> AllOwned(RemoveWorker(m, w), Detached, RemoveWorker(m, w).detached)
  {
    var m', mode := RemoveWorker(m, w), m.workers[w].mode;
    var elem := m.workers[w].container.value.elem;
    assert Listed(m, w);
    RemoveOne(if mode == Active then m.active else m.detached, m.nextElem, elem, w);
    assert m'.workers.Keys == m.workers.Keys - {w};
    if AllOwned(m, Detached, m.detached) {
      if mode == Active { NotInList(m, Detached, m.detached, w); } else { OneEntryEach(m, Detached, m.detached, elem, w); }
      OthersOwned(m, m', Detached, m'.detached, w);
    }
  }

  // ---- Every step ---------------------------------------------------------------

  lemma ScheduleCounts(m: Manager, queued: nat)
    requires AllListed(m)
    ensures var m' := ScheduleWithLock(m, queued);
            && m'.detached == m.detached && |m'.workers| - |m'.active| == |m.workers| - |m.active|
            && m'.workers.Keys == m.workers.Keys + if HasRoom(m, queued) then {m.lastId + 1} else {}
  {
    NewIdIsFree(m);
  }

  lemma SchedulesLists(s: Pool)
    requires PoolOk(s)
    ensures PoolOk(Schedules(s))
  {
    ScheduleLists(s.manager, |s.queue|);
    ScheduleCounts(s.manager, |s.queue|);
  }

  lemma MovedLists(s: Pool, t: Task, w: Id)
    requires PoolOk(s) && Registered(s.manager, w)
    ensures PoolOk(Moved(s, t, w))
  {
    DetachLists(s.manager, w);
    DetachCounts(s.manager, w);
    assert |MoveToDetached(s.manager, w).workers.Keys| == |s.manager.workers.Keys|;
  }

  lemma TimedOutLists(s: Pool, t: Task, worker: Option<Id>)
    requires PoolOk(s)
    ensures PoolOk(TimedOut(s, t, worker))
  {
    if worker.Some? && Registered(s.manager, worker.value) {
      MovedLists(s, t, worker.value);
      SchedulesLists(Moved(s, t, worker.value));
    } else {
      SameWorkers(s, TimedOut(s, t, worker));
    }
  }

  lemma SameWorkers(s: Pool, s': Pool)
    requires PoolOk(s) && s'.manager == s.manager && s'.stages.Keys == s.stages.Keys && s'.log.repeats == s.log.repeats
    ensures PoolOk(s')
  {
  }

  predicate TouchesLists(step: Step) {
    step.Schedule? || step.Timeout? || step.Remove?
  }

  lemma OtherSteps(s: Pool, step: Step)
    requires Enabled(s, step) && !TouchesLists(step)
    ensures var s' := Apply(s, step);
            s'.manager == s.manager && s'.stages.Keys == s.stages.Keys && s'.log.repeats == s.log.repeats
  {
  }

  lemma RemovedLists(s: Pool, w: Id)
    requires PoolOk(s) && Registered(s.manager, w)
    ensures PoolOk(s.(manager := RemoveWorker(s.manager, w), stages := s.stages - {w}))
  {
    RemoveLists(s.manager, w);
    RemoveCounts(s.manager, w);
  }

  lemma StepLists(s: Pool, step: Step)
    requires PoolOk(s) && Enabled(s, step)
    ensures PoolOk(Apply(s, step))
  {
    if !TouchesLists(step) {
      OtherSteps(s, step);
      SameWorkers(s, Apply(s, step));
    } else {
      match step
      case Schedule =>
        SameWorkers(s, s.(unscheduled := s.unscheduled - 1));
        SchedulesLists(s.(unscheduled := s.unscheduled - 1));
      case Timeout(t) => TimedOutLists(s, t, s.waits[t].worker);
      case Remove(w) => RemovedLists(s, w);
    }
  }

  /** The lists are exact iff no Detach was repeated. */
  lemma ExactIffNoRepeat(s: Pool)
    requires PoolOk(s)
    ensures ListsOk(s.manager) <==> s.log.repeats == 0
  {
  }
}
