/**
 The worker manager of pkg/appsrv/workers.go in its own form: objects updated in
 place under workerLock.  The methods with Locked in their name, IsDetached and Detach
 are one critical section each, Run is a push and then one; each is proved to move the
 objects as the step system says.
 */
module WorkerPool {
  import opened Basics
  import opened PoolSteps
  import Ring

  class SWorker {
    const id: Id
    var state: Mode
    var container: Option<Place>

    constructor (id: Id)
      ensures this.id == id && state == Active && container == None
    {
      this.id := id;
      state, container := Active, None;
    }
  }

  datatype Element = Element(elem: nat, worker: SWorker)

  /** The list has these entries, in order. */
  ghost predicate Shows(list: seq<Element>, entries: seq<Entry>) {
    |list| == |entries| && forall i | 0 <= i < |list| :: entries[i] == Entry(list[i].elem, list[i].worker.id)
  }

  class SWorkerList {
    const name: Mode
    var list: seq<Element>

    constructor (name: Mode)
      ensures this.name == name && list == []
    {
      this.name := name;
      list := [];
    }

    /** addWithLock */
    method Add(worker: SWorker, elem: nat)
      modifies this`list, worker`container
      ensures list == old(list) + [Element(elem, worker)]
      ensures worker.container == Some(Place(name, elem))
    {
      list := list + [Element(elem, worker)];
      worker.container := Some(Place(name, elem));
    }

    /** removeWithLock: the element goes if it is of this list; the worker has no container afterwards. */
    method Remove(worker: SWorker, ghost entries: seq<Entry>)
      requires worker.container.Some? && Shows(list, entries)
      modifies this`list, worker`container
      ensures worker.container == None
      ensures Shows(list, RemoveFrom(entries, name, old(worker.container.value)))
    {
      var place := worker.container.value;
      if place.list == name {
        var i := 0;
        while i < |list| && list[i].elem != place.elem
          invariant i <= |list| && list == old(list)
          invariant forall j | 0 <= j < i :: entries[j].elem != place.elem
        {
          i := i + 1;
        }
        if i < |list| {
          RemoveFound(entries, place.elem, i);
          list := list[..i] + list[i + 1..];
        } else {
          RemoveAbsent(entries, place.elem);
        }
      }
      worker.container := None;
    }

    /** size */
    function Size(): nat
      reads this
    {
      |list|
    }
  }

  class SWorkerManager {
    const workerCount: nat
    const queue: Ring.Ring<Task>
    const activeWorker: SWorkerList
    const detachedWorker: SWorkerList
    var workerId: Id
    var nextElem: nat               // identity of the next list element
    ghost var all: seq<SWorker>     // every worker made so far, by id

    ghost predicate Valid()
      reads this, queue
    {
      && activeWorker.name == Active && detachedWorker.name == Detached && queue.Valid()
      && workerId == |all|
      && (forall i | 0 <= i < |all| :: all[i].id == i + 1)
    }

    ghost predicate ShowsWorker(m: Manager, w: Id)
      reads this, all
      requires w in m.workers
    {
      1 <= w <= |all| && Worker(all[w - 1].state, all[w - 1].container) == m.workers[w] && all[w - 1].container.Some?
    }

    /** A worker that has been removed has no container. */
    ghost predicate ShowsRemoved(m: Manager)
      reads this, all
    {
      forall i | 0 <= i < |all| && i + 1 !in m.workers :: all[i].container == None
    }

    /** The state of the manager is `m`. */
    ghost predicate Is(m: Manager)
      reads this, all, activeWorker, detachedWorker
    {
      && m.limit == workerCount && m.lastId == workerId && m.nextElem == nextElem
      && Shows(activeWorker.list, m.active) && Shows(detachedWorker.list, m.detached)
      && (forall w | w in m.workers :: ShowsWorker(m, w)) && ShowsRemoved(m)
    }

    /** NewWorkerManager */
    constructor (workerCount: nat, backlog: nat)
      ensures Valid() && Is(Init(workerCount, backlog).manager)
      ensures queue.Contents() == [] && queue.Capacity() == workerCount * backlog
      ensures fresh(queue) && fresh(queue.buffer) && fresh(activeWorker) && fresh(detachedWorker) && all == []
    {
      this.workerCount := workerCount;
      queue := new Ring.Ring<Task>(workerCount * backlog);
      activeWorker := new SWorkerList(Active);
      detachedWorker := new SWorkerList(Detached);
      workerId, nextElem, all := 0, 0, [];
    }

    /** scheduleWithLock: the worker it starts, if any. */
    method ScheduleLocked(ghost m: Manager) returns (started: Option<SWorker>)
      requires Valid() && Is(m)
      modifies this, activeWorker
      ensures Valid() && Is(ScheduleWithLock(m, |queue.Contents()|))
      ensures started.Some? <==> HasRoom(m, |queue.Contents()|)
      ensures started.Some? <==> |old(activeWorker.list)| < workerCount && queue.Contents() != []
      ensures |activeWorker.list| == |old(activeWorker.list)| + if started.Some? then 1 else 0
      ensures all == old(all) + (if started.Some? then [started.value] else [])
      ensures started.Some? ==> fresh(started.value)
    {
      started := None;
      var queued := queue.Size();
      if activeWorker.Size() < workerCount && queued > 0 {
        var worker := StartLocked(m, queued);
        started := Some(worker);
      }
    }

    /** A new worker at the end of the active list. */
    method StartLocked(ghost m: Manager, ghost queued: nat) returns (worker: SWorker)
      requires Valid() && Is(m) && HasRoom(m, queued)
      modifies this, activeWorker
      ensures Valid() && Is(ScheduleWithLock(m, queued))
      ensures all == old(all) + [worker] && fresh(worker)
    {
      workerId := workerId + 1;
      worker := new SWorker(workerId);
      activeWorker.Add(worker, nextElem);
      nextElem := nextElem + 1;
      all := all + [worker];
      assert forall w | w in m.workers :: ShowsWorker(m, w);
      assert forall i | 0 <= i < |all| - 1 :: all[i] == old(all)[i];
    }

    /** Run: the task is queued and a worker scheduled, or refused with nothing changed. */
    method Run(task: Task, ghost m: Manager) returns (ok: bool, started: Option<SWorker>)
      requires Valid() && Is(m)
      modifies this, activeWorker, queue, queue.buffer
      ensures Valid() && queue.buffer == old(queue.buffer)
      ensures ok <==> |old(queue.Contents())| < queue.Capacity()
      ensures queue.Contents() == old(queue.Contents()) + if ok then [task] else []
      ensures Is(if ok then ScheduleWithLock(m, |queue.Contents()|) else m)
      ensures started.Some? <==> ok && HasRoom(m, |queue.Contents()|)
      ensures started.Some? <==> ok && |old(activeWorker.list)| < workerCount && queue.Contents() != []
      ensures all == old(all) + (if started.Some? then [started.value] else [])
      ensures started.Some? ==> fresh(started.value)
    {
      started := None;
      ok := queue.Push(task);
      assert Is(m);
      if ok {
        started := ScheduleLocked(m);
      }
    }

    /** isDetached */
    method IsDetached(worker: SWorker, ghost m: Manager) returns (r: bool)
      requires Valid() && Is(m) && worker in all && worker.id in m.workers
      ensures r <==> m.workers[worker.id].mode == Detached
    {
      assert ShowsWorker(m, worker.id);
      r := worker.state == Detached;
    }

    /**
     SWorker.Detach, on a worker in any state: moved to the detached list and a worker scheduled, or,
     if it has been removed, a panic on its nil container that leaves the manager as it was.
     */
    method Detach(worker: SWorker, ghost m: Manager) returns (panics: bool, started: Option<SWorker>)
      requires Valid() && Is(m) && worker in all
      modifies this, activeWorker, detachedWorker, worker
      ensures Valid() && (panics <==> worker.id !in m.workers)
      ensures panics ==> Is(m) && started.None?
      ensures !panics ==>
        && Registered(m, worker.id)
        && Is(ScheduleWithLock(MoveToDetached(m, worker.id), |queue.Contents()|))
        && (started.Some? <==> HasRoom(MoveToDetached(m, worker.id), |queue.Contents()|))
        && (started.Some? <==> |activeWorker.list| - (if started.Some? then 1 else 0) < workerCount && queue.Contents() != [])
      ensures all == old(all) + (if started.Some? then [started.value] else [])
      ensures started.Some? ==> fresh(started.value)
    {
      started := None;
      assert worker.id in m.workers ==> ShowsWorker(m, worker.id);
      panics := worker.container.None?;
      if panics {
        worker.state := Detached;
        assert forall w | w in m.workers :: ShowsWorker(m, w);
      } else {
        MoveLocked(worker, m);
        started := ScheduleLocked(MoveToDetached(m, worker.id));
      }
    }

    method MoveLocked(worker: SWorker, ghost m: Manager)
      requires Valid() && Is(m) && worker in all && Registered(m, worker.id)
      modifies this`nextElem, activeWorker, detachedWorker, worker
      ensures Valid() && Is(MoveToDetached(m, worker.id))
    {
      assert ShowsWorker(m, worker.id);
      worker.state := Detached;
      activeWorker.Remove(worker, m.active);
      detachedWorker.Add(worker, nextElem);
      nextElem := nextElem + 1;
      assert forall w | w in m.workers && w != worker.id :: ShowsWorker(m, w);
    }

    /** removeWorker: out of the list that its state names. */
    method RemoveLocked(worker: SWorker, ghost m: Manager)
      requires Valid() && Is(m) && worker in all && Registered(m, worker.id)
      modifies activeWorker, detachedWorker, worker
      ensures Valid() && Is(RemoveWorker(m, worker.id))
    {
      assert ShowsWorker(m, worker.id);
      if worker.state == Active {
        activeWorker.Remove(worker, m.active);
      } else {
        detachedWorker.Remove(worker, m.detached);
      }
      assert forall w | w in m.workers && w != worker.id :: ShowsWorker(m, w);
    }
  }
}
