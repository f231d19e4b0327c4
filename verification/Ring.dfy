/** The ring buffer of pkg/appsrv/ring.go, which queues the tasks of a worker pool. */
module Ring {
  import opened Basics

  /** Index after `idx` in a buffer of `size` slots, wrapping to zero. */
  function NextPointer(idx: nat, size: nat): (r: nat)
    requires idx < size
    ensures r == (idx + 1) % size && r < size
  {
    if idx + 1 >= size then 0 else idx + 1
  }

  class Ring<T(0)> {
    var buffer: array<T>
    var header: nat  // next slot to fill
    var tail: nat    // oldest filled slot

    ghost predicate Valid()
      reads this
    {
      header < buffer.Length && tail < buffer.Length
    }

    /** The queued values, oldest first. */
    ghost function Contents(): (s: seq<T>)
      requires Valid()
      reads this, buffer
      ensures |s| < buffer.Length
    {
      if tail <= header then buffer[tail..header] else buffer[tail..] + buffer[..header]
    }

    /** NewRing: one slot more than the capacity, so that full and empty differ. */
    constructor (size: nat)
      ensures Valid() && fresh(buffer) && buffer.Length == size + 1 && Contents() == []
    {
      buffer := new T[size + 1];
      header, tail := 0, 0;
    }

    function Capacity(): nat
      requires Valid()
      reads this
    {
      buffer.Length - 1
    }

    /** Push: refused exactly when the queue holds Capacity() values; else appended. */
    method Push(val: T) returns (ok: bool)
      requires Valid()
      modifies this`header, buffer
      ensures Valid() && buffer == old(buffer)
      ensures ok <==> |old(Contents())| < Capacity()
      ensures Contents() == if ok then old(Contents()) + [val] else old(Contents())
    {
      if NextPointer(header, buffer.Length) == tail {
        return false;
      }
      buffer[header] := val;
      header := NextPointer(header, buffer.Length);
      return true;
    }

    /** Pop: nothing exactly when the queue is empty; else the oldest value, which leaves the queue. */
    method Pop() returns (val: Option<T>)
      requires Valid()
      modifies this`tail
      ensures Valid()
      ensures val.None? <==> old(Contents()) == []
      ensures val.Some? ==> old(Contents()) == [val.value] + Contents()
      ensures val.None? ==> Contents() == []
    {
      if tail == header {
        return None;
      }
      val := Some(buffer[tail]);
      tail := NextPointer(tail, buffer.Length);
    }

    /** Size: the number of queued values, in either order of the two indices. */
    method Size() returns (n: nat)
      requires Valid()
      ensures n == |Contents()|
    {
      n := if tail <= header then header - tail else buffer.Length - tail + header;
    }
  }
}
