/**
 * `tickQueue` of queue.go: a fixed-capacity buffer of ticks, an array with a length
 * counter. The model keeps the source's `isEmpty`, which tests the same condition as
 * `isFull`; `HasNoTicks` is the test evidently intended.
 */
module Queue {
  import opened Ticks

  class TickQueue {
    var q: array<TickData>
    var len: int
    var capacity: int

    /** The invariant every operation keeps: 0 <= len <= capacity, and the array has capacity slots. */
    ghost predicate Valid()
      reads this
    {
      0 <= len <= capacity && q.Length == capacity
    }

    /** The queued ticks, oldest first. */
    ghost function Contents(): seq<TickData>
      reads this, q
      requires Valid()
    {
      q[..len]
    }

    /** queue.go:9-15 (`make` panics on a negative capacity). */
    constructor (capacity: int)
      requires 0 <= capacity
      ensures Valid() && fresh(q)
      ensures len == 0 && this.capacity == capacity && q.Length == capacity
      ensures Contents() == []
    {
      q := new TickData[capacity](_ => ZeroTick);
      this.capacity := capacity;
      len := 0;
    }

    /** queue.go:17-19. */
    predicate IsFull()
      reads this
      ensures Valid() ==> (IsFull() <==> len == capacity)
    {
      len >= capacity
    }

    /** queue.go:21-23, as written: the same test as IsFull. */
    predicate IsEmpty()
      reads this
      ensures Valid() ==> (IsEmpty() <==> len == capacity)
    {
      len >= capacity
    }

    /** The emptiness test the name promises. */
    predicate HasNoTicks()
      reads this
    {
      len == 0
    }

    /** queue.go:25-27: forget the queued ticks; the array is neither reallocated nor overwritten. */
    method Clear()
      requires Valid()
      modifies this
      ensures Valid()
      ensures len == 0 && q == old(q) && capacity == old(capacity)
      ensures q[..] == old(q[..])
      ensures Contents() == [] && HasNoTicks()
    {
      len := 0;
    }

    /** queue.go:29-34: store t in the next free slot; a full queue ignores the call. */
    method Put(t: TickData)
      requires Valid()
      modifies this, q
      ensures Valid() && q == old(q) && capacity == old(capacity)
      ensures old(IsFull()) ==> len == old(len) && q[..] == old(q[..])
      ensures !old(IsFull()) ==> len == old(len) + 1 && q[old(len)] == t
      ensures forall i :: 0 <= i < q.Length && i != old(len) ==> q[i] == old(q[i])
      ensures Contents() == if old(IsFull()) then old(Contents()) else old(Contents()) + [t]
    {
      if !IsFull() {
        q[len] := t;
        len := len + 1;
      }
    }
  }

  /**
   * A producer calling `put` once per tick: the queue takes ticks until it is full and
   * ignores the rest, and it is full exactly when at least its free capacity was offered.
   */
  method PutAll(queue: TickQueue, ticks: seq<TickData>)
    requires queue.Valid()
    modifies queue, queue.q
    ensures queue.Valid() && queue.q == old(queue.q) && queue.capacity == old(queue.capacity)
    ensures queue.len == if old(queue.len) + |ticks| <= queue.capacity then old(queue.len) + |ticks| else queue.capacity
    ensures queue.IsFull() <==> old(queue.len) + |ticks| >= queue.capacity
    ensures queue.Contents() == old(queue.Contents()) + ticks[..queue.len - old(queue.len)]
  {
    ghost var start := queue.len;
    ghost var before := queue.Contents();
    for i := 0 to |ticks|
      invariant queue.Valid() && queue.q == old(queue.q) && queue.capacity == old(queue.capacity)
      invariant queue.len == if start + i <= queue.capacity then start + i else queue.capacity
      invariant queue.Contents() == before + ticks[..queue.len - start]
    {
      var n := queue.len;
      queue.Put(ticks[i]);
      if n < queue.capacity {
        assert ticks[..queue.len - start] == ticks[..n - start] + [ticks[i]];
      }
    }
  }

  /** isEmpty answers exactly as isFull does, in every state. */
  lemma IsEmptyIsIsFull(queue: TickQueue)
    ensures queue.IsEmpty() == queue.IsFull()
  {
  }

  /** The defect shown: a cleared queue of positive capacity holds nothing, yet isEmpty says false. */
  lemma ClearedQueueNotEmpty(queue: TickQueue)
    requires queue.Valid() && queue.capacity > 0 && queue.HasNoTicks()
    ensures queue.Contents() == [] && !queue.IsEmpty()
  {
  }

  /** The intended test holds exactly when nothing is queued. */
  lemma HasNoTicksIffNothingQueued(queue: TickQueue)
    requires queue.Valid()
    ensures queue.HasNoTicks() <==> queue.Contents() == []
  {
  }
}
