/**
 * The dual-queue windowed buffer of ReactiveMicroservices/BufferExample.cs.
 *
 * Two FIFO queues alternate: one is active and receives new elements, and
 * SwitchBuffer drains the active one into a batch, flips the flag and emits
 * the batch. Put flushes first when the active queue has reached the
 * capacity, but it enqueues into the queue that was active when it started,
 * so after a capacity flush the triggering element lands in the queue just
 * drained (now inactive). Threads, the lock and the wall-clock timer are
 * abstracted away: every operation is atomic and a timer tick is the
 * explicit method Tick, allowed while the timer is running.
 */
module BufferExample {
  import opened Wrappers

  /** All batches, concatenated in emission order. */
  function Flatten<T>(batches: seq<seq<T>>): (r: seq<T>)
  {
    if batches == [] then [] else Flatten(batches[..|batches| - 1]) + batches[|batches| - 1]
  }

  lemma FlattenSnoc<T>(batches: seq<seq<T>>, b: seq<T>)
    ensures Flatten(batches + [b]) == Flatten(batches) + b
  {
    assert (batches + [b])[..|batches|] == batches;
  }

  /** No element is lost or duplicated: what was Put is what is buffered or emitted. */
  ghost predicate Conserved<T>(history: seq<T>, active: seq<T>, inactive: seq<T>, emitted: seq<seq<T>>)
  {
    multiset(history) == multiset(Flatten(emitted) + inactive + active)
  }

  /** s can be obtained from h by deleting elements: s keeps the relative order it has in h. */
  ghost predicate Subseq<T>(s: seq<T>, h: seq<T>)
    decreases |h|
  {
    || s == []
    || (&& h != []
        && (|| (s[|s| - 1] == h[|h| - 1] && Subseq(s[..|s| - 1], h[..|h| - 1]))
            || Subseq(s, h[..|h| - 1])))
  }

  /** A later element of h does not disturb a subsequence of h. */
  lemma SubseqGrow<T>(s: seq<T>, h: seq<T>, x: T)
    requires Subseq(s, h)
    ensures Subseq(s, h + [x])
  {
    assert (h + [x])[..|h|] == h;
  }

  /** An element appended to both keeps a subsequence a subsequence. */
  lemma SubseqSnoc<T>(s: seq<T>, h: seq<T>, x: T)
    requires Subseq(s, h)
    ensures Subseq(s + [x], h + [x])
  {
    assert (s + [x])[..|s|] == s;
    assert (h + [x])[..|h|] == h;
  }

  /**
   * Put order: each queue and each emitted batch lists its elements in the
   * order they were put.
   */
  ghost predicate InPutOrder<T>(history: seq<T>, active: seq<T>, inactive: seq<T>, emitted: seq<seq<T>>)
  {
    && Subseq(active, history)
    && Subseq(inactive, history)
    && forall i :: 0 <= i < |emitted| ==> Subseq(emitted[i], history)
  }

  /**
   * The sizes that sequential use keeps: the active queue holds at most
   * capacity elements, the inactive one at most the element that
   * triggered the last capacity flush, and no batch exceeds capacity.
   */
  ghost predicate Bounded<T>(capacity: int, active: seq<T>, inactive: seq<T>, emitted: seq<seq<T>>)
  {
    && |active| <= capacity
    && |inactive| <= 1
    && forall i :: 0 <= i < |emitted| ==> |emitted[i]| <= capacity
  }

  /**
   * A flush emits the active queue and makes the other queue active
   * over an empty inactive one; conservation, put order and the bounds
   * survive it.
   */
  lemma FlushKeeps<T>(capacity: int, history: seq<T>, active: seq<T>, inactive: seq<T>, emitted: seq<seq<T>>)
    requires Conserved(history, active, inactive, emitted)
    ensures Conserved(history, inactive, [], emitted + [active])
    ensures InPutOrder(history, active, inactive, emitted) ==> InPutOrder(history, inactive, [], emitted + [active])
    ensures capacity >= 1 && Bounded(capacity, active, inactive, emitted) ==>
      Bounded(capacity, inactive, [], emitted + [active])
  {
    FlattenSnoc(emitted, active);
  }

  /** Enqueueing below capacity into the active queue keeps conservation, put order and the bounds. */
  lemma AdmitKeeps<T>(capacity: int, history: seq<T>, active: seq<T>, inactive: seq<T>, emitted: seq<seq<T>>, x: T)
    requires Conserved(history, active, inactive, emitted)
    ensures Conserved(history + [x], active + [x], inactive, emitted)
    ensures InPutOrder(history, active, inactive, emitted) ==> InPutOrder(history + [x], active + [x], inactive, emitted)
    ensures |active| < capacity && Bounded(capacity, active, inactive, emitted) ==>
      Bounded(capacity, active + [x], inactive, emitted)
  {
    if InPutOrder(history, active, inactive, emitted) {
      SubseqSnoc(active, history, x);
      SubseqGrow(inactive, history, x);
      forall i | 0 <= i < |emitted|
        ensures Subseq(emitted[i], history + [x])
      {
        SubseqGrow(emitted[i], history, x);
      }
    }
  }

  /**
   * After a capacity flush the element goes into the queue just drained,
   * now inactive and empty: conservation, put order and the bounds still
   * hold.
   */
  lemma AdmitAfterFlushKeeps<T>(capacity: int, history: seq<T>, active: seq<T>, emitted: seq<seq<T>>, x: T)
    requires Conserved(history, active, [], emitted)
    ensures Conserved(history + [x], active, [x], emitted)
    ensures InPutOrder(history, active, [], emitted) ==> InPutOrder(history + [x], active, [x], emitted)
    ensures capacity >= 1 && Bounded(capacity, active, [], emitted) ==>
      Bounded(capacity, active, [x], emitted)
  {
    if InPutOrder(history, active, [], emitted) {
      SubseqGrow(active, history, x);
      SubseqSnoc([], history, x);
      assert [] + [x] == [x];
      forall i | 0 <= i < |emitted|
        ensures Subseq(emitted[i], history + [x])
      {
        SubseqGrow(emitted[i], history, x);
      }
    }
  }

  /** The ConcurrentQueue<T> the buffer uses: a FIFO queue updated in place. */
  class ConcurrentQueue<T> {
    var contents: seq<T>

    constructor ()
      ensures contents == []
    {
      contents := [];
    }

    /** The number of elements in the queue. */
    function Count(): (r: nat)
      reads this
      ensures r == 0 <==> contents == []
    {
      |contents|
    }

    method Enqueue(x: T)
      modifies this
      ensures contents == old(contents) + [x]
    {
      contents := contents + [x];
    }

    /** Removes and returns the front element, or fails on an empty queue. */
    method TryDequeue() returns (r: Option<T>)
      modifies this
      ensures old(contents) == [] ==> r == None && contents == []
      ensures old(contents) != [] ==> r == Some(old(contents)[0]) && contents == old(contents)[1..]
    {
      if contents == [] {
        r := None;
      } else {
        r := Some(contents[0]);
        contents := contents[1..];
      }
    }
  }

  class BufferExample<T> {
    const q1: ConcurrentQueue<T>
    const q2: ConcurrentQueue<T>
    var q1active: bool
    const capacity: int
    /** The timer period; stored, but time itself is not modelled. */
    const interval: real
    /** Whether the timer is started (it may still tick). */
    var running: bool
    /** Every batch passed to BufferEvent, in order. */
    var emitted: seq<seq<T>>
    /** Every element ever Put, in order. */
    ghost var history: seq<T>

    /** The queue that receives Puts: the first one exactly when the flag says so. */
    function ActiveQueue(): (r: ConcurrentQueue<T>)
      reads this
      ensures r == q1 || r == q2
      ensures q1 != q2 ==> (r == q1 <==> q1active)
    {
      if q1active then q1 else q2
    }

    /** The other queue. */
    function InactiveQueue(): (r: ConcurrentQueue<T>)
      reads this
      ensures r == q1 || r == q2
      ensures q1 != q2 ==> r != ActiveQueue()
    {
      if q1active then q2 else q1
    }

    function Active(): (r: seq<T>)
      reads this, q1, q2
    {
      ActiveQueue().contents
    }

    function Inactive(): (r: seq<T>)
      reads this, q1, q2
    {
      InactiveQueue().contents
    }

    ghost predicate Valid()
      reads this, q1, q2
    {
      && q1 != q2
      && Conserved(history, Active(), Inactive(), emitted)
      && InPutOrder(history, Active(), Inactive(), emitted)
      && (capacity >= 1 ==> Bounded(capacity, Active(), Inactive(), emitted))
    }

    /** Creates the two empty queues, makes the first active and starts the timer. */
    constructor (interval: real, capacity: int)
      ensures Valid() && fresh(q1) && fresh(q2)
      ensures q1.contents == [] && q2.contents == [] && q1active
      ensures this.capacity == capacity && this.interval == interval
      ensures running && emitted == [] && history == []
    {
      this.capacity := capacity;
      this.interval := interval;
      q1 := new ConcurrentQueue<T>();
      q2 := new ConcurrentQueue<T>();
      q1active := true;
      running := true;
      emitted := [];
      history := [];
    }

    /**
     * Flips the active flag, drains the queue that was active on entry
     * front to back into one batch and emits it, even when it is empty.
     */
    method SwitchBuffer()
      requires Valid()
      modifies this`q1active, this`emitted, q1, q2
      ensures Valid()
      ensures q1active == !old(q1active)
      ensures emitted == old(emitted) + [old(Active())]
      ensures old(ActiveQueue()).contents == []
      ensures old(InactiveQueue()).contents == old(Inactive())
    {
      ghost var active, inactive := Active(), Inactive();
      var temp := ActiveQueue();
      q1active := !q1active;
      var buff := Drain(temp);
      emitted := emitted + [buff];
      assert Active() == inactive && Inactive() == [];
      FlushKeeps(capacity, history, active, inactive, old(emitted));
    }

    /**
     * The loop of SwitchBuffer: dequeues from the captured queue until
     * TryDequeue fails, adding each element to the batch.
     */
    static method Drain(temp: ConcurrentQueue<T>) returns (buff: seq<T>)
      modifies temp
      ensures buff == old(temp.contents) && temp.contents == []
    {
      buff := [];
      var val := temp.TryDequeue();
      while val.Some?
        invariant val.Some? ==> buff + [val.value] + temp.contents == old(temp.contents)
        invariant val.None? ==> buff == old(temp.contents) && temp.contents == []
        decreases |temp.contents| + (if val.Some? then 1 else 0)
      {
        buff := buff + [val.value];
        ghost var rest := temp.contents;
        val := temp.TryDequeue();
        assert val.Some? ==> rest == [val.value] + temp.contents;
      }
    }

    /** A timer tick: the timer's Elapsed handler flushes. */
    method Tick()
      requires Valid() && running
      modifies this`q1active, this`emitted, q1, q2
      ensures Valid()
      ensures q1active == !old(q1active)
      ensures emitted == old(emitted) + [old(Active())]
      ensures old(ActiveQueue()).contents == []
      ensures old(InactiveQueue()).contents == old(Inactive())
    {
      SwitchBuffer();
    }

    /** Stops the timer; nothing is flushed. */
    method Stop()
      requires Valid()
      modifies this`running
      ensures Valid()
      ensures !running
      ensures q1active == old(q1active) && emitted == old(emitted)
    {
      running := false;
    }

    /**
     * Captures the active queue, flushes if that queue already holds
     * capacity elements or more, then enqueues into the captured queue.
     */
    method Put(element: T)
      requires Valid()
      modifies this`q1active, this`emitted, this`history, q1, q2
      ensures Valid()
      ensures history == old(history) + [element]
      ensures |old(Active())| >= capacity ==>
        && emitted == old(emitted) + [old(Active())]
        && q1active == !old(q1active)
        && old(ActiveQueue()).contents == [element]
        && old(InactiveQueue()).contents == old(Inactive())
      ensures |old(Active())| < capacity ==>
        && emitted == old(emitted)
        && q1active == old(q1active)
        && old(ActiveQueue()).contents == old(Active()) + [element]
        && old(InactiveQueue()).contents == old(Inactive())
      ensures capacity >= 1 && |old(Active())| >= capacity ==> |emitted[|emitted| - 1]| == capacity
    {
      var q := ActiveQueue();
      if q.Count() >= capacity {
        FlushThenAdmit(q, element);
      } else {
        Admit(q, element);
      }
    }

    /**
     * The capacity branch of Put: SwitchBuffer drains the captured queue q
     * and makes it inactive, and the element is then enqueued into q.
     */
    method FlushThenAdmit(q: ConcurrentQueue<T>, element: T)
      requires Valid() && q == ActiveQueue() && |Active()| >= capacity
      modifies this`q1active, this`emitted, this`history, q1, q2
      ensures Valid()
      ensures history == old(history) + [element]
      ensures emitted == old(emitted) + [old(Active())]
      ensures q1active == !old(q1active)
      ensures q.contents == [element]
      ensures old(InactiveQueue()).contents == old(Inactive())
      ensures capacity >= 1 ==> |emitted[|emitted| - 1]| == capacity
    {
      ghost var inactive := Inactive();
      SwitchBuffer();
      assert q.contents == [] && ActiveQueue().contents == inactive;
      Admit(q, element);
    }

    /**
     * The locked `q.Enqueue(element)` of Put, recording the element in the
     * history: either the captured queue is still active and below
     * capacity, or a flush has just emptied it and made it inactive.
     */
    method Admit(q: ConcurrentQueue<T>, element: T)
      requires Valid() && (q == q1 || q == q2)
      requires q == ActiveQueue() ==> |Active()| < capacity
      requires q != ActiveQueue() ==> Inactive() == []
      modifies this`history, q
      ensures Valid()
      ensures history == old(history) + [element]
      ensures q.contents == old(q.contents) + [element]
    {
      ghost var active, inactive := Active(), Inactive();
      q.Enqueue(element);
      history := history + [element];
      if q == ActiveQueue() {
        assert Active() == active + [element] && Inactive() == inactive;
        AdmitKeeps(capacity, old(history), active, inactive, emitted, element);
      } else {
        assert Active() == active && Inactive() == [element];
        AdmitAfterFlushKeeps(capacity, old(history), active, emitted, element);
      }
    }
  }

  /** The integers lo, lo + 1, ..., hi - 1. */
  function Range(lo: int, hi: int): (r: seq<int>)
    requires lo <= hi
  {
    seq(hi - lo, k => lo + k)
  }

  /** Appending hi extends the range by one, whatever precedes it. */
  lemma RangeSnoc(prefix: seq<int>, lo: int, hi: int)
    requires lo <= hi
    ensures prefix + Range(lo, hi) + [hi] == prefix + Range(lo, hi + 1)
  {
    assert Range(lo, hi) + [hi] == Range(lo, hi + 1) by {
      assert forall k :: 0 <= k <= hi - lo ==> (Range(lo, hi) + [hi])[k] == Range(lo, hi + 1)[k];
    }
  }

  /** One Put into a buffer whose active queue is still below capacity. */
  method PutBelowCapacity(b: BufferExample<int>, x: int)
    requires b.Valid() && |b.Active()| < b.capacity
    modifies b, b.q1, b.q2
    ensures b.running == old(b.running)
    ensures b.Valid()
    ensures b.q1active == old(b.q1active) && b.emitted == old(b.emitted)
    ensures b.history == old(b.history) + [x]
    ensures b.Active() == old(b.Active()) + [x]
    ensures b.Inactive() == old(b.Inactive())
  {
    b.Put(x);
  }

  /** One pass of PutRange's loop: puts i after lo..i-1 have been put. */
  method PutNext(b: BufferExample<int>, ghost active: seq<int>, ghost history: seq<int>, lo: int, i: int)
    requires b.Valid() && lo <= i && |b.Active()| < b.capacity
    requires b.Active() == active + Range(lo, i) && b.history == history + Range(lo, i)
    modifies b, b.q1, b.q2
    ensures b.running == old(b.running)
    ensures b.Valid()
    ensures b.q1active == old(b.q1active) && b.emitted == old(b.emitted)
    ensures b.Active() == active + Range(lo, i + 1) && b.history == history + Range(lo, i + 1)
    ensures b.Inactive() == old(b.Inactive())
  {
    PutBelowCapacity(b, i);
    RangeSnoc(active, lo, i);
    RangeSnoc(history, lo, i);
  }

  /**
   * Puts lo, lo + 1, ..., hi - 1 back to back with no tick. While the
   * active queue stays within capacity nothing is flushed: the elements
   * join the active queue in order.
   */
  method PutRange(b: BufferExample<int>, lo: int, hi: int)
    requires b.Valid() && lo <= hi
    requires |b.Active()| + (hi - lo) <= b.capacity
    modifies b, b.q1, b.q2
    ensures b.running == old(b.running)
    ensures b.Valid()
    ensures b.q1active == old(b.q1active) && b.emitted == old(b.emitted)
    ensures b.history == old(b.history) + Range(lo, hi)
    ensures b.Active() == old(b.Active()) + Range(lo, hi)
    ensures b.Inactive() == old(b.Inactive())
  {
    ghost var active, inactive, history := b.Active(), b.Inactive(), b.history;
    var i := lo;
    while i < hi
      invariant lo <= i <= hi
      invariant b.Valid()
      invariant b.q1active == old(b.q1active) && b.emitted == old(b.emitted) && b.running == old(b.running)
      invariant b.history == history + Range(lo, i)
      invariant b.Active() == active + Range(lo, i) && b.Inactive() == inactive
    {
      PutNext(b, active, history, lo, i);
      i := i + 1;
    }
  }

  /**
   * A burst of 250 back-to-back Puts of 1..250 into a buffer of
   * capacity 100 with no timer tick. Two batches of 100 are emitted, the
   * second one being 102..201; element 101 and 49 later ones are still in
   * the first queue, 202 in the second.
   */
  method BurstWithoutTick() returns (batches: seq<seq<int>>, first: seq<int>, second: seq<int>)
    ensures batches == [Range(1, 101), Range(102, 202)]
    ensures first == [101] + Range(203, 251) && second == [202]
    ensures |first| + |second| == 50
  {
    var b := new BufferExample<int>(1000.0, 100);
    // 1..100 fill the first queue up to capacity
    PutRange(b, 1, 101);
    assert b.Active() == Range(1, 101);
    // 101 flushes 1..100 and is then enqueued into the drained, inactive first queue
    b.Put(101);
    assert b.Active() == [] && b.Inactive() == [101];
    // 102..201 fill the second queue up to capacity
    PutRange(b, 102, 202);
    assert b.Active() == Range(102, 202);
    // 202 flushes 102..201 and is then enqueued into the drained second queue
    b.Put(202);
    assert b.Active() == [101] && b.Inactive() == [202];
    // 203..250 join 101 in the first queue
    PutRange(b, 203, 251);
    batches, first, second := b.emitted, b.q1.contents, b.q2.contents;
  }
}
