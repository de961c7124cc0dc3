/** The bounded drop-oldest queue (include/ring_buffer.hpp): as a value, and as the class over an array. */
module RingBuffers {
  import opened Options
  import opened Bytes

  /** What a ring holds, oldest item first. */
  datatype Queue<T> = Queue(capacity: nat, items: seq<T>, dropped: nat) {
    predicate Valid() {
      0 < capacity && |items| <= capacity
    }

    predicate Full() {
      |items| == capacity
    }

    function Push(x: T): (q: Queue<T>)
      requires Valid()
      ensures q.Valid() && q.capacity == capacity
    {
      if Full() then Queue(capacity, items[1..] + [x], dropped + 1)
      else Queue(capacity, items + [x], dropped)
    }

    function Pop(): (q: Queue<T>)
      requires Valid() && items != []
      ensures q.Valid() && q.capacity == capacity
    {
      Queue(capacity, items[1..], dropped)
    }
  }

  function EmptyQueue<T>(capacity: nat): (q: Queue<T>)
  {
    Queue(capacity, [], 0)
  }

  /** k mod n for an index at most one lap ahead. */
  function Wrap(k: nat, n: nat): (r: nat)
    requires k < 2 * n
    ensures r < n
  {
    if k < n then k else k - n
  }

  lemma ModuloWraps(k: nat, n: nat)
    requires k < 2 * n
    ensures k % n == Wrap(k, n)
  {
    if k < n {
      QuotientUnique(k, n, 0, k);
    } else {
      QuotientUnique(k, n, 1, k - n);
    }
  }

  /** The next index round the ring. */
  function Next(k: nat, n: nat): (r: nat)
    requires k < n
    ensures r == Wrap(k + 1, n)
  {
    ModuloWraps(k + 1, n);
    (k + 1) % n
  }

  /** Where the i-th oldest item lives in an array of n slots that is read from slot r. */
  function Slot(r: nat, i: nat, n: nat): (k: nat)
    requires r < n && i <= n
    ensures k < n
  {
    Wrap(r + i, n)
  }

  /** The slots from r on hold the last `size` pushes, oldest first. */
  predicate Holds<T(==)>(slots: seq<T>, r: nat, size: nat, pushed: seq<T>)
  {
    && r < |slots| && size <= |slots| && size <= |pushed|
    && forall i :: 0 <= i < size ==> slots[Slot(r, i, |slots|)] == pushed[|pushed| - size + i]
  }

  lemma BoundsOf<T>(slots: seq<T>, r: nat, size: nat, pushed: seq<T>)
    requires Holds(slots, r, size, pushed)
    ensures r < |slots| && size <= |slots| && size <= |pushed|
  {
  }

  /** Writing behind the newest item of a ring that is not full. */
  lemma HoldsOneMore<T>(slots: seq<T>, r: nat, size: nat, pushed: seq<T>, x: T)
    requires Holds(slots, r, size, pushed) && size < |slots|
    ensures Holds(slots[Slot(r, size, |slots|) := x], r, size + 1, pushed + [x])
    ensures Wrap(Slot(r, size, |slots|) + 1, |slots|) == Slot(r, size + 1, |slots|)
  {
  }

  /** Writing over the oldest item of a full ring. */
  lemma HoldsNewest<T>(slots: seq<T>, r: nat, pushed: seq<T>, x: T)
    requires Holds(slots, r, |slots|, pushed)
    ensures Slot(r, |slots|, |slots|) == r && Slot(Wrap(r + 1, |slots|), |slots|, |slots|) == Wrap(r + 1, |slots|)
    ensures Holds(slots[r := x], Wrap(r + 1, |slots|), |slots|, pushed + [x])
  {
    var n, r' := |slots|, Wrap(r + 1, |slots|);
    forall i | 0 <= i < n
      ensures slots[r := x][Slot(r', i, n)] == (pushed + [x])[|pushed| + 1 - n + i]
    {
      if i < n - 1 {
        assert Slot(r', i, n) == Slot(r, i + 1, n) != r;
      }
    }
  }

  /** Leaving the oldest item. */
  lemma HoldsOneLess<T>(slots: seq<T>, r: nat, size: nat, pushed: seq<T>)
    requires Holds(slots, r, size, pushed) && 0 < size
    ensures slots[r] == pushed[|pushed| - size]
    ensures Holds(slots, Wrap(r + 1, |slots|), size - 1, pushed)
  {
    assert Slot(r, 0, |slots|) == r;
    var n, r' := |slots|, Wrap(r + 1, |slots|);
    forall i | 0 <= i < size - 1
      ensures slots[Slot(r', i, n)] == pushed[|pushed| - (size - 1) + i]
    {
      assert Slot(r', i, n) == Slot(r, i + 1, n);
    }
  }

  /** Pushing onto the queue of the last `size` pushes. */
  lemma LatestPushed<T>(n: nat, pushed: seq<T>, size: nat, dropped: nat, x: T)
    requires 0 < n && size <= n && size <= |pushed|
    ensures var all, more := pushed + [x], if size < n then 1 else 0;
            Queue(n, pushed[|pushed| - size..], dropped).Push(x)
            == Queue(n, all[|all| - (size + more)..], dropped + 1 - more)
  {
  }

  class RingBuffer<T(0)> {
    var buffer: array<T>
    var readIndex: nat
    var writeIndex: nat
    var size: nat
    var dropped: nat
    ghost var pushed: seq<T>  // every item ever pushed, in order
    ghost var pops: nat       // how many items were popped

    ghost predicate Valid()
      reads this, buffer
    {
      && 0 < buffer.Length
      && Holds(buffer[..], readIndex, size, pushed)
      && writeIndex == Slot(readIndex, size, buffer.Length)
      && |pushed| == pops + dropped + size
    }

    /** The held items are exactly the last `size` pushes. */
    ghost function Model(): (q: Queue<T>)
      requires Valid()
      reads this, buffer
      ensures q.Valid()
    {
      Queue(buffer.Length, pushed[|pushed| - size..], dropped)
    }

    /** write_index is read_index plus size, modulo the capacity. */
    lemma WriteIndexIsModulo()
      requires Valid()
      ensures writeIndex == (readIndex + size) % buffer.Length
    {
      ModuloWraps(readIndex + size, buffer.Length);
    }

    constructor (capacity: nat)
      requires capacity > 0
      ensures Valid() && fresh(buffer)
      ensures Model() == EmptyQueue(capacity) && pushed == [] && pops == 0
    {
      buffer := new T[capacity];
      readIndex, writeIndex, size, dropped := 0, 0, 0, 0;
      pushed, pops := [], 0;
    }

    /** Construction with the source's rejection of a zero capacity. */
    static method Create(capacity: nat) returns (r: Option<RingBuffer<T>>)
      ensures r.None? <==> capacity == 0
      ensures r.Some? ==> r.value.Valid() && fresh(r.value) && fresh(r.value.buffer)
                          && r.value.Model() == EmptyQueue(capacity)
    {
      if capacity == 0 {
        return None;
      }
      var ring := new RingBuffer<T>(capacity);
      r := Some(ring);
    }

    /** The index and counter updates of a push. */
    method Advance()
      requires readIndex < buffer.Length && writeIndex < buffer.Length
      modifies this`readIndex, this`writeIndex, this`size, this`dropped
      ensures writeIndex == Wrap(old(writeIndex) + 1, buffer.Length)
      ensures if old(size) == buffer.Length
              then readIndex == Wrap(old(readIndex) + 1, buffer.Length) && size == old(size)
                   && dropped == old(dropped) + 1
              else readIndex == old(readIndex) && size == old(size) + 1 && dropped == old(dropped)
    {
      hide Wrap;
      if size == buffer.Length {
        readIndex := Next(readIndex, buffer.Length);
        dropped := dropped + 1;
      } else {
        size := size + 1;
      }
      writeIndex := Next(writeIndex, buffer.Length);
    }

    method Push(item: T)
      requires Valid()
      modifies this, buffer
      ensures Valid() && buffer == old(buffer)
      ensures Model() == old(Model()).Push(item)
      ensures pushed == old(pushed) + [item] && pops == old(pops)
    {
      hide Holds, Slot, Wrap, Queue.Push;
      ghost var n, slots := buffer.Length, buffer[..];
      BoundsOf(slots, readIndex, size, pushed);
      if size < n {
        HoldsOneMore(slots, readIndex, size, pushed, item);
      } else {
        HoldsNewest(slots, readIndex, pushed, item);
      }
      LatestPushed(n, pushed, size, dropped, item);
      buffer[writeIndex] := item;
      assert buffer[..] == slots[writeIndex := item];
      Advance();
      pushed := pushed + [item];
    }

    method TryPopOldest() returns (out: Option<T>)
      requires Valid()
      modifies this
      ensures Valid() && buffer == old(buffer) && pushed == old(pushed)
      ensures out.None? <==> old(Model()).items == []
      ensures out.None? ==> Model() == old(Model()) && pops == old(pops)
      ensures out.Some? ==> Model() == old(Model()).Pop() && out.value == old(Model()).items[0] && pops == old(pops) + 1
      ensures out.Some? ==> |pushed| - old(size) >= |pushed| - buffer.Length
                            && out.value == pushed[|pushed| - old(size)]
    {
      if size == 0 {
        return None;
      }
      HoldsOneLess(buffer[..], readIndex, size, pushed);
      hide Holds;
      out := Some(buffer[readIndex]);
      readIndex := Next(readIndex, buffer.Length);
      size := size - 1;
      pops := pops + 1;
    }

    method Snapshot() returns (result: seq<T>)
      requires Valid()
      ensures result == Model().items
    {
      result := [];
      for i := 0 to size
        invariant result == pushed[|pushed| - size..|pushed| - size + i]
      {
        ModuloWraps(readIndex + i, buffer.Length);
        result := result + [buffer[(readIndex + i) % buffer.Length]];
        assert buffer[..][Slot(readIndex, i, buffer.Length)] == pushed[|pushed| - size + i];
      }
    }

    method Empty() returns (e: bool)
      requires Valid()
      ensures e <==> Model().items == []
    {
      e := size == 0;
    }
  }

  // ---------------------------------------------------------------- histories

  datatype Op<T> = PushOp(item: T) | PopOp

  datatype History<T> = History(queue: Queue<T>, pushed: seq<T>, popped: seq<T>)

  /** A ring after any interleaving of pushes and pops; a pop of an empty ring does nothing. */
  function After<T>(capacity: nat, ops: seq<Op<T>>): (h: History<T>)
    requires capacity > 0
    ensures h.queue.Valid() && h.queue.capacity == capacity
  {
    if ops == [] then History(EmptyQueue(capacity), [], [])
    else
      var h := After(capacity, ops[..|ops| - 1]);
      match ops[|ops| - 1]
      case PushOp(x) => History(h.queue.Push(x), h.pushed + [x], h.popped)
      case PopOp =>
        if h.queue.items == [] then h
        else History(h.queue.Pop(), h.pushed, h.popped + [h.queue.items[0]])
  }

  /** Whatever was pushed and popped: the ring holds exactly the latest pushes, and
      every push is popped, dropped or still held. */
  lemma {:induction false} HistoryHolds<T>(capacity: nat, ops: seq<Op<T>>)
    requires capacity > 0
    ensures var h := After(capacity, ops);
            && |h.pushed| == |h.popped| + h.queue.dropped + |h.queue.items|
            && h.queue.items == h.pushed[|h.pushed| - |h.queue.items|..]
  {
    if ops != [] {
      HistoryHolds(capacity, ops[..|ops| - 1]);
    }
  }
}
