/** fifo_t: a ring buffer with head, tail and count, and the sequential bounded queue it refines. */
module Fifo {
  import opened Modular

  // The sequential queue

  /** Everything ever put into the queue and how much of it has been taken out. The history starts
      with the initial buffer contents, already taken, because dequeue on an empty queue returns
      whatever the next slot still holds. */
  datatype Queue<T> = Queue(history: seq<T>, taken: nat) {
    ghost predicate Valid(capacity: nat) {
      0 < capacity <= |history| && taken <= |history| <= taken + capacity
    }

    function Pending(): seq<T>
      requires taken <= |history|
    {
      history[taken..]
    }
  }

  function EmptyQueue<T>(initial: seq<T>): Queue<T> { Queue(initial, |initial|) }

  /** True reports that the queue is full and the item was refused. */
  function Put<T>(q: Queue<T>, capacity: nat, x: T): (Queue<T>, bool)
    requires q.Valid(capacity)
  {
    if |q.Pending()| == capacity then (q, true) else (q.(history := q.history + [x]), false)
  }

  /** The oldest pending item; on an empty queue the item put one capacity ago, which is not removed. */
  function Take<T>(q: Queue<T>, capacity: nat): (Queue<T>, T)
    requires q.Valid(capacity)
  {
    if q.Pending() == [] then (q, q.history[|q.history| - capacity])
    else (q.(taken := q.taken + 1), q.Pending()[0])
  }

  /** First in, first out, within the capacity: putting appends unless the queue is full, taking removes
      the oldest pending item, and an empty queue yields the item put one capacity ago. */
  lemma QueueLaws<T>(q: Queue<T>, capacity: nat, x: T)
    requires q.Valid(capacity)
    ensures
      var (p, full) := Put(q, capacity, x);
      && p.Valid(capacity) && (full <==> |q.Pending()| == capacity)
      && p.Pending() == q.Pending() + if full then [] else [x]
    ensures
      var (r, y) := Take(q, capacity);
      && r.Valid(capacity) && r.history == q.history
      && (if q.Pending() == [] then r == q && y == q.history[|q.history| - capacity]
          else q.Pending() == [y] + r.Pending())
  {
  }

  // The ring as a value

  datatype Ring<T> = Ring(buffer: seq<T>, count: nat, head: nat, tail: nat)

  function StoreItem<T>(r: Ring<T>, x: T): Ring<T>
    requires r.head < |r.buffer|
  {
    r.(buffer := r.buffer[r.head := x])
  }

  function AdvanceHead<T>(r: Ring<T>): Ring<T>
    requires r.buffer != []
  {
    r.(head := (r.head + 1) % |r.buffer|)
  }

  function AdvanceTail<T>(r: Ring<T>): Ring<T>
    requires r.buffer != []
  {
    r.(tail := (r.tail + 1) % |r.buffer|)
  }

  function Enqueued<T>(r: Ring<T>, x: T): (Ring<T>, bool)
    requires r.head < |r.buffer|
  {
    if r.count == |r.buffer| then (r, true)
    else (AdvanceHead(StoreItem(r, x)).(count := r.count + 1), false)
  }

  function Dequeued<T>(r: Ring<T>): (Ring<T>, T)
    requires r.tail < |r.buffer|
  {
    if r.count == 0 then (r, r.buffer[r.tail])
    else (AdvanceTail(r).(count := r.count - 1), r.buffer[r.tail])
  }

  /** The ring holds the last |buffer| items of the history, item i in slot i mod |buffer|. */
  ghost predicate Refines<T>(r: Ring<T>, q: Queue<T>) {
    var n := |r.buffer|;
    && q.Valid(n)
    && r.count == |q.history| - q.taken
    && r.head == |q.history| % n
    && r.tail == q.taken % n
    && forall i | |q.history| - n <= i < |q.history| :: r.buffer[i % n] == q.history[i]
  }

  lemma InitialRefines<T>(buffer: seq<T>)
    requires buffer != []
    ensures Refines(Ring(buffer, 0, 0, 0), EmptyQueue(buffer))
  {
    QuotientRemainder(|buffer|, |buffer|, 1, 0);
    forall i | 0 <= i < |buffer| ensures buffer[i % |buffer|] == buffer[i] {
      SmallRemainder(i, |buffer|);
    }
  }

  lemma EnqueueRefines<T>(r: Ring<T>, q: Queue<T>, x: T)
    requires Refines(r, q)
    ensures Enqueued(r, x).1 == Put(q, |r.buffer|, x).1
    ensures Refines(Enqueued(r, x).0, Put(q, |r.buffer|, x).0)
  {
    var n, h := |r.buffer|, |q.history|;
    StepRemainder(h, n);
    if r.count < n {
      var r', q' := Enqueued(r, x).0, Put(q, n, x).0;
      forall i | h + 1 - n <= i < h + 1 ensures r'.buffer[i % n] == q'.history[i] {
        if i < h {
          RemaindersDiffer(i, h, n);
        }
      }
    }
  }

  lemma DequeueRefines<T>(r: Ring<T>, q: Queue<T>)
    requires Refines(r, q)
    ensures Dequeued(r).1 == Take(q, |r.buffer|).1
    ensures Refines(Dequeued(r).0, Take(q, |r.buffer|).0)
  {
    var n, h := |r.buffer|, |q.history|;
    StepRemainder(q.taken, n);
    if r.count == 0 {
      AddModulus(h - n, n);
      assert r.buffer[(h - n) % n] == q.history[h - n];
    } else {
      assert r.buffer[q.taken % n] == q.history[q.taken];
    }
  }

  // The object

  class FifoBuffer<T> {
    var buffer: array?<T>
    var size: nat
    var count: nat
    var head: nat
    var tail: nat

    ghost predicate Valid()
      reads this, buffer
    {
      && 0 < size
      && (buffer != null ==> size <= buffer.Length)
      && count <= size && head < size && tail < size
    }

    ghost function Value(): Ring<T>
      requires Valid() && buffer != null
      reads this, buffer
    {
      Ring(buffer[..size], count, head, tail)
    }

    constructor (b: array?<T>, n: nat)
      requires 0 < n && (b != null ==> n <= b.Length)
      ensures Valid() && buffer == b && size == n
      ensures b != null ==> Value() == Ring(b[..n], 0, 0, 0)
    {
      buffer, size, count, head, tail := b, n, 0, 0, 0;
    }

    method IncrementHead() returns (full: bool)
      requires Valid()
      modifies this`head, this`count
      ensures Valid() && full == (old(count) == size)
      ensures head == if full then old(head) else (old(head) + 1) % size
      ensures count == if full then old(count) else old(count) + 1
    {
      if count == size {
        return true;
      }
      head := (head + 1) % size;
      count := count + 1;
      return false;
    }

    method IncrementTail() returns (empty: bool)
      requires Valid()
      modifies this`tail, this`count
      ensures Valid() && empty == (old(count) == 0)
      ensures tail == if empty then old(tail) else (old(tail) + 1) % size
      ensures count == if empty then old(count) else old(count) - 1
    {
      if count == 0 {
        return true;
      }
      tail := (tail + 1) % size;
      count := count - 1;
      return false;
    }

    method Enqueue(x: T) returns (refused: bool)
      requires Valid()
      modifies this, buffer
      ensures Valid() && buffer == old(buffer) && size == old(size)
      ensures buffer == null ==> refused
      ensures buffer != null ==> (Value(), refused) == Enqueued(old(Value()), x)
    {
      if buffer == null {
        return true;
      }
      if count == size {
        return true;
      }
      ghost var r := Value();
      buffer[head] := x;
      assert buffer[..size] == r.buffer[head := x];
      var _ := IncrementHead();
      return false;
    }

    method Dequeue() returns (item: T)
      requires Valid() && buffer != null
      modifies this`tail, this`count
      ensures Valid() && (Value(), item) == Dequeued(old(Value()))
    {
      if count == 0 {
        return buffer[tail];
      }
      item := buffer[tail];
      var _ := IncrementTail();
    }
  }
}
