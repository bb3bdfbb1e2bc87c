/** server/include/ringbuffer/ringbuffer.hpp: a circular array that behaves as a bounded queue. */
module RingBuffers {
  /** x mod c for x below 2c, without a division. */
  function Wrap(x: nat, c: nat): nat
    requires c > 0
  {
    if x < c then x else x - c
  }

  lemma ModIsWrap(x: nat, c: nat)
    requires 0 < c && x < 2 * c
    ensures x % c == Wrap(x, c)
  {
    if x >= c {
      assert x == c * 1 + (x - c);
      assert x / c == 1;
    }
  }

  lemma WrapNext(head: nat, count: nat, c: nat)
    requires head < c && 0 < count <= c
    ensures Wrap(head + 1, c) < c
    ensures Wrap(Wrap(head + 1, c) + (count - 1), c) == Wrap(head + count, c)
  {
  }

  /** The n cells from head on, around the end of the array. */
  function View<T>(cells: seq<T>, head: nat, n: nat): (s: seq<T>)
    requires n <= |cells| && (n > 0 ==> head < |cells|)
    ensures |s| == n
  {
    seq(n, i requires 0 <= i < n => cells[Wrap(head + i, |cells|)])
  }

  lemma ViewPush<T>(cells: seq<T>, head: nat, n: nat, x: T)
    requires n < |cells| && head < |cells|
    ensures View(cells[Wrap(head + n, |cells|) := x], head, n + 1) == View(cells, head, n) + [x]
  {
    var at := Wrap(head + n, |cells|);
    forall i | 0 <= i <= n
      ensures View(cells[at := x], head, n + 1)[i] == (View(cells, head, n) + [x])[i]
    {
      if i < n { assert Wrap(head + i, |cells|) != at; }
    }
  }

  lemma ViewPop<T>(cells: seq<T>, head: nat, n: nat)
    requires 0 < n <= |cells| && head < |cells|
    ensures View(cells, head, n) == [cells[head]] + View(cells, Wrap(head + 1, |cells|), n - 1)
  {
    var rest := View(cells, Wrap(head + 1, |cells|), n - 1);
    forall i | 0 <= i < n
      ensures View(cells, head, n)[i] == ([cells[head]] + rest)[i]
    {
      if i > 0 {
        assert rest[i - 1] == cells[Wrap(Wrap(head + 1, |cells|) + (i - 1), |cells|)];
        assert Wrap(Wrap(head + 1, |cells|) + (i - 1), |cells|) == Wrap(head + i, |cells|);
        assert View(cells, head, n)[i] == cells[Wrap(head + i, |cells|)];
      } else {
        assert View(cells, head, n)[0] == cells[Wrap(head + 0, |cells|)];
      }
    }
  }

  class RingBuffer<T(0)> {
    const buffer: array<T>
    const capacity: nat
    var head: nat
    var tail: nat
    var count: nat
    var stopped: bool

    ghost predicate Valid()
      reads this
    {
      && buffer.Length == capacity && count <= capacity
      && if capacity == 0 then head == tail == 0 else head < capacity && tail == Wrap(head + count, capacity)
    }

    /** The queue the buffer stands for, oldest element first. */
    ghost function Contents(): (s: seq<T>)
      requires Valid()
      reads this, buffer
      ensures |s| == count
    {
      View(buffer[..], head, count)
    }

    constructor (capacity: nat)
      ensures Valid() && Contents() == [] && this.capacity == capacity && !stopped && fresh(buffer)
    {
      this.capacity := capacity;
      buffer := new T[capacity];
      head, tail, count, stopped := 0, 0, 0, false;
    }

    /** Refuses exactly when full, also for capacity zero. */
    method TryPush(item: T) returns (ok: bool)
      requires Valid()
      modifies this`tail, this`count, buffer
      ensures Valid()
      ensures ok <==> |old(Contents())| < capacity
      ensures Contents() == if ok then old(Contents()) + [item] else old(Contents())
    {
      if count == capacity {
        return false;
      }
      ModIsWrap(tail + 1, capacity);
      ViewPush(buffer[..], head, count, item);
      ghost var cells := buffer[..];
      buffer[tail] := item;
      assert buffer[..] == cells[tail := item];
      tail := (tail + 1) % capacity;
      count := count + 1;
      return true;
    }

    /** Takes everything, oldest first. */
    method DrainNoWait() returns (result: seq<T>)
      requires Valid()
      modifies this`head, this`count
      ensures Valid()
      ensures result == old(Contents()) && Contents() == []
    {
      hide View, Wrap;
      result := [];
      while count > 0
        invariant Valid()
        invariant result + Contents() == old(Contents())
        decreases count
      {
        ModIsWrap(head + 1, capacity);
        WrapNext(head, count, capacity);
        ViewPop(buffer[..], head, count);
        ghost var rest := View(buffer[..], Wrap(head + 1, capacity), count - 1);
        assert result + ([buffer[head]] + rest) == (result + [buffer[head]]) + rest;
        result := result + [buffer[head]];
        head := (head + 1) % capacity;
        count := count - 1;
      }
    }

    method Stop()
      requires Valid()
      modifies this`stopped
      ensures Valid() && stopped && Contents() == old(Contents())
    {
      stopped := true;
    }
  }

  /** In a valid buffer the write position is the one head and count determine. */
  lemma TailPosition<T(0)>(ring: RingBuffer<T>)
    requires ring.Valid() && ring.capacity > 0
    ensures ring.tail == (ring.head + ring.count) % ring.capacity
  {
    ModIsWrap(ring.head + ring.count, ring.capacity);
  }

  datatype Op<T> = Push(item: T) | Drain

  /** The bounded queue: what each operation leaves, and what it hands out. */
  function Queue<T>(ops: seq<Op<T>>, capacity: nat): seq<T> {
    if ops == [] then [] else
      var q := Queue(ops[..|ops| - 1], capacity);
      match ops[|ops| - 1]
      case Push(x) => if |q| < capacity then q + [x] else q
      case Drain => []
  }

  function Drained<T>(ops: seq<Op<T>>, capacity: nat): seq<T> {
    if ops == [] then [] else
      var before := Drained(ops[..|ops| - 1], capacity);
      match ops[|ops| - 1]
      case Push(_) => before
      case Drain => before + Queue(ops[..|ops| - 1], capacity)
  }

  /** The pushes that the buffer did not refuse. */
  function Accepted<T>(ops: seq<Op<T>>, capacity: nat): seq<T> {
    if ops == [] then [] else
      var before := Accepted(ops[..|ops| - 1], capacity);
      match ops[|ops| - 1]
      case Push(x) => if |Queue(ops[..|ops| - 1], capacity)| < capacity then before + [x] else before
      case Drain => before
  }

  /** First in, first out: what left and what is still inside make up what was accepted. */
  lemma {:induction false} FifoConservation<T>(ops: seq<Op<T>>, capacity: nat)
    ensures Drained(ops, capacity) + Queue(ops, capacity) == Accepted(ops, capacity)
    ensures |Queue(ops, capacity)| <= capacity
  {
    if ops != [] {
      FifoConservation(ops[..|ops| - 1], capacity);
    }
  }

  /** The circular array refines the bounded queue over every sequence of operations. */
  method RunOps<T(0)>(ops: seq<Op<T>>, capacity: nat) returns (drained: seq<T>, ring: RingBuffer<T>)
    ensures fresh(ring) && ring.Valid() && ring.Contents() == Queue(ops, capacity)
    ensures drained == Drained(ops, capacity)
  {
    ring := new RingBuffer(capacity);
    drained := [];
    for i := 0 to |ops|
      invariant ring.Valid() && ring.capacity == capacity && fresh(ring) && fresh(ring.buffer)
      invariant ring.Contents() == Queue(ops[..i], capacity) && drained == Drained(ops[..i], capacity)
    {
      assert ops[..i + 1][..i] == ops[..i];
      match ops[i]
      case Push(x) => var ok := ring.TryPush(x);
      case Drain =>
        var batch := ring.DrainNoWait();
        drained := drained + batch;
    }
    assert ops[..|ops|] == ops;
  }
}
