/**
 * The outbound FIFO queue of src/queue.c: a singly linked list of items
 * holding byte copies, with `head` and `tail` pointers and a `size` counter
 * kept beside the list. The list is modelled by the sequence of its items
 * from `head` to `tail`; the counter is kept apart, as the source keeps it.
 */
module Queue {
  import opened Wrappers

  type Bytes = seq<bv8>

  /** `struct queue`: the items from head to tail, and the counter `size`. */
  datatype Queue = Queue(items: seq<Bytes>, size: nat)

  /** `queue_create`: no items, counter 0. */
  function Create(): (q: Queue)
    ensures q.items == [] && q.size == 0
  {
    Queue([], 0)
  }

  /**
   * `queue_enqueue`: a copy of the value becomes the new tail; when `head`
   * is NULL it becomes the head as well. `alloc` false is a failed item
   * allocation, which returns -1 and changes nothing.
   */
  function Enqueue(q: Queue, value: Bytes, alloc: bool): (r: (Queue, int))
    ensures !alloc ==> r == (q, -1)
    ensures alloc ==> r.1 == 0 && r.0.size == q.size + 1
    ensures alloc ==> |r.0.items| == |q.items| + 1 && r.0.items[..|q.items|] == q.items
    ensures alloc ==> r.0.items[|q.items|] == value
  {
    if !alloc then (q, -1)
    else if |q.items| == 0 then (Queue([value], q.size + 1), 0)
    else (Queue(q.items + [value], q.size + 1), 0)
  }

  /**
   * `queue_dequeue` as written: NULL on an empty queue; otherwise the head
   * item is unlinked and returned, and the counter is left as it was.
   */
  function DequeueAsWritten(q: Queue): (r: (Queue, Option<Bytes>))
    ensures |q.items| == 0 ==> r == (q, None)
    ensures |q.items| > 0 ==> r.1 == Some(q.items[0]) && q.items == [r.1.value] + r.0.items
    ensures r.0.size == q.size
  {
    if |q.items| == 0 then (q, None)
    else (Queue(q.items[1..], q.size), Some(q.items[0]))
  }

  /** `queue_dequeue` with the counter decremented along with the unlink. */
  function Dequeue(q: Queue): (r: (Queue, Option<Bytes>))
    ensures |q.items| == 0 ==> r == (q, None)
    ensures |q.items| > 0 ==> r.1 == Some(q.items[0]) && q.items == [r.1.value] + r.0.items
    ensures |q.items| > 0 && q.size > 0 ==> r.0.size + 1 == q.size
  {
    match DequeueAsWritten(q)
    case (u, Some(v)) => (u.(size := if u.size > 0 then u.size - 1 else 0), Some(v))
    case (u, None) => (u, None)
  }

  /** `queue_peek`: NULL on an empty queue or a failed copy allocation, otherwise a copy of the head item. */
  function Peek(q: Queue, alloc: bool): (r: Option<Bytes>)
    ensures |q.items| == 0 || !alloc ==> r.None?
  {
    if |q.items| == 0 || !alloc then None else Some(q.items[0])
  }

  /** `queue_get_size`: the counter. */
  function GetSize(q: Queue): (r: nat)
    ensures r == q.size
  {
    q.size
  }

  /** A peek that can allocate sees exactly the item the next dequeue returns, and a peek changes no queue. */
  lemma PeekIsNextDequeue(q: Queue)
    ensures Peek(q, true) == Dequeue(q).1 == DequeueAsWritten(q).1
  {
  }

  // ---------------------------------------------------------------------
  // FIFO order

  /** Enqueue every value in order, with every allocation succeeding. */
  function EnqueueAll(q: Queue, values: seq<Bytes>): Queue
    decreases |values|
  {
    if |values| == 0 then q
    else EnqueueAll(Enqueue(q, values[0], true).0, values[1..])
  }

  /** Dequeue until the queue is empty: the items in the order they come out. */
  function Drain(q: Queue): seq<Bytes>
    decreases |q.items|
  {
    match Dequeue(q)
    case (_, None) => []
    case (u, Some(v)) => [v] + Drain(u)
  }

  lemma {:induction false} EnqueueAllItems(q: Queue, values: seq<Bytes>)
    ensures EnqueueAll(q, values).items == q.items + values
    ensures EnqueueAll(q, values).size == q.size + |values|
    decreases |values|
  {
    if |values| > 0 {
      var u := Enqueue(q, values[0], true).0;
      EnqueueAllItems(u, values[1..]);
      assert u.items == q.items + [values[0]];
      assert values == [values[0]] + values[1..];
    }
  }

  lemma {:induction false} DrainItems(q: Queue)
    ensures Drain(q) == q.items
    decreases |q.items|
  {
    if |q.items| > 0 {
      DrainItems(Dequeue(q).0);
    }
  }

  /** Items come out in the order they went in, after whatever the queue held already. */
  lemma FifoOrder(q: Queue, values: seq<Bytes>)
    ensures Drain(EnqueueAll(q, values)) == q.items + values
    ensures Drain(EnqueueAll(Create(), values)) == values
  {
    EnqueueAllItems(q, values);
    DrainItems(EnqueueAll(q, values));
    EnqueueAllItems(Create(), values);
    DrainItems(EnqueueAll(Create(), values));
  }

  /** Once the queue has drained, the next enqueued item is both its head and its tail. */
  lemma EnqueueAfterDrain(first: Bytes, value: Bytes)
    ensures var drained := Dequeue(Enqueue(Create(), first, true).0).0;
      && drained.items == []
      && Enqueue(drained, value, true).0.items == [value]
  {
  }

  // ---------------------------------------------------------------------
  // The counter

  /** One call on a queue: an enqueue (with its allocation outcome), a dequeue, or a peek. */
  datatype Op = Push(value: Bytes, alloc: bool) | Pop | Look(alloc: bool)

  /** The queue after a sequence of calls, with the dequeue as written. */
  function RunAsWritten(q: Queue, ops: seq<Op>): Queue
    decreases |ops|
  {
    if |ops| == 0 then q
    else
      var next := match ops[0]
        case Push(v, a) => Enqueue(q, v, a).0
        case Pop => DequeueAsWritten(q).0
        case Look(_) => q;
      RunAsWritten(next, ops[1..])
  }

  /** The queue after a sequence of calls, with the corrected dequeue. */
  function Run(q: Queue, ops: seq<Op>): Queue
    decreases |ops|
  {
    if |ops| == 0 then q
    else
      var next := match ops[0]
        case Push(v, a) => Enqueue(q, v, a).0
        case Pop => Dequeue(q).0
        case Look(_) => q;
      Run(next, ops[1..])
  }

  /** The number of enqueues in a sequence of calls whose allocation succeeded. */
  function Pushes(ops: seq<Op>): nat {
    if |ops| == 0 then 0
    else (if ops[0].Push? && ops[0].alloc then 1 else 0) + Pushes(ops[1..])
  }

  /** As written, the counter counts the successful enqueues since creation, whatever was dequeued. */
  lemma {:induction false} CounterCountsEnqueues(q: Queue, ops: seq<Op>)
    ensures RunAsWritten(q, ops).size == q.size + Pushes(ops)
    decreases |ops|
  {
    if |ops| > 0 {
      var next := match ops[0]
        case Push(v, a) => Enqueue(q, v, a).0
        case Pop => DequeueAsWritten(q).0
        case Look(_) => q;
      CounterCountsEnqueues(next, ops[1..]);
    }
  }

  /** As written, one enqueue and one dequeue leave an empty queue whose size is reported as 1. */
  lemma CounterDriftsAsWritten(value: Bytes)
    ensures var q := RunAsWritten(Create(), [Push(value, true), Pop]);
      q.items == [] && GetSize(q) == 1
  {
    var ops := [Push(value, true), Pop];
    var q1 := Enqueue(Create(), value, true).0;
    assert ops[1..] == [Pop];
    assert RunAsWritten(Create(), ops) == RunAsWritten(q1, [Pop]);
    assert [Pop][1..] == [];
    assert RunAsWritten(q1, [Pop]) == RunAsWritten(DequeueAsWritten(q1).0, []);
  }

  /** With the corrected dequeue the counter is the number of items present after any sequence of calls. */
  lemma {:induction false} CounterCountsItems(q: Queue, ops: seq<Op>)
    requires q.size == |q.items|
    ensures GetSize(Run(q, ops)) == |Run(q, ops).items|
    decreases |ops|
  {
    if |ops| > 0 {
      var next := match ops[0]
        case Push(v, a) => Enqueue(q, v, a).0
        case Pop => Dequeue(q).0
        case Look(_) => q;
      CounterCountsItems(next, ops[1..]);
    }
  }
}
