/**
 * The doubly linked queue of src/queue.c.
 *
 * The chain of nodes from `first` to `last` is the sequence `items`, front
 * first; `size` is the counter the source keeps beside it. The functions
 * take a handle that may be NULL, which is `Queue?` here.
 */
module LinkedQueue {
  import opened Common

  class Queue<T> {
    /** The data of the nodes from first to last. */
    var items: seq<T>
    var size: nat

    ghost predicate Valid()
      reads this
    {
      size == |items|
    }

    /** upo_queue_create: first and last NULL, size 0. */
    constructor ()
      ensures Valid() && items == []
    {
      items := [];
      size := 0;
    }
  }

  /** upo_queue_enqueue: on a non-NULL queue the new node is linked after `last`. */
  method Enqueue<T>(queue: Queue?<T>, data: T)
    requires queue != null ==> queue.Valid()
    modifies queue
    ensures queue != null ==> queue.Valid() && queue.items == old(queue.items) + [data]
  {
    if queue == null {
      return;
    }
    queue.items := queue.items + [data];
    queue.size := queue.size + 1;
  }

  /** upo_queue_dequeue: on a non-NULL, non-empty queue the first node is unlinked. */
  method Dequeue<T>(queue: Queue?<T>)
    requires queue != null ==> queue.Valid()
    modifies queue
    ensures queue != null ==> queue.Valid() && queue.items == if old(queue.items) == [] then [] else old(queue.items)[1..]
  {
    if queue == null {
      return;
    }
    if queue.size == 0 {
      return;
    }
    queue.items := queue.items[1..];
    queue.size := queue.size - 1;
  }

  /**
   * upo_queue_peek: NULL for a NULL queue; otherwise the data of `first`,
   * which exists only when the queue holds something.
   */
  method Peek<T>(queue: Queue?<T>) returns (r: Option<T>)
    requires queue != null ==> queue.Valid() && queue.items != []
    ensures queue == null ==> r.None?
    ensures queue != null ==> r == Some(queue.items[0])
  {
    if queue == null {
      return None;
    }
    return Some(queue.items[0]);
  }

  /** upo_queue_size: 0 for a NULL queue, else the size field. */
  method Size<T>(queue: Queue?<T>) returns (n: nat)
    requires queue != null ==> queue.Valid()
    ensures n == if queue == null then 0 else |queue.items|
  {
    if queue == null {
      return 0;
    }
    return queue.size;
  }

  /** upo_queue_is_empty: 0 for a NULL queue, otherwise 1 exactly when the size is 0. */
  method IsEmpty<T>(queue: Queue?<T>) returns (r: bool)
    requires queue != null ==> queue.Valid()
    ensures r <==> queue != null && queue.items == []
  {
    if queue == null {
      return false;
    }
    if queue.size > 0 {
      return false;
    }
    return true;
  }

  /**
   * upo_queue_clear: nodes are freed from `last` back towards `first`, then
   * `first` itself; the size ends at 0.
   */
  method Clear<T>(queue: Queue?<T>)
    requires queue != null ==> queue.Valid()
    modifies queue
    ensures queue != null ==> queue.Valid() && queue.items == []
  {
    if queue == null {
      return;
    }
    var empty := IsEmpty(queue);
    if empty {
      return;
    }
    while |queue.items| > 1
      invariant queue.Valid() && queue.items != []
      invariant queue.items == old(queue.items)[..|queue.items|]
    {
      queue.items := queue.items[..|queue.items| - 1];
      queue.size := queue.size - 1;
    }
    queue.items := [];
    queue.size := queue.size - 1;
  }

  /**
   * First in, first out: enqueuing `xs` in order onto a fresh queue and then
   * peeking and dequeuing until it is empty yields `xs` in the same order.
   */
  method EnqueueAllDrain<T>(xs: seq<T>) returns (out: seq<T>)
    ensures out == xs
  {
    var queue := new Queue<T>();
    for i := 0 to |xs|
      invariant queue.Valid() && queue.items == xs[..i]
    {
      Enqueue(queue, xs[i]);
      assert xs[..i + 1] == xs[..i] + [xs[i]];
    }
    out := [];
    var empty := IsEmpty(queue);
    while !empty
      invariant queue.Valid() && out + queue.items == xs
      invariant empty <==> queue.items == []
      decreases |queue.items|
    {
      var front := Peek(queue);
      out := out + [front.value];
      Dequeue(queue);
      empty := IsEmpty(queue);
    }
  }

  /** The queue of the library's own test: 0 to 9 come out in order. */
  method DrainDigits() returns (out: seq<int>)
    ensures out == [0, 1, 2, 3, 4, 5, 6, 7, 8, 9]
  {
    out := EnqueueAllDrain([0, 1, 2, 3, 4, 5, 6, 7, 8, 9]);
  }
}
