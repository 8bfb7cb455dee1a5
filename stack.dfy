/**
 * The linked stack of src/stack.c.
 *
 * The chain of nodes from `top` is the sequence `items`, top first; `size`
 * is the counter the source keeps beside it. The functions take a handle
 * that may be NULL, which is `Stack?` here.
 */
module LinkedStack {
  import opened Common

  class Stack<T> {
    /** The data of the nodes from top to bottom. */
    var items: seq<T>
    var size: nat

    ghost predicate Valid()
      reads this
    {
      size == |items|
    }

    /** upo_stack_create: top NULL and size 0. */
    constructor ()
      ensures Valid() && items == []
    {
      items := [];
      size := 0;
    }
  }

  /** The top is NULL exactly when the stack is empty; otherwise it is the most recent push still present. */
  function TopOf<T>(items: seq<T>): (r: Option<T>)
    ensures r.None? <==> items == []
    ensures r.Some? ==> r.value == items[0]
  {
    if items == [] then None else Some(items[0])
  }

  /** upo_stack_is_empty: 1 for a NULL stack or a size of 0. */
  method IsEmpty<T>(stack: Stack?<T>) returns (r: bool)
    requires stack != null ==> stack.Valid()
    ensures r <==> stack == null || stack.items == []
  {
    if stack != null {
      return !(stack.size > 0);
    }
    return true;
  }

  /** upo_stack_push: on a non-NULL stack, `data` becomes the top. */
  method Push<T>(stack: Stack?<T>, data: T)
    requires stack != null ==> stack.Valid()
    modifies stack
    ensures stack != null ==> stack.Valid() && stack.items == [data] + old(stack.items)
  {
    if stack != null {
      stack.items := [data] + stack.items;
      stack.size := stack.size + 1;
    }
  }

  /** upo_stack_pop: on a non-empty stack the top node is unlinked; otherwise nothing happens. */
  method Pop<T>(stack: Stack?<T>)
    requires stack != null ==> stack.Valid()
    modifies stack
    ensures stack != null ==> stack.Valid() && stack.items == if old(stack.items) == [] then [] else old(stack.items)[1..]
  {
    var empty := IsEmpty(stack);
    if !empty {
      stack.items := stack.items[1..];
      stack.size := stack.size - 1;
    }
  }

  /** upo_stack_top: the top's data, or NULL for an empty or NULL stack. */
  method Top<T>(stack: Stack?<T>) returns (r: Option<T>)
    requires stack != null ==> stack.Valid()
    ensures r == if stack == null then None else TopOf(stack.items)
  {
    var empty := IsEmpty(stack);
    if empty {
      return None;
    }
    return Some(stack.items[0]);
  }

  /** upo_stack_size: 0 for a NULL or empty stack, else the size field. */
  method Size<T>(stack: Stack?<T>) returns (n: nat)
    requires stack != null ==> stack.Valid()
    ensures n == if stack == null then 0 else |stack.items|
  {
    var empty := IsEmpty(stack);
    if !empty {
      return stack.size;
    }
    return 0;
  }

  /** upo_stack_clear: unlink the top until the stack is empty. */
  method Clear<T>(stack: Stack?<T>)
    requires stack != null ==> stack.Valid()
    modifies stack
    ensures stack != null ==> stack.Valid() && stack.items == []
  {
    var empty := IsEmpty(stack);
    while !empty
      invariant stack != null ==> stack.Valid()
      invariant empty <==> stack == null || stack.items == []
      decreases if stack == null then 0 else |stack.items|
    {
      stack.items := stack.items[1..];
      stack.size := stack.size - 1;
      empty := IsEmpty(stack);
    }
  }

  /**
   * Last in, first out: pushing `xs` in order onto a fresh stack and then
   * reading and popping the top until it is empty yields `xs` reversed.
   */
  method PushAllPopAll<T>(xs: seq<T>) returns (out: seq<T>)
    ensures |out| == |xs| && forall i :: 0 <= i < |xs| ==> out[i] == xs[|xs| - 1 - i]
  {
    var stack := new Stack<T>();
    for i := 0 to |xs|
      invariant stack.Valid() && |stack.items| == i
      invariant forall p :: 0 <= p < i ==> stack.items[p] == xs[i - 1 - p]
    {
      Push(stack, xs[i]);
    }
    out := [];
    var top := Top(stack);
    while top.Some?
      invariant stack.Valid() && |out| + |stack.items| == |xs|
      invariant forall p :: 0 <= p < |out| ==> out[p] == xs[|xs| - 1 - p]
      invariant forall p :: 0 <= p < |stack.items| ==> stack.items[p] == xs[|stack.items| - 1 - p]
      invariant top == TopOf(stack.items)
      decreases |stack.items|
    {
      out := out + [top.value];
      Pop(stack);
      top := Top(stack);
    }
  }
}
