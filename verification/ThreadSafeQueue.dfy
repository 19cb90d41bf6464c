/** The optionally bounded queue (src/LetsTalk/ThreadSafeQueue.hpp). Every method runs under the
    queue's lock; whether a pop waited in vain is visible only as an empty queue. */
module Queues {
  import opened Common

  // ---- the operations on values ----

  /** The trimming loop: with a bound, the oldest items go until the bound holds. */
  function Trim<T>(capacity: nat, items: seq<T>): (r: seq<T>)
    ensures r == if capacity > 0 then LastN(items, capacity) else items
    decreases |items|
  {
    if capacity > 0 && |items| > capacity then
      DropsFirst(capacity, items);
      Trim(capacity, items[1..])
    else items
  }

  lemma DropsFirst<T>(capacity: nat, items: seq<T>)
    requires |items| > capacity
    ensures LastN(items[1..], capacity) == LastN(items, capacity)
  {
    assert items[1..][|items| - 1 - capacity..] == items[|items| - capacity..];
  }

  /** push discards at most one item. */
  function Push<T>(capacity: nat, items: seq<T>, x: T): (r: seq<T>)
    ensures |r| == if capacity > 0 && |items| >= capacity then |items| else |items| + 1
    ensures r != [] && r[|r| - 1] == x
  {
    var more := items + [x];
    if capacity > 0 && |more| > capacity then more[1..] else more
  }

  /** pushAll, and emplace for a single item, discard until the bound holds. */
  function PushAll<T>(capacity: nat, items: seq<T>, xs: seq<T>): (r: seq<T>)
    ensures capacity > 0 ==> |r| <= capacity
  {
    Trim(capacity, items + xs)
  }

  function PushEach<T>(capacity: nat, items: seq<T>, xs: seq<T>): seq<T>
    decreases |xs|
  {
    if xs == [] then items else PushEach(capacity, Push(capacity, items, xs[0]), xs[1..])
  }

  lemma {:induction false} PushEachMeaning<T>(capacity: nat, items: seq<T>, xs: seq<T>)
    requires capacity == 0 || |items| <= capacity
    ensures PushEach(capacity, items, xs) == PushAll(capacity, items, xs)
    decreases |xs|
  {
    if xs != [] {
      var next := Push(capacity, items, xs[0]);
      PushEachMeaning(capacity, next, xs[1..]);
      TrimTwice(capacity, items, xs);
    } else {
      assert items + xs == items;
    }
  }

  lemma TrimTwice<T>(capacity: nat, items: seq<T>, xs: seq<T>)
    requires xs != [] && (capacity == 0 || |items| <= capacity)
    ensures PushAll(capacity, Push(capacity, items, xs[0]), xs[1..]) == PushAll(capacity, items, xs)
  {
    var more := items + [xs[0]];
    assert more + xs[1..] == items + xs;
    if capacity > 0 && |more| > capacity {
      assert more[1..] + xs[1..] == (items + xs)[1..];
    }
  }

  lemma {:induction false} PushEachKeepsSize<T>(capacity: nat, items: seq<T>, xs: seq<T>)
    requires 0 < capacity <= |items|
    ensures |PushEach(capacity, items, xs)| == |items|
    decreases |xs|
  {
    if xs != [] {
      PushEachKeepsSize(capacity, Push(capacity, items, xs[0]), xs[1..]);
    }
  }

  /** Pushing all at once equals pushing one by one exactly when the queue is unbounded or within
      its bound. A queue can only be beyond its bound after a swap; then one by one keeps the
      excess, and all at once removes it. */
  lemma PushAllIsRepeatedPush<T>(capacity: nat, items: seq<T>, xs: seq<T>)
    ensures PushAll(capacity, items, xs) == PushEach(capacity, items, xs) <==> capacity == 0 || |items| <= capacity
  {
    if capacity == 0 || |items| <= capacity {
      PushEachMeaning(capacity, items, xs);
    } else {
      PushEachKeepsSize(capacity, items, xs);
    }
  }

  // ---- runs ----

  datatype Op<T> = DoPush(x: T) | DoPushAll(xs: seq<T>) | DoEmplace(x: T) | DoPop | DoPopAll | DoClear

  /** The queue after an operation. */
  function Do<T>(capacity: nat, items: seq<T>, op: Op<T>): seq<T> {
    match op
    case DoPush(x) => Push(capacity, items, x)
    case DoPushAll(xs) => PushAll(capacity, items, xs)
    case DoEmplace(x) => PushAll(capacity, items, [x])
    case DoPop => if items == [] then [] else items[1..]
    case DoPopAll => []
    case DoClear => []
  }

  /** What an operation adds, and what it hands out. */
  function Added<T>(op: Op<T>): seq<T> {
    match op
    case DoPush(x) => [x]
    case DoPushAll(xs) => xs
    case DoEmplace(x) => [x]
    case _ => []
  }

  function Popped<T>(items: seq<T>, op: Op<T>): seq<T> {
    match op
    case DoPop => items[..if items == [] then 0 else 1]
    case DoPopAll => items
    case _ => []
  }

  /** A run: what was pushed, what is left, and for each item that left, in order, whether it was
      handed out (true) or discarded (false). */
  datatype History<T> = History(pushed: seq<T>, items: seq<T>, left: seq<(T, bool)>)

  function Tagged<T>(xs: seq<T>, out: bool): (r: seq<(T, bool)>)
    ensures |r| == |xs| && forall i :: 0 <= i < |xs| ==> r[i] == (xs[i], out)
  {
    if xs == [] then [] else [(xs[0], out)] + Tagged(xs[1..], out)
  }

  function Items<T>(left: seq<(T, bool)>): (r: seq<T>)
    ensures |r| == |left| && forall i :: 0 <= i < |left| ==> r[i] == left[i].0
  {
    if left == [] then [] else [left[0].0] + Items(left[1..])
  }

  predicate IsTail<T(==)>(r: seq<T>, all: seq<T>) {
    |r| <= |all| && r == all[|all| - |r|..]
  }

  /** An operation appends, and then takes from the front. */
  lemma DoLeavesTail<T>(capacity: nat, items: seq<T>, op: Op<T>)
    ensures IsTail(Do(capacity, items, op), items + Added(op))
  {
    match op
    case DoPush(x) => PushLeavesTail(capacity, items, x);
    case DoPushAll(xs) => PushAllLeavesTail(capacity, items, xs);
    case DoEmplace(x) => PushAllLeavesTail(capacity, items, [x]);
    case _ => RemovalLeavesTail(capacity, items, op);
  }

  lemma PushLeavesTail<T>(capacity: nat, items: seq<T>, x: T)
    ensures IsTail(Push(capacity, items, x), items + [x])
  {
  }

  lemma PushAllLeavesTail<T>(capacity: nat, items: seq<T>, xs: seq<T>)
    ensures IsTail(PushAll(capacity, items, xs), items + xs)
  {
  }

  lemma RemovalLeavesTail<T>(capacity: nat, items: seq<T>, op: Op<T>)
    requires op.DoPop? || op.DoPopAll? || op.DoClear?
    ensures IsTail(Do(capacity, items, op), items + Added(op))
  {
    assert items + Added(op) == items;
  }

  /** The items an operation takes from the front of the queue it finds, its own included. */
  function Leaving<T>(capacity: nat, items: seq<T>, op: Op<T>): (r: seq<T>)
    ensures items + Added(op) == r + Do(capacity, items, op)
  {
    var all := items + Added(op);
    DoLeavesTail(capacity, items, op);
    all[..|all| - |Do(capacity, items, op)|]
  }

  function Advance<T>(capacity: nat, h: History<T>, op: Op<T>): History<T> {
    History(h.pushed + Added(op),
            Do(capacity, h.items, op),
            h.left + Tagged(Leaving(capacity, h.items, op), op.DoPop? || op.DoPopAll?))
  }

  function RunOps<T>(capacity: nat, ops: seq<Op<T>>): History<T> {
    if ops == [] then History([], [], [])
    else Advance(capacity, RunOps(capacity, ops[..|ops| - 1]), ops[|ops| - 1])
  }

  /** Everything the pops of a run returned, in order. */
  function Received<T>(capacity: nat, ops: seq<Op<T>>): seq<T> {
    if ops == [] then []
    else Received(capacity, ops[..|ops| - 1]) + Popped(RunOps(capacity, ops[..|ops| - 1]).items, ops[|ops| - 1])
  }

  /** The items of those that were handed out. */
  function HandedOut<T>(left: seq<(T, bool)>): seq<T> {
    if left == [] then []
    else (if left[0].1 then [left[0].0] else []) + HandedOut(left[1..])
  }

  function FirstOut<T>(left: seq<(T, bool)>): seq<T>
    requires left != []
  {
    if left[0].1 then [left[0].0] else []
  }

  lemma HandedOutFirst<T>(left: seq<(T, bool)>)
    requires left != []
    ensures HandedOut(left) == FirstOut(left) + HandedOut(left[1..])
  {
  }

  lemma {:induction false} HandedOutConcat<T>(a: seq<(T, bool)>, b: seq<(T, bool)>)
    ensures HandedOut(a + b) == HandedOut(a) + HandedOut(b)
  {
    if a == [] {
      assert a + b == b && [] + HandedOut(b) == HandedOut(b);
    } else {
      hide HandedOut;
      assert (a + b)[1..] == a[1..] + b && (a + b)[0] == a[0];
      HandedOutConcat(a[1..], b);
      HandedOutFirst(a + b);
      HandedOutFirst(a);
      Associate(FirstOut(a), HandedOut(a[1..]), HandedOut(b));
    }
  }

  lemma Associate<T>(a: seq<T>, b: seq<T>, c: seq<T>)
    ensures (a + b) + c == a + (b + c)
  {
  }

  lemma {:induction false} HandedOutTagged<T>(xs: seq<T>, out: bool)
    ensures HandedOut(Tagged(xs, out)) == if out then xs else []
  {
    if xs != [] {
      HandedOutTagged(xs[1..], out);
      assert Tagged(xs, out)[1..] == Tagged(xs[1..], out);
    }
  }

  lemma ItemsTagged<T>(left: seq<(T, bool)>, xs: seq<T>, out: bool)
    ensures Items(left + Tagged(xs, out)) == Items(left) + xs
  {
  }

  lemma LogStep<T>(capacity: nat, h: History<T>, op: Op<T>)
    requires h.pushed == Items(h.left) + h.items
    ensures var n := Advance(capacity, h, op); n.pushed == Items(n.left) + n.items
  {
    var gone := Leaving(capacity, h.items, op);
    ItemsTagged(h.left, gone, op.DoPop? || op.DoPopAll?);
    Regroup(Items(h.left), h.items, Added(op), gone, Do(capacity, h.items, op));
  }

  lemma Regroup<T>(left: seq<T>, items: seq<T>, added: seq<T>, gone: seq<T>, rest: seq<T>)
    requires items + added == gone + rest
    ensures (left + items) + added == (left + gone) + rest
  {
    assert (left + items) + added == left + (items + added);
    assert (left + gone) + rest == left + (gone + rest);
  }

  /** The queue is the tail of its history: in every run the items pushed are, in order, those
      that left followed by those still inside; so only the oldest ever go. The pops return the
      items that were handed out, in that same order, and the bound always holds. */
  lemma {:induction false} QueueRefinesLog<T>(capacity: nat, ops: seq<Op<T>>)
    ensures var h := RunOps(capacity, ops);
            && h.pushed == Items(h.left) + h.items
            && Received(capacity, ops) == HandedOut(h.left)
            && (capacity > 0 ==> |h.items| <= capacity)
  {
    if ops != [] {
      hide Advance, Do, Leaving, Popped, HandedOut, Items;
      var h, op := RunOps(capacity, ops[..|ops| - 1]), ops[|ops| - 1];
      QueueRefinesLog(capacity, ops[..|ops| - 1]);
      LogStep(capacity, h, op);
      HandedOutStep(capacity, h, op);
      BoundStep(capacity, h, op);
    }
  }

  lemma HandedOutStep<T>(capacity: nat, h: History<T>, op: Op<T>)
    ensures HandedOut(Advance(capacity, h, op).left) == HandedOut(h.left) + Popped(h.items, op)
  {
    hide Leaving, Do, HandedOut, Tagged, Popped;
    var gone, out := Leaving(capacity, h.items, op), op.DoPop? || op.DoPopAll?;
    HandedOutConcat(h.left, Tagged(gone, out));
    HandedOutTagged(gone, out);
    PoppedLeave(capacity, h.items, op);
  }

  lemma BoundStep<T>(capacity: nat, h: History<T>, op: Op<T>)
    requires capacity > 0 ==> |h.items| <= capacity
    ensures capacity > 0 ==> |Advance(capacity, h, op).items| <= capacity
  {
  }

  lemma PoppedLeave<T>(capacity: nat, items: seq<T>, op: Op<T>)
    ensures Popped(items, op) == if op.DoPop? || op.DoPopAll? then Leaving(capacity, items, op) else []
  {
  }

  /** Nothing is discarded needlessly: an item lost to a push leaves the queue exactly full. */
  lemma DiscardsOnlyWhenFull<T>(capacity: nat, items: seq<T>, op: Op<T>)
    requires capacity > 0 ==> |items| <= capacity
    requires op.DoPush? || op.DoPushAll? || op.DoEmplace?
    ensures Leaving(capacity, items, op) != [] <==> 0 < capacity < |items| + |Added(op)|
    ensures Leaving(capacity, items, op) != [] ==> |Do(capacity, items, op)| == capacity
  {
  }

  // ---- two queues that may be swapped ----

  datatype PairOp<T> = OnFirst(op: Op<T>) | OnSecond(op: Op<T>) | SwapBoth

  function DoPair<T>(c1: nat, c2: nat, q: (seq<T>, seq<T>), op: PairOp<T>): (seq<T>, seq<T>) {
    match op
    case OnFirst(o) => (Do(c1, q.0, o), q.1)
    case OnSecond(o) => (q.0, Do(c2, q.1, o))
    case SwapBoth => (q.1, q.0)
  }

  function RunPair<T>(c1: nat, c2: nat, q: (seq<T>, seq<T>), ops: seq<PairOp<T>>): (seq<T>, seq<T>)
    decreases |ops|
  {
    if ops == [] then q else RunPair(c1, c2, DoPair(c1, c2, q, ops[0]), ops[1..])
  }

  /** The excess a swap can bring is bounded: whatever two bounded queues do, neither ever holds
      more than the larger bound. */
  lemma {:induction false} SwappedQueuesStayBounded<T>(c1: nat, c2: nat, q: (seq<T>, seq<T>), ops: seq<PairOp<T>>)
    requires c1 > 0 && c2 > 0
    requires var c := if c1 > c2 then c1 else c2; |q.0| <= c && |q.1| <= c
    ensures var c := if c1 > c2 then c1 else c2;
            var r := RunPair(c1, c2, q, ops); |r.0| <= c && |r.1| <= c
    decreases |ops|
  {
    if ops != [] {
      SwappedQueuesStayBounded(c1, c2, DoPair(c1, c2, q, ops[0]), ops[1..]);
    }
  }

  // ---- the object ----

  class ThreadSafeQueue<T> {
    const capacity: nat
    var queue: seq<T>

    constructor (capacity: nat)
      ensures this.capacity == capacity && queue == []
    {
      this.capacity := capacity;
      queue := [];
    }

    method Clear()
      modifies this
      ensures queue == Do(capacity, old(queue), DoClear)
    {
      queue := [];
    }

    /** None is the null pointer of a pop that found nothing in time. */
    method Pop() returns (popped: Option<T>)
      modifies this
      ensures queue == Do(capacity, old(queue), DoPop)
      ensures (if popped.Some? then [popped.value] else []) == Popped(old(queue), DoPop)
      ensures popped.None? <==> old(queue) == []
    {
      if queue == [] {
        return None;
      }
      popped := Some(queue[0]);
      queue := queue[1..];
    }

    method PopAll() returns (popped: seq<T>)
      modifies this
      ensures queue == Do(capacity, old(queue), DoPopAll) && popped == Popped(old(queue), DoPopAll)
    {
      popped, queue := queue, [];
    }

    method PushBack(x: T)
      modifies this
      ensures queue == Do(capacity, old(queue), DoPush(x))
    {
      queue := queue + [x];
      if capacity > 0 && |queue| > capacity {
        queue := queue[1..];
      }
    }

    method Trimmed()
      modifies this
      ensures queue == Trim(capacity, old(queue))
    {
      while capacity > 0 && |queue| > capacity
        invariant Trim(capacity, queue) == Trim(capacity, old(queue))
        decreases |queue|
      {
        queue := queue[1..];
      }
    }

    method PushBackAll(xs: seq<T>)
      modifies this
      ensures queue == Do(capacity, old(queue), DoPushAll(xs))
    {
      var i := 0;
      while i < |xs|
        invariant 0 <= i <= |xs|
        invariant queue == old(queue) + xs[..i]
      {
        queue := queue + [xs[i]];
        i := i + 1;
      }
      assert xs[..i] == xs;
      Trimmed();
    }

    method Emplace(x: T)
      modifies this
      ensures queue == Do(capacity, old(queue), DoEmplace(x))
    {
      queue := queue + [x];
      Trimmed();
    }

    /** Locking one mutex twice is not allowed, so a queue is not swapped with itself. */
    method Swap(other: ThreadSafeQueue<T>)
      requires other != this
      modifies this, other
      ensures queue == old(other.queue) && other.queue == old(queue)
    {
      queue, other.queue := other.queue, queue;
    }
  }
}
