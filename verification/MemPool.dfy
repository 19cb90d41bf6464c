/** The pool that nodes and attributes are allocated from (external/tinyxml2/tinyxml2.h lines
    336-440). Items are numbered across all blocks; the free ones form a chain through their own
    memory, which belongs to the caller while an item is in use. */
module MemPools {
  import opened Common

  type Item = nat

  /** perBlock items come with each block, size of them so far; next is the first word of each. */
  datatype Pool = Pool(
    perBlock: nat,
    size: nat,
    next: map<Item, Option<Item>>,
    root: Option<Item>,
    currentAllocs: int,
    nAllocs: int,
    maxAllocs: int,
    nUntracked: int)

  function NewPool(perBlock: nat): Pool {
    Pool(perBlock, 0, map[], None, 0, 0, 0, 0)
  }

  /** The words of the items start to end - 1 of a new block, each pointing to the one behind it. */
  function Threaded(next: map<Item, Option<Item>>, start: Item, end: Item): map<Item, Option<Item>>
    requires start < end
    decreases end - start
  {
    if start == end - 1 then next[start := None] else Threaded(next[start := Some(start + 1)], start + 1, end)
  }

  lemma {:induction false} ThreadedMeaning(next: map<Item, Option<Item>>, start: Item, end: Item, a: Item)
    requires start < end
    ensures a in Threaded(next, start, end) <==> a in next || start <= a < end
    ensures start <= a < end ==> Threaded(next, start, end)[a] == if a == end - 1 then None else Some(a + 1)
    ensures a in next && !(start <= a < end) ==> Threaded(next, start, end)[a] == next[a]
    decreases end - start
  {
    if start < end - 1 {
      ThreadedMeaning(next[start := Some(start + 1)], start + 1, end, a);
    }
  }

  /** The first half of Alloc: an empty chain gets a new block. */
  function Stocked(p: Pool): Pool {
    if p.root.Some? || p.perBlock == 0 then p
    else p.(size := p.size + p.perBlock, next := Threaded(p.next, p.size, p.size + p.perBlock), root := Some(p.size))
  }

  /** Alloc takes the head of the chain. */
  function Allocated(p: Pool): Pool
    requires Stocked(p).root.Some? && Stocked(p).root.value in Stocked(p).next
  {
    var s := Stocked(p);
    s.(root := s.next[s.root.value],
       currentAllocs := s.currentAllocs + 1,
       nAllocs := s.nAllocs + 1,
       maxAllocs := if s.currentAllocs + 1 > s.maxAllocs then s.currentAllocs + 1 else s.maxAllocs,
       nUntracked := s.nUntracked + 1)
  }

  /** Free puts the item at the head. */
  function Freed(p: Pool, a: Item): Pool {
    p.(root := Some(a), next := p.next[a := p.root], currentAllocs := p.currentAllocs - 1)
  }

  // ---- the invariant ----

  /** Following the chain from root meets exactly the items of free, and ends. */
  predicate Chain(next: map<Item, Option<Item>>, root: Option<Item>, free: seq<Item>)
    decreases |free|
  {
    if free == [] then root.None?
    else root == Some(free[0]) && free[0] in next && Chain(next, next[free[0]], free[1..])
  }

  /** Every item of every block is either free or live, never both. */
  ghost predicate Partition(size: nat, free: seq<Item>, live: set<Item>) {
    && Distinct(free)
    && (forall a: Item :: a in free ==> a !in live)
    && (forall a: Item :: a in free || a in live <==> a < size)
  }

  ghost predicate Ok(p: Pool, live: set<Item>, free: seq<Item>) {
    && p.perBlock > 0
    && Chain(p.next, p.root, free)
    && Partition(p.size, free, live)
    && (forall a: Item :: a in p.next <==> a < p.size)
    && p.currentAllocs == |live| <= p.maxAllocs
  }

  /** The chain depends on the words of free items only. */
  lemma {:induction false} ChainFrame(m: map<Item, Option<Item>>, n: map<Item, Option<Item>>, root: Option<Item>,
                                      free: seq<Item>)
    requires Chain(m, root, free) && forall a :: a in free ==> a in n && (a in m ==> n[a] == m[a])
    ensures Chain(n, root, free)
    decreases |free|
  {
    if free != [] {
      assert free[0] in free;
      ChainFrame(m, n, m[free[0]], free[1..]);
    }
  }

  function Range(start: Item, n: nat): (r: seq<Item>)
    ensures |r| == n && forall i :: 0 <= i < n ==> r[i] == start + i
    decreases n
  {
    if n == 0 then [] else [start] + Range(start + 1, n - 1)
  }

  lemma {:induction false} ThreadedChain(next: map<Item, Option<Item>>, start: Item, n: nat, end: nat)
    requires start + n == end
    requires forall i :: start <= i < end ==> i in next && next[i] == if i == end - 1 then None else Some(i + 1)
    ensures Chain(next, if n == 0 then None else Some(start), Range(start, n))
    decreases n
  {
    if n > 0 {
      ThreadedChain(next, start + 1, n - 1, end);
      assert Range(start, n)[1..] == Range(start + 1, n - 1);
    }
  }

  lemma InRange(start: Item, n: nat, a: Item)
    ensures a in Range(start, n) <==> start <= a < start + n
  {
    if start <= a < start + n {
      assert Range(start, n)[a - start] == a;
    }
  }

  lemma StockedKeeps(p: Pool, live: set<Item>, free: seq<Item>) returns (stock: seq<Item>)
    requires Ok(p, live, free)
    ensures Ok(Stocked(p), live, stock) && stock != [] && Stocked(p).root == Some(stock[0])
    ensures free != [] ==> stock == free
  {
    if free == [] {
      stock := Range(p.size, p.perBlock);
      NewBlock(p, live);
    } else {
      stock := free;
    }
  }

  lemma NewBlock(p: Pool, live: set<Item>)
    requires Ok(p, live, [])
    ensures Ok(Stocked(p), live, Range(p.size, p.perBlock)) && Stocked(p).root == Some(p.size)
  {
    var s := Stocked(p);
    forall a: Item
      ensures a in s.next <==> a in p.next || p.size <= a < s.size
      ensures p.size <= a < s.size ==> s.next[a] == if a == s.size - 1 then None else Some(a + 1)
    {
      ThreadedMeaning(p.next, p.size, s.size, a);
    }
    ThreadedChain(s.next, p.size, p.perBlock, p.size + p.perBlock);
    forall a: Item ensures a in Range(p.size, p.perBlock) <==> p.size <= a < p.size + p.perBlock {
      InRange(p.size, p.perBlock, a);
    }
  }

  /** Alloc hands out an item that nobody holds, and keeps the books. */
  lemma AllocKeeps(p: Pool, live: set<Item>, free: seq<Item>) returns (a: Item, rest: seq<Item>)
    requires Ok(p, live, free)
    ensures Stocked(p).root == Some(a) && a in Stocked(p).next && a !in live
    ensures Ok(Allocated(p), live + {a}, rest)
  {
    var stock := StockedKeeps(p, live, free);
    a, rest := stock[0], stock[1..];
    TakeHead(Stocked(p).size, stock, live);
  }

  lemma TakeHead(size: nat, stock: seq<Item>, live: set<Item>)
    requires Partition(size, stock, live) && stock != []
    ensures stock[0] !in live && stock[0] < size && Partition(size, stock[1..], live + {stock[0]})
    ensures |live + {stock[0]}| == |live| + 1
  {
  }

  lemma FreeKeeps(p: Pool, live: set<Item>, free: seq<Item>, a: Item)
    requires Ok(p, live, free) && a in live
    ensures Ok(Freed(p, a), live - {a}, [a] + free)
  {
    var q := Freed(p, a);
    ChainFrame(p.next, q.next, p.root, free);
    assert ([a] + free)[1..] == free;
    PutHead(p.size, free, live, a);
  }

  lemma PutHead(size: nat, free: seq<Item>, live: set<Item>, a: Item)
    requires Partition(size, free, live) && a in live
    ensures Partition(size, [a] + free, live - {a}) && |live - {a}| == |live| - 1
  {
  }

  lemma WriteKeeps(p: Pool, live: set<Item>, free: seq<Item>, a: Item, word: Option<Item>)
    requires Ok(p, live, free) && a in live
    ensures Ok(p.(next := p.next[a := word]), live, free)
  {
    ChainFrame(p.next, p.next[a := word], p.root, free);
  }

  // ---- runs ----

  /** Callers allocate, write anything into what they hold, and give it back. */
  datatype Use = Alloc | Write(a: Item, word: Option<Item>) | Free(a: Item)

  datatype State = State(pool: Pool, live: set<Item>)

  predicate Allowed(s: State, u: Use) {
    u.Alloc? || u.a in s.live
  }

  /** None where Alloc would follow a link that leads nowhere. */
  function Step(s: State, u: Use): Option<State>
    requires Allowed(s, u)
  {
    match u
    case Alloc =>
      var root := Stocked(s.pool).root;
      if root.None? || root.value !in Stocked(s.pool).next then None
      else Some(State(Allocated(s.pool), s.live + {root.value}))
    case Write(a, word) => Some(s.(pool := s.pool.(next := s.pool.next[a := word])))
    case Free(a) => Some(State(Freed(s.pool, a), s.live - {a}))
  }

  /** The run is allowed up to where it gets stuck, if it does. */
  predicate CanUse(s: State, uses: seq<Use>)
    decreases |uses|
  {
    uses == [] || (Allowed(s, uses[0]) && (Step(s, uses[0]).Some? ==> CanUse(Step(s, uses[0]).value, uses[1..])))
  }

  function UseAll(s: State, uses: seq<Use>): Option<State>
    requires CanUse(s, uses)
    decreases |uses|
  {
    if uses == [] then Some(s)
    else if Step(s, uses[0]).None? then None
    else UseAll(Step(s, uses[0]).value, uses[1..])
  }

  lemma StepKeeps(s: State, free: seq<Item>, u: Use) returns (rest: seq<Item>)
    requires Ok(s.pool, s.live, free) && Allowed(s, u)
    ensures Step(s, u).Some? && Ok(Step(s, u).value.pool, Step(s, u).value.live, rest)
  {
    match u
    case Alloc =>
      var a;
      a, rest := AllocKeeps(s.pool, s.live, free);
    case Write(a, word) =>
      rest := free;
      WriteKeeps(s.pool, s.live, free, a, word);
    case Free(a) =>
      rest := [a] + free;
      FreeKeeps(s.pool, s.live, free, a);
  }

  lemma {:induction false} RunKeeps(s: State, free: seq<Item>, uses: seq<Use>) returns (rest: seq<Item>)
    requires Ok(s.pool, s.live, free) && CanUse(s, uses)
    ensures UseAll(s, uses).Some? && Ok(UseAll(s, uses).value.pool, UseAll(s, uses).value.live, rest)
    decreases |uses|
  {
    if uses == [] {
      rest := free;
    } else {
      var after := StepKeeps(s, free, uses[0]);
      rest := RunKeeps(Step(s, uses[0]).value, after, uses[1..]);
    }
  }

  /** Integrity over every run, whatever callers write into the items they hold: the pool never
      follows a dangling link, the free chain and the live items split the items of all blocks,
      and _currentAllocs is the number of live items. */
  lemma PoolIntegrity(perBlock: nat, uses: seq<Use>) returns (free: seq<Item>)
    requires perBlock > 0 && CanUse(State(NewPool(perBlock), {}), uses)
    ensures var s := UseAll(State(NewPool(perBlock), {}), uses);
            && s.Some? && Chain(s.value.pool.next, s.value.pool.root, free)
            && Partition(s.value.pool.size, free, s.value.live)
            && s.value.pool.currentAllocs == |s.value.live|
  {
    free := RunKeeps(State(NewPool(perBlock), {}), [], uses);
  }

  // ---- the object ----

  class MemPool {
    const perBlock: nat
    var size: nat
    var next: map<Item, Option<Item>>
    var root: Option<Item>
    var currentAllocs: int
    var nAllocs: int
    var maxAllocs: int
    var nUntracked: int
    ghost var live: set<Item>
    ghost var free: seq<Item>

    function Value(): Pool
      reads this
    {
      Pool(perBlock, size, next, root, currentAllocs, nAllocs, maxAllocs, nUntracked)
    }

    ghost predicate Valid()
      reads this
    {
      Ok(Value(), live, free)
    }

    constructor (perBlock: nat)
      requires perBlock > 0
      ensures Valid() && Value() == NewPool(perBlock) && live == {}
    {
      this.perBlock := perBlock;
      size, next, root := 0, map[], None;
      currentAllocs, nAllocs, maxAllocs, nUntracked := 0, 0, 0, 0;
      live, free := {}, [];
    }

    /** Deletes the blocks: whatever was live is gone. */
    method Clear()
      requires Valid()
      modifies this
      ensures Valid() && Value() == NewPool(perBlock) && live == {}
    {
      size, next, root := 0, map[], None;
      currentAllocs, nAllocs, maxAllocs, nUntracked := 0, 0, 0, 0;
      live, free := {}, [];
    }

    /** A new block: each item points to the one behind it, the last one nowhere. */
    method AddBlock()
      requires perBlock > 0
      modifies this`size, this`next, this`root
      ensures size == old(size) + perBlock && root == Some(old(size))
      ensures next == Threaded(old(next), old(size), old(size) + perBlock)
    {
      var i := 0;
      while i < perBlock - 1
        invariant 0 <= i <= perBlock - 1
        invariant Threaded(next, size + i, size + perBlock) == Threaded(old(next), size, size + perBlock)
        invariant size == old(size)
      {
        next := next[size + i := Some(size + i + 1)];
        i := i + 1;
      }
      next := next[size + perBlock - 1 := None];
      root := Some(size);
      size := size + perBlock;
    }

    method Allocate() returns (a: Item)
      requires Valid()
      modifies this
      ensures Valid() && a !in old(live) && live == old(live) + {a}
      ensures old(Stocked(Value()).root) == Some(a) && a in old(Stocked(Value()).next)
      ensures Value() == Allocated(old(Value()))
    {
      ghost var item, rest := AllocKeeps(Value(), live, free);
      if root.None? {
        AddBlock();
      }
      a := TakeRoot();
      live, free := live + {a}, rest;
    }

    method TakeRoot() returns (a: Item)
      requires root.Some? && root.value in next
      modifies this`root, this`currentAllocs, this`nAllocs, this`maxAllocs, this`nUntracked
      ensures Some(a) == old(root) && root == next[a]
      ensures currentAllocs == old(currentAllocs) + 1 && nAllocs == old(nAllocs) + 1
      ensures nUntracked == old(nUntracked) + 1
      ensures maxAllocs == if old(maxAllocs) < currentAllocs then currentAllocs else old(maxAllocs)
    {
      a := root.value;
      root := next[a];
      currentAllocs := currentAllocs + 1;
      if currentAllocs > maxAllocs {
        maxAllocs := currentAllocs;
      }
      nAllocs := nAllocs + 1;
      nUntracked := nUntracked + 1;
    }

    /** Only what is live may be given back; the null pointer is ignored. */
    method Release(mem: Option<Item>)
      requires Valid() && (mem.Some? ==> mem.value in live)
      modifies this
      ensures Valid() && live == old(live) - (if mem.Some? then {mem.value} else {})
      ensures Value() == if mem.Some? then Freed(old(Value()), mem.value) else old(Value())
    {
      if mem.None? {
        return;
      }
      FreeKeeps(Value(), live, free, mem.value);
      currentAllocs := currentAllocs - 1;
      next := next[mem.value := root];
      root := mem;
      live, free := live - {mem.value}, [mem.value] + free;
    }
  }
}
