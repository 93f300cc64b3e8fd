/** FastMemoryPool: fixed-size blocks cut from buckets, whose unused blocks hold the
    free list. Memory is addressed in blocks and address 0 is the null pointer; the
    word of a block is the union the pool links with and the user overwrites. */
module MemoryPools {
  import opened Options

  datatype Settings = Settings(blocksPerBucket: nat, maxAlloc: nat)

  /** What the pool's memory means: the bucket vector with its capacity, the free
      blocks in list order, and the blocks the users hold. */
  datatype Pool = Pool(buckets: seq<nat>, capacity: nat, free: seq<nat>, outstanding: set<nat>)

  /** `supply` is where operator new would place a bucket, None when it would throw. */
  datatype Op = Get(supply: Option<nat>) | Release(block: nat)

  datatype Event = Given(block: nat) | Returned(block: nat)

  // ---------- blocks ----------

  /** The blocks of a bucket, first to last. */
  function Blocks(base: nat, n: nat): seq<nat>
    decreases n
  {
    if n == 0 then [] else [base] + Blocks(base + 1, n - 1)
  }

  function Elements(s: seq<nat>): set<nat> {
    set x | x in s
  }

  function AllBlocks(buckets: seq<nat>, n: nat): set<nat> {
    if |buckets| == 0 then {}
    else AllBlocks(buckets[..|buckets| - 1], n) + Elements(Blocks(buckets[|buckets| - 1], n))
  }

  ghost predicate Distinct(s: seq<nat>) {
    forall i, j | 0 <= i < j < |s| :: s[i] != s[j]
  }

  /** Free and outstanding blocks partition the blocks of all buckets. */
  ghost predicate Inv(s: Pool, n: nat) {
    && Distinct(s.free)
    && Elements(s.free) !! s.outstanding
    && Elements(s.free) + s.outstanding == AllBlocks(s.buckets, n)
    && 0 !in AllBlocks(s.buckets, n)
    && |AllBlocks(s.buckets, n)| == |s.buckets| * n
    && |s.buckets| <= s.capacity
  }

  /** operator new returns memory not in use, and never null. */
  ghost predicate Unused(s: Pool, n: nat, supply: Option<nat>) {
    supply.Some? ==> supply.value > 0 && Elements(Blocks(supply.value, n)) !! AllBlocks(s.buckets, n)
  }

  /** What users owe the pool: they release what they hold. */
  ghost predicate Allowed(s: Pool, n: nat, op: Op) {
    match op
    case Get(supply) => Unused(s, n, supply)
    case Release(p) => p == 0 || p in s.outstanding
  }

  // ---------- operations ----------

  /** A new bucket; the flag is false for bad_alloc. */
  function Grow(c: Settings, s: Pool, supply: Option<nat>): (bool, Pool) {
    var full := |s.buckets| == s.capacity;
    if full && c.maxAlloc != 0 && s.capacity * 2 > c.maxAlloc then (false, s)
    else
      var capacity := if full then s.capacity * 2 else s.capacity;
      match supply
      case None => (false, s.(capacity := capacity))
      case Some(base) =>
        (true, s.(buckets := s.buckets + [base],
                  capacity := if |s.buckets| < capacity then capacity else |s.buckets| + 1,
                  free := Blocks(base, c.blocksPerBucket)))
  }

  /** The block handed out is the one at the front of the free list. */
  function Step(c: Settings, s: Pool, op: Op): (Pool, seq<Event>) {
    match op
    case Get(supply) =>
      var t := if s.free == [] then Grow(c, s, supply).1 else s;
      if t.free == [] then (t, [])
      else (t.(free := t.free[1..], outstanding := t.outstanding + {t.free[0]}), [Given(t.free[0])])
    case Release(p) =>
      if p == 0 then (s, [])
      else (s.(free := [p] + s.free, outstanding := s.outstanding - {p}), [Returned(p)])
  }

  ghost predicate AllAllowed(c: Settings, s: Pool, ops: seq<Op>)
    decreases |ops|
  {
    |ops| > 0 ==> Allowed(s, c.blocksPerBucket, ops[0]) && AllAllowed(c, Step(c, s, ops[0]).0, ops[1..])
  }

  function Run(c: Settings, s: Pool, ops: seq<Op>): (Pool, seq<Event>)
    decreases |ops|
  {
    if |ops| == 0 then (s, [])
    else
      var (t, here) := Step(c, s, ops[0]);
      var (u, later) := Run(c, t, ops[1..]);
      (u, here + later)
  }

  function Empty(bucketPreAlloc: nat): Pool {
    Pool([], bucketPreAlloc, [], {})
  }

  // ---------- the partition ----------

  lemma {:induction false} BlocksOfBucket(base: nat, n: nat)
    ensures forall x :: x in Blocks(base, n) <==> base <= x < base + n
    ensures Distinct(Blocks(base, n)) && |Blocks(base, n)| == n
    decreases n
  {
    if n > 0 {
      BlocksOfBucket(base + 1, n - 1);
      var rest := Blocks(base + 1, n - 1);
      assert forall k | 0 <= k < |rest| :: rest[k] in rest;
    }
  }

  lemma {:induction false} DistinctSize(s: seq<nat>)
    requires Distinct(s)
    ensures |Elements(s)| == |s|
  {
    if |s| > 0 {
      DistinctSize(s[1..]);
      assert Elements(s) == {s[0]} + Elements(s[1..]);
    }
  }

  /** A resize that now fails for want of memory has already doubled the vector. */
  predicate CapacityGrows(c: Settings, s: Pool) {
    |s.buckets| == s.capacity > 0 && (c.maxAlloc == 0 || s.capacity * 2 <= c.maxAlloc)
  }

  lemma GrowKeeps(c: Settings, s: Pool, supply: Option<nat>)
    requires Inv(s, c.blocksPerBucket) && s.free == [] && Unused(s, c.blocksPerBucket, supply)
    ensures var (ok, t) := Grow(c, s, supply);
            && Inv(t, c.blocksPerBucket)
            && t.outstanding == s.outstanding
            && (if ok then |t.free| == c.blocksPerBucket
                else t == s.(capacity := t.capacity) && (t == s <==> !CapacityGrows(c, s)))
  {
    var (ok, t) := Grow(c, s, supply);
    if ok {
      GrownKeeps(s, t, c.blocksPerBucket, supply.value);
    }
  }

  /** A resize that memory does not fail: it is refused exactly when a full vector would
      have to be doubled beyond maxAlloc, and else adds a bucket whose blocks, first to
      last, are free. */
  lemma GrowIsExact(c: Settings, s: Pool, base: nat)
    requires |s.buckets| <= s.capacity
    ensures var (ok, t) := Grow(c, s, Some(base));
            && (ok <==> |s.buckets| < s.capacity || c.maxAlloc == 0 || 2 * s.capacity <= c.maxAlloc)
            && (ok ==>
                  && t.buckets == s.buckets + [base] && t.outstanding == s.outstanding
                  && t.capacity == (if |s.buckets| < s.capacity then s.capacity
                                    else if s.capacity == 0 then 1 else 2 * s.capacity)
                  && |t.free| == c.blocksPerBucket
                  && forall i | 0 <= i < |t.free| :: t.free[i] == base + i)
  {
    BlocksInOrder(base, c.blocksPerBucket);
  }

  lemma {:induction false} BlocksInOrder(base: nat, n: nat)
    ensures |Blocks(base, n)| == n && forall i | 0 <= i < n :: Blocks(base, n)[i] == base + i
    decreases n
  {
    if n > 0 {
      BlocksInOrder(base + 1, n - 1);
    }
  }

  lemma GrownKeeps(s: Pool, t: Pool, n: nat, base: nat)
    requires Inv(s, n) && s.free == [] && Unused(s, n, Some(base))
    requires t.buckets == s.buckets + [base] && t.free == Blocks(base, n) && t.outstanding == s.outstanding
    requires |t.buckets| <= t.capacity
    ensures Inv(t, n) && |t.free| == n
  {
    BlocksOfBucket(base, n);
    NewBucket(s, n, base);
    hide AllBlocks, Blocks;
  }

  lemma NewBucket(s: Pool, n: nat, base: nat)
    requires Inv(s, n) && Unused(s, n, Some(base))
    ensures var all := AllBlocks(s.buckets + [base], n);
            && all == AllBlocks(s.buckets, n) + Elements(Blocks(base, n))
            && 0 !in all && |all| == (|s.buckets| + 1) * n
  {
    hide *;
    AllBlocksAppend(s.buckets, base, n);
    NewBlocks(s, n, base);
    InvCounts(s, n);
    DisjointSize(AllBlocks(s.buckets, n), Elements(Blocks(base, n)));
    assert (|s.buckets| + 1) * n == |s.buckets| * n + n;
  }

  lemma NewBlocks(s: Pool, n: nat, base: nat)
    requires Unused(s, n, Some(base))
    ensures var blocks := Elements(Blocks(base, n));
            0 !in blocks && |blocks| == n && AllBlocks(s.buckets, n) !! blocks
  {
    BlocksOfBucket(base, n);
    DistinctSize(Blocks(base, n));
  }

  lemma AllBlocksAppend(buckets: seq<nat>, base: nat, n: nat)
    ensures AllBlocks(buckets + [base], n) == AllBlocks(buckets, n) + Elements(Blocks(base, n))
  {
    assert (buckets + [base])[..|buckets|] == buckets;
  }

  lemma DisjointSize(a: set<nat>, b: set<nat>)
    requires a !! b
    ensures |a + b| == |a| + |b|
  {
  }

  lemma InvCounts(s: Pool, n: nat)
    requires Inv(s, n)
    ensures 0 !in AllBlocks(s.buckets, n) && |AllBlocks(s.buckets, n)| == |s.buckets| * n
  {
  }

  lemma FrontAndRest(list: seq<nat>)
    requires Distinct(list) && list != []
    ensures Distinct(list[1..]) && list[0] !in Elements(list[1..])
    ensures Elements(list) == {list[0]} + Elements(list[1..])
  {
  }

  lemma AddFront(p: nat, list: seq<nat>)
    requires Distinct(list) && p !in Elements(list)
    ensures Distinct([p] + list) && Elements([p] + list) == {p} + Elements(list)
  {
    assert forall x :: x in [p] + list <==> x == p || x in list;
  }

  lemma TakeFront(s: Pool, n: nat)
    requires Inv(s, n) && s.free != []
    ensures s.free[0] != 0 && s.free[0] !in s.outstanding
    ensures Inv(s.(free := s.free[1..], outstanding := s.outstanding + {s.free[0]}), n)
  {
    hide AllBlocks, Elements, Distinct;
    FrontAndRest(s.free);
  }

  lemma PutFront(s: Pool, n: nat, p: nat)
    requires Inv(s, n) && p in s.outstanding
    ensures Inv(s.(free := [p] + s.free, outstanding := s.outstanding - {p}), n)
  {
    hide AllBlocks, Elements, Distinct;
    AddFront(p, s.free);
  }

  /** Every operation keeps the partition; in particular a resize, which happens on
      an empty free list only, loses no block. */
  lemma StepKeeps(c: Settings, s: Pool, op: Op)
    requires Inv(s, c.blocksPerBucket) && Allowed(s, c.blocksPerBucket, op)
    ensures Inv(Step(c, s, op).0, c.blocksPerBucket)
  {
    match op {
      case Get(supply) =>
        if s.free == [] {
          GrowKeeps(c, s, supply);
        }
        hide Inv, Grow;
        var t := if s.free == [] then Grow(c, s, supply).1 else s;
        if t.free != [] {
          TakeFront(t, c.blocksPerBucket);
        }
      case Release(p) =>
        if p != 0 {
          PutFront(s, c.blocksPerBucket, p);
        }
    }
  }

  /** Conservation, over every run: the free and outstanding blocks are the blocks of
      the buckets, each once. */
  lemma {:induction false} RunKeeps(c: Settings, s: Pool, ops: seq<Op>)
    requires Inv(s, c.blocksPerBucket) && AllAllowed(c, s, ops)
    ensures var t := Run(c, s, ops).0;
            && Inv(t, c.blocksPerBucket)
            && |t.free| + |t.outstanding| == |t.buckets| * c.blocksPerBucket
    decreases |ops|
  {
    if |ops| == 0 {
      DistinctSize(s.free);
    } else {
      StepKeeps(c, s, ops[0]);
      RunKeeps(c, Step(c, s, ops[0]).0, ops[1..]);
    }
  }

  /** A pool starts consistent, with its first bucket free. */
  lemma NewPool(c: Settings, bucketPreAlloc: nat, supply: Option<nat>)
    requires Unused(Empty(bucketPreAlloc), c.blocksPerBucket, supply)
    ensures Inv(Empty(bucketPreAlloc), c.blocksPerBucket)
    ensures Inv(Grow(c, Empty(bucketPreAlloc), supply).1, c.blocksPerBucket)
  {
    GrowKeeps(c, Empty(bucketPreAlloc), supply);
  }

  // ---------- no block twice ----------

  /** The history says of each block whether a user holds it, and never hands out a
      held block or takes back one that is not held. */
  ghost predicate Replays(held: set<nat>, events: seq<Event>, end: set<nat>)
    decreases |events|
  {
    if |events| == 0 then held == end
    else
      match events[0]
      case Given(p) => p !in held && Replays(held + {p}, events[1..], end)
      case Returned(p) => p in held && Replays(held - {p}, events[1..], end)
  }

  lemma {:induction false} RunReplays(c: Settings, s: Pool, ops: seq<Op>)
    requires Inv(s, c.blocksPerBucket) && AllAllowed(c, s, ops)
    ensures Replays(s.outstanding, Run(c, s, ops).1, Run(c, s, ops).0.outstanding)
    decreases |ops|
  {
    if |ops| > 0 {
      StepKeeps(c, s, ops[0]);
      var (t, here) := Step(c, s, ops[0]);
      RunReplays(c, t, ops[1..]);
      StepEvent(c, s, ops[0]);
      var later := Run(c, t, ops[1..]).1;
      if here == [] {
        assert here + later == later;
      } else {
        assert (here + later)[1..] == later;
      }
    }
  }

  lemma StepEvent(c: Settings, s: Pool, op: Op)
    requires Inv(s, c.blocksPerBucket) && Allowed(s, c.blocksPerBucket, op)
    ensures var (t, e) := Step(c, s, op);
            if e == [] then t.outstanding == s.outstanding
            else |e| == 1 && match e[0]
                 case Given(p) => p !in s.outstanding && t.outstanding == s.outstanding + {p}
                 case Returned(p) => p in s.outstanding && t.outstanding == s.outstanding - {p}
  {
    if op.Get? {
      if s.free == [] {
        GrowKeeps(c, s, op.supply);
      }
      hide Inv, Grow;
      var t := if s.free == [] then Grow(c, s, op.supply).1 else s;
      if t.free != [] {
        TakeFront(t, c.blocksPerBucket);
      }
    }
  }

  lemma {:induction false} HeldUntilReturned(held: set<nat>, events: seq<Event>, end: set<nat>, j: nat, p: nat)
    requires Replays(held, events, end) && p in held && j < |events| && events[j] == Given(p)
    ensures exists k :: 0 <= k < j && events[k] == Returned(p)
    decreases |events|
  {
    if events[0] != Returned(p) {
      var next := if events[0].Given? then held + {events[0].block} else held - {events[0].block};
      HeldUntilReturned(next, events[1..], end, j - 1, p);
      var k :| 0 <= k < j - 1 && events[1..][k] == Returned(p);
      assert events[k + 1] == Returned(p);
    }
  }

  lemma {:induction false} GivenOnce(held: set<nat>, events: seq<Event>, end: set<nat>, i: nat, j: nat, p: nat)
    requires Replays(held, events, end) && i < j < |events| && events[i] == Given(p) && events[j] == Given(p)
    ensures exists k :: i < k < j && events[k] == Returned(p)
    decreases |events|
  {
    var next := if events[0].Given? then held + {events[0].block} else held - {events[0].block};
    if i == 0 {
      HeldUntilReturned(next, events[1..], end, j - 1, p);
      var k :| 0 <= k < j - 1 && events[1..][k] == Returned(p);
      assert events[k + 1] == Returned(p);
    } else {
      GivenOnce(next, events[1..], end, i - 1, j - 1, p);
      var k :| i - 1 < k < j - 1 && events[1..][k] == Returned(p);
      assert events[k + 1] == Returned(p);
    }
  }

  /** In every run of a consistent pool no block is handed out twice without being
      released in between. */
  lemma NoBlockTwice(c: Settings, s: Pool, ops: seq<Op>, i: nat, j: nat)
    requires Inv(s, c.blocksPerBucket) && AllAllowed(c, s, ops)
    requires i < j < |Run(c, s, ops).1| && Run(c, s, ops).1[i].Given? && Run(c, s, ops).1[j] == Run(c, s, ops).1[i]
    ensures var events := Run(c, s, ops).1;
            exists k :: i < k < j && events[k] == Returned(events[i].block)
  {
    RunReplays(c, s, ops);
    var (t, events) := Run(c, s, ops);
    GivenOnce(s.outstanding, events, t.outstanding, i, j, events[i].block);
  }

  /** Last in, first out: a released block is the next one given out, and taking it
      again undoes the release. */
  lemma GetUndoesRelease(c: Settings, s: Pool, p: nat, supply: Option<nat>)
    requires p != 0 && p in s.outstanding
    ensures var t := Step(c, s, Release(p)).0;
            Step(c, t, Get(supply)) == (s, [Given(p)])
  {
    var t := Step(c, s, Release(p)).0;
    assert t.free[1..] == s.free;
    assert t.outstanding + {p} == s.outstanding;
  }

  // ---------- the free list in memory ----------

  /** From `a`, the words of memory lead through exactly these blocks to null. */
  ghost predicate Chain(memory: map<nat, nat>, a: nat, list: seq<nat>)
    decreases |list|
  {
    if |list| == 0 then a == 0
    else a != 0 && a == list[0] && a in memory && Chain(memory, memory[a], list[1..])
  }

  /** A word that is not on the list does not matter to it. */
  lemma {:induction false} ChainFrame(before: map<nat, nat>, after: map<nat, nat>, a: nat, list: seq<nat>)
    requires Chain(before, a, list)
    requires forall x | x in list :: x in before ==> x in after && after[x] == before[x]
    ensures Chain(after, a, list)
    decreases |list|
  {
    if |list| > 0 {
      ChainFrame(before, after, before[a], list[1..]);
    }
  }

  /** The memory decides the list. */
  lemma {:induction false} ChainUnique(memory: map<nat, nat>, a: nat, x: seq<nat>, y: seq<nat>)
    requires Chain(memory, a, x) && Chain(memory, a, y)
    ensures x == y
    decreases |x|
  {
    if |x| > 0 && |y| > 0 {
      ChainUnique(memory, memory[a], x[1..], y[1..]);
      assert x == [a] + x[1..];
      assert y == [a] + y[1..];
    }
  }

  lemma {:induction false} ChainSuffix(memory: map<nat, nat>, a: nat, list: seq<nat>, i: nat)
    requires Chain(memory, a, list) && i < |list|
    ensures Chain(memory, list[i], list[i..])
    decreases i
  {
    if i > 0 {
      ChainSuffix(memory, memory[a], list[1..], i - 1);
      assert list[1..][i - 1..] == list[i..];
    }
  }

  /** A list that ends in null has no cycle. */
  lemma ChainAcyclic(memory: map<nat, nat>, a: nat, list: seq<nat>)
    requires Chain(memory, a, list)
    ensures Distinct(list)
  {
    forall i, j | 0 <= i < j < |list| ensures list[i] != list[j] {
      if list[i] == list[j] {
        ChainSuffix(memory, a, list, i);
        ChainSuffix(memory, a, list, j);
        ChainUnique(memory, list[i], list[i..], list[j..]);
        assert false;
      }
    }
  }

  lemma {:induction false} FreshChain(memory: map<nat, nat>, base: nat, n: nat)
    requires base > 0 && n > 0
    requires forall k | base <= k < base + n :: k in memory && memory[k] == if k == base + n - 1 then 0 else k + 1
    ensures Chain(memory, base, Blocks(base, n))
    decreases n
  {
    var rest := Blocks(base + 1, n - 1);
    assert Blocks(base, n)[1..] == rest;
    if n > 1 {
      FreshChain(memory, base + 1, n - 1);
    }
  }

  /** What `new Block[n]` writes: every block points at the one behind it. */
  function FreshWords(base: nat, n: nat): map<nat, nat> {
    map k | k in Blocks(base, n) :: k + 1
  }

  lemma BucketLinked(memory: map<nat, nat>, base: nat, n: nat)
    requires base > 0 && n > 0
    ensures var m := (memory + FreshWords(base, n))[base + n - 1 := 0];
            Chain(m, base, Blocks(base, n)) && m.Keys == memory.Keys + Elements(Blocks(base, n))
  {
    BlocksOfBucket(base, n);
    var m := (memory + FreshWords(base, n))[base + n - 1 := 0];
    FreshChain(m, base, n);
  }

  lemma ChainWrite(memory: map<nat, nat>, a: nat, list: seq<nat>, p: nat, word: nat)
    requires Chain(memory, a, list) && p !in list
    ensures Chain(memory[p := word], a, list)
  {
    ChainFrame(memory, memory[p := word], a, list);
  }

  lemma ChainPut(memory: map<nat, nat>, a: nat, list: seq<nat>, p: nat)
    requires Chain(memory, a, list) && p !in list && p != 0
    ensures Chain(memory[p := a], p, [p] + list)
  {
    ChainWrite(memory, a, list, p, a);
    assert ([p] + list)[1..] == list;
  }

  /** The pool's fields stand for `s`: the list in memory is the free list, its
      length is the counter, and the words are those of the buckets' blocks. */
  ghost predicate Represents(n: nat, s: Pool, memory: map<nat, nat>, firstBlock: nat, available: int) {
    && Inv(s, n)
    && memory.Keys == AllBlocks(s.buckets, n)
    && Chain(memory, firstBlock, s.free)
    && available == |s.free|
  }

  lemma RepresentsEmpty(n: nat, s: Pool, memory: map<nat, nat>, firstBlock: nat, available: int)
    requires Represents(n, s, memory, firstBlock, available)
    ensures Inv(s, n) && (firstBlock == 0 <==> s.free == []) && available == |s.free|
  {
  }

  lemma RepresentsGet(n: nat, s: Pool, memory: map<nat, nat>, firstBlock: nat, available: int)
    requires Represents(n, s, memory, firstBlock, available) && firstBlock != 0
    ensures s.free != [] && firstBlock == s.free[0] && firstBlock in memory && firstBlock !in s.outstanding
    ensures Represents(n, s.(free := s.free[1..], outstanding := s.outstanding + {firstBlock}),
                       memory, memory[firstBlock], available - 1)
  {
    hide Inv, AllBlocks;
    TakeFront(s, n);
  }

  lemma RepresentsWrite(n: nat, s: Pool, memory: map<nat, nat>, firstBlock: nat, available: int, p: nat, word: nat)
    requires Represents(n, s, memory, firstBlock, available) && p in s.outstanding
    ensures p != 0 && p in memory && p !in s.free
    ensures Represents(n, s, memory[p := word], firstBlock, available)
  {
    hide Inv, AllBlocks, Chain;
    HeldBlock(s, n, p);
    ChainWrite(memory, firstBlock, s.free, p, word);
  }

  lemma RepresentsRelease(n: nat, s: Pool, memory: map<nat, nat>, firstBlock: nat, available: int, p: nat)
    requires Represents(n, s, memory, firstBlock, available) && p in s.outstanding
    ensures p != 0
    ensures Represents(n, s.(free := [p] + s.free, outstanding := s.outstanding - {p}),
                       memory[p := firstBlock], p, available + 1)
  {
    RepresentsWrite(n, s, memory, firstBlock, available, p, firstBlock);
    PutFront(s, n, p);
    hide Inv, AllBlocks, Chain;
    ChainPut(memory, firstBlock, s.free, p);
  }

  lemma RepresentsCapacity(n: nat, s: Pool, memory: map<nat, nat>, firstBlock: nat, available: int, t: Pool)
    requires Represents(n, s, memory, firstBlock, available)
    requires Inv(t, n) && t == s.(capacity := t.capacity)
    ensures Represents(n, t, memory, firstBlock, available)
  {
  }

  lemma RepresentsBucket(n: nat, s: Pool, memory: map<nat, nat>, base: nat, t: Pool)
    requires n > 0 && base > 0 && memory.Keys == AllBlocks(s.buckets, n)
    requires Inv(t, n) && t.buckets == s.buckets + [base] && t.free == Blocks(base, n) && |t.free| == n
    ensures Represents(n, t, (memory + FreshWords(base, n))[base + n - 1 := 0], base, n)
  {
    hide Inv, AllBlocks, Chain, Elements, Blocks, FreshWords;
    BucketLinked(memory, base, n);
    AllBlocksAppend(s.buckets, base, n);
  }

  lemma RepresentsKeys(n: nat, s: Pool, memory: map<nat, nat>, firstBlock: nat, available: int)
    requires Represents(n, s, memory, firstBlock, available)
    ensures Inv(s, n) && memory.Keys == AllBlocks(s.buckets, n) && available == |s.free|
  {
  }

  lemma RepresentsGrow(c: Settings, s: Pool, memory: map<nat, nat>, firstBlock: nat, available: int,
        supply: Option<nat>)
    requires Represents(c.blocksPerBucket, s, memory, firstBlock, available) && s.free == []
    requires Unused(s, c.blocksPerBucket, supply) && c.blocksPerBucket > 0
    ensures var (ok, t) := Grow(c, s, supply);
            if ok then
              && var n, base := c.blocksPerBucket, supply.value;
                 Represents(n, t, (memory + FreshWords(base, n))[base + n - 1 := 0], base, available + n)
            else Represents(c.blocksPerBucket, t, memory, firstBlock, available)
  {
    hide Represents, Inv, AllBlocks, Blocks, FreshWords, Unused, CapacityGrows;
    RepresentsKeys(c.blocksPerBucket, s, memory, firstBlock, available);
    GrowKeeps(c, s, supply);
    var (ok, t) := Grow(c, s, supply);
    if ok {
      UnusedNotNull(s, c.blocksPerBucket, supply);
      RepresentsBucket(c.blocksPerBucket, s, memory, supply.value, t);
    } else {
      RepresentsCapacity(c.blocksPerBucket, s, memory, firstBlock, available, t);
    }
  }

  lemma UnusedNotNull(s: Pool, n: nat, supply: Option<nat>)
    requires Unused(s, n, supply) && supply.Some?
    ensures supply.value > 0
  {
  }

  /** A held block is no part of the free list, and is one of the pool's. */
  lemma HeldBlock(s: Pool, n: nat, p: nat)
    requires Inv(s, n) && p in s.outstanding
    ensures p !in s.free && p in AllBlocks(s.buckets, n) && p != 0
  {
    assert p !in Elements(s.free);
  }

  lemma ReleaseStep(c: Settings, s: Pool, p: nat)
    requires Allowed(s, c.blocksPerBucket, Release(p))
    ensures p == 0 || p in s.outstanding
    ensures Step(c, s, Release(p)).0
         == if p == 0 then s else s.(free := [p] + s.free, outstanding := s.outstanding - {p})
  {
  }

  // ---------- the class ----------

  datatype Outcome = Block(address: nat) | BadAlloc

  class FastMemoryPool {
    const settings: Settings
    var buckets: seq<nat>
    var capacity: nat
    var firstBlock: nat
    var available: int
    var memory: map<nat, nat>  // the words of all blocks of all buckets
    ghost var free: seq<nat>
    ghost var outstanding: set<nat>

    ghost function View(): Pool
      reads this
    {
      Pool(buckets, capacity, free, outstanding)
    }

    ghost predicate Valid()
      reads this
    {
      && settings.blocksPerBucket >= 2
      && Represents(settings.blocksPerBucket, View(), memory, firstBlock, available)
    }

    constructor Reserve(blocksPerBucket: nat, bucketPreAlloc: nat, maxAlloc: nat)
      requires blocksPerBucket >= 2
      ensures Valid() && View() == Empty(bucketPreAlloc)
      ensures settings == Settings(blocksPerBucket, maxAlloc)
    {
      settings := Settings(blocksPerBucket, maxAlloc);
      buckets, capacity, firstBlock, available, memory := [], bucketPreAlloc, 0, 0, map[];
      free, outstanding := [], {};
    }

    /** The source's constructor: None stands for invalid_argument and bad_alloc. */
    static method Create(blocksPerBucket: nat, bucketPreAlloc: nat, maxAlloc: nat, supply: Option<nat>)
      returns (r: Option<FastMemoryPool>)
      requires Unused(Empty(bucketPreAlloc), blocksPerBucket, supply)
      ensures r.Some?
         <==> blocksPerBucket >= 2 && Grow(Settings(blocksPerBucket, maxAlloc), Empty(bucketPreAlloc), supply).0
      ensures r.Some? ==> fresh(r.value) && r.value.Valid() && r.value.settings == Settings(blocksPerBucket, maxAlloc)
      ensures r.Some? ==> r.value.View() == Grow(r.value.settings, Empty(bucketPreAlloc), supply).1
    {
      if blocksPerBucket < 2 {
        return None;
      }
      var pool := new FastMemoryPool.Reserve(blocksPerBucket, bucketPreAlloc, maxAlloc);
      var ok := pool.Resize(supply);
      return if ok then Some(pool) else None;
    }

    /** Called on an empty free list only. False is bad_alloc: apart from the
        vector's capacity the pool is then as it was. */
    method Resize(supply: Option<nat>) returns (ok: bool)
      requires Valid() && free == [] && Unused(View(), settings.blocksPerBucket, supply)
      modifies this
      ensures Valid() && (ok, View()) == Grow(settings, old(View()), supply)
      ensures !ok ==> memory == old(memory) && firstBlock == 0 && available == 0
      ensures !ok ==> (View() == old(View()) <==> !CapacityGrows(settings, old(View())))
    {
      hide Represents, Inv, Unused, Blocks, FreshWords, CapacityGrows;
      RepresentsEmpty(settings.blocksPerBucket, View(), memory, firstBlock, available);
      GrowKeeps(settings, View(), supply);
      RepresentsGrow(settings, View(), memory, firstBlock, available, supply);
      var n := settings.blocksPerBucket;
      if |buckets| == capacity {
        var newSize := capacity * 2;
        if settings.maxAlloc != 0 && newSize > settings.maxAlloc {
          return false;
        }
        capacity := newSize;
      }
      if supply == None {
        return false;
      }
      var base := supply.value;
      memory := memory + FreshWords(base, n);
      capacity := if |buckets| < capacity then capacity else |buckets| + 1;
      buckets := buckets + [base];
      firstBlock := base;
      memory := memory[base + n - 1 := 0];
      available := available + n;
      free := Blocks(base, n);
      return true;
    }

    method Get(supply: Option<nat>) returns (r: Outcome)
      requires Valid() && Unused(View(), settings.blocksPerBucket, supply)
      modifies this
      ensures Valid() && View() == Step(settings, old(View()), Op.Get(supply)).0
      ensures Step(settings, old(View()), Op.Get(supply)).1 == if r.Block? then [Given(r.address)] else []
      ensures r.Block? ==> r.address != 0 && r.address !in old(outstanding) && r.address in outstanding
      ensures r.BadAlloc? ==> memory == old(memory) && available == old(available) == 0
      ensures r.BadAlloc? ==> (View() == old(View()) <==> !CapacityGrows(settings, old(View())))
    {
      hide Represents, Inv, Grow, Unused, CapacityGrows;
      RepresentsEmpty(settings.blocksPerBucket, View(), memory, firstBlock, available);
      if firstBlock == 0 {
        GrowKeeps(settings, View(), supply);
        var ok := Resize(supply);
        if !ok {
          return BadAlloc;
        }
        RepresentsEmpty(settings.blocksPerBucket, View(), memory, firstBlock, available);
      }
      RepresentsGet(settings.blocksPerBucket, View(), memory, firstBlock, available);
      var ret := firstBlock;
      firstBlock := memory[firstBlock];
      available := available - 1;
      free, outstanding := free[1..], outstanding + {free[0]};
      return Block(ret);
    }

    /** The user's object is destroyed and its block becomes the front of the list. */
    method Release(p: nat)
      requires Valid() && Allowed(View(), settings.blocksPerBucket, Op.Release(p))
      modifies this
      ensures Valid() && View() == Step(settings, old(View()), Op.Release(p)).0
      ensures memory == if p == 0 then old(memory) else old(memory)[p := old(firstBlock)]
    {
      hide Represents, Step, Allowed;
      ghost var after := Step(settings, View(), Op.Release(p)).0;
      ReleaseStep(settings, View(), p);
      if p == 0 {
        return;
      }
      RepresentsRelease(settings.blocksPerBucket, View(), memory, firstBlock, available, p);
      available := available + 1;
      memory := memory[p := firstBlock];
      firstBlock := p;
      free, outstanding := after.free, after.outstanding;
      assert View() == after;
    }

    /** Whatever users write into blocks they hold, the pool does not notice. */
    method UserWrite(p: nat, word: nat)
      requires Valid() && p in outstanding
      modifies this`memory
      ensures Valid() && View() == old(View()) && memory == old(memory)[p := word]
    {
      hide Represents;
      RepresentsWrite(settings.blocksPerBucket, View(), memory, firstBlock, available, p, word);
      memory := memory[p := word];
    }

    method Allocated() returns (blocks: nat)
      requires Valid()
      ensures blocks == |free| + |outstanding|
    {
      DistinctSize(free);
      blocks := |buckets| * settings.blocksPerBucket;
    }
  }
}
