/** How far FastMemoryPool keeps what its documentation says of its size and of
    failed allocations: the exact bounds, and inputs on which it does not. */
module PoolLimits {
  import opened MemoryPools
  import opened Options

  // ---------- the number of buckets ----------

  /** The capacity at which doubling stops: the first one, starting from `capacity`,
      whose double exceeds maxAlloc. */
  function Limit(capacity: nat, maxAlloc: nat): (r: nat)
    requires maxAlloc > 0
    ensures capacity <= r && 1 <= r && maxAlloc < 2 * r
    ensures r <= maxAlloc || r == capacity || (r == 1 && capacity == 0)
    decreases if capacity == 0 then maxAlloc + 1 else maxAlloc - capacity
  {
    if capacity == 0 then Limit(1, maxAlloc)
    else if 2 * capacity > maxAlloc then capacity
    else Limit(2 * capacity, maxAlloc)
  }

  lemma GrowLimit(c: Settings, s: Pool, supply: Option<nat>)
    requires c.maxAlloc > 0 && |s.buckets| <= s.capacity
    ensures var t := Grow(c, s, supply).1;
            |t.buckets| <= t.capacity && Limit(t.capacity, c.maxAlloc) == Limit(s.capacity, c.maxAlloc)
  {
  }

  lemma StepLimit(c: Settings, s: Pool, op: Op)
    requires c.maxAlloc > 0 && |s.buckets| <= s.capacity
    ensures var t := Step(c, s, op).0;
            |t.buckets| <= t.capacity && Limit(t.capacity, c.maxAlloc) == Limit(s.capacity, c.maxAlloc)
  {
    hide Grow, Limit;
    if op.Get? {
      GrowLimit(c, s, op.supply);
    }
  }

  /** With maxAlloc set, no run has more buckets than the limit. */
  lemma {:induction false} BucketLimit(c: Settings, s: Pool, ops: seq<Op>)
    requires c.maxAlloc > 0 && |s.buckets| <= s.capacity
    ensures |Run(c, s, ops).0.buckets| <= Limit(s.capacity, c.maxAlloc)
    decreases |ops|
  {
    hide Step;
    if |ops| > 0 {
      StepLimit(c, s, ops[0]);
      BucketLimit(c, Step(c, s, ops[0]).0, ops[1..]);
    }
  }

  lemma {:induction false} AboveAll(all: set<nat>) returns (b: nat)
    ensures b > 0 && forall x | x in all :: x < b
  {
    if all == {} {
      b := 1;
    } else {
      var y :| y in all;
      b := AboveAll(all - {y});
      if b <= y {
        b := y + 1;
      }
      assert forall x | x in all :: x == y || x in all - {y};
    }
  }

  /** There is always room for another bucket somewhere. */
  lemma FreshSupply(s: Pool, n: nat) returns (base: nat)
    ensures Unused(s, n, Some(base))
  {
    base := AboveAll(AllBlocks(s.buckets, n));
    BlocksOfBucket(base, n);
  }

  /** One allocation that memory does not fail: it takes a free block or, below the
      limit, makes a bucket. */
  lemma GetProgresses(c: Settings, s: Pool, base: nat)
    requires Inv(s, c.blocksPerBucket) && Unused(s, c.blocksPerBucket, Some(base))
    requires c.blocksPerBucket > 0 && c.maxAlloc > 0 && |s.buckets| < Limit(s.capacity, c.maxAlloc)
    ensures var t := Step(c, s, Get(Some(base))).0;
            if s.free == [] then |t.buckets| == |s.buckets| + 1
            else t.buckets == s.buckets && |t.free| == |s.free| - 1
  {
    if s.free == [] {
      GrowKeeps(c, s, Some(base));
      hide Inv;
      assert Grow(c, s, Some(base)).0;
    }
  }

  /** The limit is reached by allocating, as long as memory does not run out. */
  lemma {:induction false} LimitReached(c: Settings, s: Pool) returns (ops: seq<Op>)
    requires Inv(s, c.blocksPerBucket) && c.blocksPerBucket > 0 && c.maxAlloc > 0
    ensures AllAllowed(c, s, ops) && forall op | op in ops :: op.Get? && op.supply.Some?
    ensures |Run(c, s, ops).0.buckets| == Limit(s.capacity, c.maxAlloc)
    decreases Limit(s.capacity, c.maxAlloc) - |s.buckets|, |s.free|
  {
    InvWithinCapacity(s, c.blocksPerBucket);
    hide Inv, Unused, Step, Limit;
    if |s.buckets| == Limit(s.capacity, c.maxAlloc) {
      return [];
    }
    var base := FreshSupply(s, c.blocksPerBucket);
    var op := Get(Some(base));
    GetProgresses(c, s, base);
    StepKeeps(c, s, op);
    StepLimit(c, s, op);
    var rest := LimitReached(c, Step(c, s, op).0);
    ops := [op] + rest;
    assert ops[1..] == rest;
  }

  lemma InvWithinCapacity(s: Pool, n: nat)
    requires Inv(s, n)
    ensures |s.buckets| <= s.capacity
  {
  }

  // ---------- the number of bytes ----------

  /** The pool the constructor makes. */
  function New(c: Settings, bucketPreAlloc: nat, base: nat): Pool {
    Grow(c, Empty(bucketPreAlloc), Some(base)).1
  }

  function Size(c: Settings, s: Pool, blockSize: nat): nat {
    |s.buckets| * (c.blocksPerBucket * blockSize)
  }

  /** What the documentation says of maxAlloc: the pool is never larger, in bytes. */
  ghost predicate NeverLarger(c: Settings, bucketPreAlloc: nat, blockSize: nat) {
    forall base: nat, ops: seq<Op> ::
      Unused(Empty(bucketPreAlloc), c.blocksPerBucket, Some(base)) && AllAllowed(c, New(c, bucketPreAlloc, base), ops)
      ==> Size(c, Run(c, New(c, bucketPreAlloc, base), ops).0, blockSize) <= c.maxAlloc
  }

  lemma Multiples(a: nat, b: nat, k: nat)
    requires a <= b
    ensures a * k <= b * k
  {
  }

  /** The pool never exceeds maxAlloc bytes exactly when as many buckets as the limit
      allows fit into so many bytes. */
  lemma ByteLimit(c: Settings, bucketPreAlloc: nat, blockSize: nat)
    requires c.blocksPerBucket > 0 && c.maxAlloc > 0
    ensures NeverLarger(c, bucketPreAlloc, blockSize)
       <==> Limit(bucketPreAlloc, c.maxAlloc) * (c.blocksPerBucket * blockSize) <= c.maxAlloc
  {
    hide Run, Grow, Limit, AllAllowed, Unused;
    var limit, k := Limit(bucketPreAlloc, c.maxAlloc), c.blocksPerBucket * blockSize;
    if limit * k <= c.maxAlloc {
      forall base: nat, ops: seq<Op>
        ensures Size(c, Run(c, New(c, bucketPreAlloc, base), ops).0, blockSize) <= c.maxAlloc
      {
        GrowLimit(c, Empty(bucketPreAlloc), Some(base));
        BucketLimit(c, New(c, bucketPreAlloc, base), ops);
        Multiples(|Run(c, New(c, bucketPreAlloc, base), ops).0.buckets|, limit, k);
      }
    } else {
      var base := FreshSupply(Empty(bucketPreAlloc), c.blocksPerBucket);
      NewPool(c, bucketPreAlloc, Some(base));
      GrowLimit(c, Empty(bucketPreAlloc), Some(base));
      var ops := LimitReached(c, New(c, bucketPreAlloc, base));
      assert Size(c, Run(c, New(c, bucketPreAlloc, base), ops).0, blockSize) == limit * k;
    }
  }

  /** And so never, with the two blocks per bucket that the constructor asks for at
      the least: the limit is more than half of maxAlloc. */
  lemma ByteLimitIsExceeded(c: Settings, bucketPreAlloc: nat, blockSize: nat)
    requires c.blocksPerBucket >= 2 && c.maxAlloc > 0 && blockSize > 0
    ensures !NeverLarger(c, bucketPreAlloc, blockSize)
  {
    ByteLimit(c, bucketPreAlloc, blockSize);
    hide Limit, NeverLarger;
    var k := c.blocksPerBucket * blockSize;
    Multiples(1, blockSize, c.blocksPerBucket);
    assert k >= 2;
    var limit := Limit(bucketPreAlloc, c.maxAlloc);
    Multiples(2, k, limit);
    assert limit * k == k * limit;
  }

  /** For instance: with 1000 blocks per bucket the first bucket of a pool limited to
      100 bytes is larger than that, were a block a single byte. */
  lemma FirstBucketTooLarge(base: nat)
    ensures var c := Settings(1000, 100);
            |New(c, 10, base).free| == 1000 && Size(c, New(c, 10, base), 1) > c.maxAlloc
  {
    BlocksOfBucket(base, 1000);
  }

  // ---------- failed allocations ----------

  /** The documented case: a resize refused because it would exceed maxAlloc changes
      nothing. */
  lemma RefusalLeavesIntact(c: Settings, s: Pool, supply: Option<nat>)
    requires s.free == [] && |s.buckets| == s.capacity && c.maxAlloc > 0 && s.capacity * 2 > c.maxAlloc
    ensures Step(c, s, Get(supply)) == (s, [])
  {
  }

  /** For whatever reason an allocation throws, it leaves the pool as it was exactly
      when it has not got as far as doubling the vector. */
  lemma BadAllocLeavesIntact(c: Settings, s: Pool, supply: Option<nat>)
    requires Inv(s, c.blocksPerBucket) && Unused(s, c.blocksPerBucket, supply) && c.blocksPerBucket > 0
    requires Step(c, s, Get(supply)).1 == []
    ensures s.free == [] && Step(c, s, Get(supply)).0 == s.(capacity := Step(c, s, Get(supply)).0.capacity)
    ensures Step(c, s, Get(supply)).0 == s <==> !CapacityGrows(c, s)
  {
    if s.free == [] {
      GrowKeeps(c, s, supply);
    }
  }

  /** For instance: a pool of one bucket of two blocks, both handed out, is asked for a
      third when there is no memory. */
  lemma BadAllocChangesPool()
    ensures var c := Settings(2, 0);
            var used := Run(c, New(c, 1, 1), [Get(None), Get(None)]).0;
            used.capacity == 1 && Step(c, used, Get(None)) == (used.(capacity := 2), [])
  {
    var c := Settings(2, 0);
    var s := New(c, 1, 1);
    assert Blocks(1, 2) == [1, 2];
    var ops := [Get(None), Get(None)];
    assert ops[1..] == [Get(None)] && ops[1..][1..] == [];
    var t := Step(c, s, Get(None)).0;
    assert t.free == [2] && t.capacity == 1 && |t.buckets| == 1;
    var u := Step(c, t, Get(None)).0;
    assert u.free == [] && u.capacity == 1 && |u.buckets| == 1;
    assert Run(c, s, ops).0 == u;
  }
}
