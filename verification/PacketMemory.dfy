/** Packet memory: chunks handed out by bumping a pointer, one thread at a time,
    and recycled through a global pool when their last reference goes.

    A shared_ptr to a chunk is held by the thread that allocates from it and by
    every packet cut from it; `useCount` is their number. The owners of packets
    outside this code are the set `live`.

    Every state of the manager is one that a run of PacketSteps reaches, and each of
    its methods is a sequence of those steps; that packets share no byte is proved
    there and carried over. */
module PacketMemory {
  import opened Bytes
  import opened Options
  import opened PacketSizes
  import Steps = PacketSteps

  class PacketChunk {
    const buffers: array<byte>
    var isOpen: bool
    var usedSize: nat
    var useCount: nat
    /** Its place among all chunks ever made. */
    ghost const number: nat

    constructor (ghost number: nat)
      ensures this.number == number && !isOpen && usedSize == 0 && useCount == 0
      ensures fresh(buffers) && buffers.Length == PACKET_CHUNK_SIZE
    {
      buffers := new byte[PACKET_CHUNK_SIZE](_ => 0);
      isOpen, usedSize, useCount := false, 0, 0;
      this.number := number;
    }

    function FreeSize(): (n: int)
      reads this
    {
      buffers.Length - usedSize
    }

    method Reset()
      modifies this`isOpen, this`usedSize
      ensures !isOpen && usedSize == 0
    {
      isOpen := false;
      usedSize := 0;
    }

    method Open(allocSize: nat) returns (r: Option<Packet>)
      requires usedSize <= buffers.Length == PACKET_CHUNK_SIZE
      modifies this`isOpen, this`useCount
      ensures r.Some? <==> !old(isOpen) && allocSize <= FreeSize()
      ensures r.None? ==> isOpen == old(isOpen) && useCount == old(useCount)
      ensures r.Some? ==>
        && isOpen && useCount == old(useCount) + 1 && fresh(r.value)
        && r.value.owner == this && r.value.start == usedSize
        && r.value.allocSize == allocSize && r.value.writeSize == 0 && r.value.open
    {
      if allocSize > PACKET_CHUNK_SIZE {
        return None;
      }
      if isOpen {
        return None;
      }
      if allocSize > FreeSize() {
        return None;
      }
      isOpen := true;
      useCount := useCount + 1;
      var p := new Packet(this, usedSize, allocSize);
      return Some(p);
    }

    method Close(writeSize: nat)
      modifies this`isOpen, this`usedSize
      ensures !isOpen
      ensures usedSize == old(usedSize) + if old(isOpen) then writeSize else 0
    {
      if !isOpen {
        return;
      }
      isOpen := false;
      usedSize := usedSize + writeSize;
    }
  }

  class Packet {
    const owner: PacketChunk
    const start: nat
    const allocSize: nat
    var writeSize: nat
    /** Opened and not yet closed. */
    ghost var open: bool
    /** No other live packet has it. */
    ghost var number: nat

    constructor (owner: PacketChunk, start: nat, allocSize: nat)
      ensures this.owner == owner && this.start == start && this.allocSize == allocSize
      ensures writeSize == 0 && open
    {
      this.owner, this.start, this.allocSize := owner, start, allocSize;
      writeSize, open := 0, true;
    }

    /** A size larger than the allocation changes nothing. A packet closed again gets
        another size, and its chunk, if a later packet has opened it, is closed. */
    method Close(size: nat)
      modifies this`writeSize, this`open, owner`isOpen, owner`usedSize
      ensures size > allocSize ==>
        && writeSize == old(writeSize) && open == old(open)
        && owner.isOpen == old(owner.isOpen) && owner.usedSize == old(owner.usedSize)
      ensures size <= allocSize ==>
        && writeSize == size && !open && !owner.isOpen
        && owner.usedSize == old(owner.usedSize) + if old(owner.isOpen) then size else 0
    {
      if allocSize < size {
        return;
      }
      writeSize := size;
      open := false;
      owner.Close(writeSize);
    }

    /** A live packet's region lies in its chunk, by PacketsLaid. */
    ghost function Bytes(): seq<byte>
      reads this, owner.buffers
    {
      if End() <= owner.buffers.Length then owner.buffers[start..End()] else []
    }

    /** The end of the packet's region: all it asked for until it is closed, then
        what it wrote. */
    ghost function End(): nat
      reads this
    {
      start + Size()
    }

    ghost function Size(): nat
      reads this
    {
      if open then allocSize else writeSize
    }

    ghost function Region(): Steps.Region
      reads this
    {
      Steps.Region(owner.number, start, Size(), open)
    }
  }

  ghost predicate Disjoint(p: Packet, q: Packet)
    reads p, q
  {
    p.owner == q.owner ==> p.End() <= q.start || q.End() <= p.start
  }

  // ---------- counting references ----------

  ghost function Holders(local: map<nat, PacketChunk>, c: PacketChunk): set<int> {
    set t | t in local && local[t] == c
  }

  ghost function Users(live: set<Packet>, c: PacketChunk): set<Packet> {
    set p | p in live && p.owner == c
  }

  lemma UsersAdded(live: set<Packet>, p: Packet, c: PacketChunk)
    requires p !in live
    ensures |Users(live + {p}, c)| == |Users(live, c)| + if p.owner == c then 1 else 0
  {
    if p.owner == c {
      assert Users(live + {p}, c) == Users(live, c) + {p};
    } else {
      assert Users(live + {p}, c) == Users(live, c);
    }
  }

  lemma HoldersAdded(local: map<nat, PacketChunk>, t: nat, n: PacketChunk, c: PacketChunk)
    requires t !in local
    ensures |Holders(local[t := n], c)| == |Holders(local, c)| + if n == c then 1 else 0
  {
    if n == c {
      assert Holders(local[t := n], c) == Holders(local, c) + {t};
    } else {
      assert Holders(local[t := n], c) == Holders(local, c);
    }
  }

  lemma HoldersRemoved(local: map<nat, PacketChunk>, t: nat, c: PacketChunk)
    requires t in local
    ensures |Holders(local - {t}, c)| == |Holders(local, c)| - if local[t] == c then 1 else 0
  {
    HoldersAdded(local - {t}, t, local[t], c);
    assert (local - {t})[t := local[t]] == local;
  }

  /** A thread has given up its chunk for `c`. */
  ghost predicate Reassigned(before: map<nat, PacketChunk>, after: map<nat, PacketChunk>, t: nat, c: PacketChunk) {
    after == before[t := c]
  }

  lemma HoldersChanged(local: map<nat, PacketChunk>, t: nat, n: PacketChunk, c: PacketChunk)
    ensures |Holders(local[t := n], c)| + (if t in local && local[t] == c then 1 else 0)
         == |Holders(local, c)| + if n == c then 1 else 0
  {
    if t in local {
      HoldersRemoved(local, t, c);
      assert (local - {t})[t := n] == local[t := n];
      HoldersAdded(local - {t}, t, n, c);
    } else {
      HoldersAdded(local, t, n, c);
    }
  }

  // ---------- what a state of PacketSteps shows ----------

  /** Chunks are numbered. */
  ghost predicate Numbered(chunks: set<PacketChunk>) {
    && (forall c | c in chunks :: c.number < |chunks|)
    && (forall c, d | c in chunks && d in chunks && c != d :: c.number != d.number)
  }

  ghost predicate ShowsChunk(s: Steps.State, c: PacketChunk)
    reads c`isOpen, c`usedSize
  {
    c.number < |s.chunks| && s.chunks[c.number] == Steps.Chunk(c.isOpen, c.usedSize)
  }

  ghost predicate ShowsChunks(s: Steps.State, chunks: set<PacketChunk>)
    reads chunks`isOpen, chunks`usedSize
  {
    |s.chunks| == |chunks| && forall c | c in chunks :: ShowsChunk(s, c)
  }

  ghost predicate ShowsPool(s: Steps.State, pool: seq<PacketChunk>) {
    s.pool == set c | c in pool :: c.number
  }

  ghost function LocalNumber(local: map<nat, PacketChunk>, t: nat): Option<nat> {
    if t in local then Some(local[t].number) else None
  }

  ghost predicate ShowsLocals(s: Steps.State, local: map<nat, PacketChunk>) {
    && (forall t | t in local :: t < |s.threads|)
    && (forall t | 0 <= t < |s.threads| :: s.threads[t].local == LocalNumber(local, t))
  }

  ghost predicate ShowsPacket(s: Steps.State, p: Packet)
    reads p
  {
    p.number in s.packets && s.packets[p.number] == p.Region()
  }

  ghost predicate ShowsPackets(s: Steps.State, live: set<Packet>)
    reads live
  {
    && (forall p | p in live :: ShowsPacket(s, p))
    && (forall n | n in s.packets :: exists p :: p in live && p.number == n)
    && (forall p, q | p in live && q in live && p != q :: p.number != q.number)
  }

  /** Thread `t` is there in a call; no other thread is in one. */
  ghost predicate Within(s: Steps.State, t: nat, phase: Steps.Phase, dying: Option<nat>) {
    forall u | 0 <= u < |s.threads| ::
      && s.threads[u].phase == (if u == t then phase else Steps.Outside)
      && s.threads[u].dying == (if u == t then dying else None)
  }

  ghost predicate Shows(s: Steps.State, chunks: set<PacketChunk>, pool: seq<PacketChunk>,
                        local: map<nat, PacketChunk>, live: set<Packet>)
    reads chunks`isOpen, chunks`usedSize, live
  {
    && Numbered(chunks) && ShowsChunks(s, chunks) && ShowsPool(s, pool)
    && ShowsLocals(s, local) && ShowsPackets(s, live)
    && (forall c | c in pool :: c in chunks)
    && (forall t | t in local :: local[t] in chunks)
    && (forall p | p in live :: p.owner in chunks)
  }

  /** The same, but for what it says of one chunk. */
  ghost predicate ShowsBut(s: Steps.State, c: PacketChunk, chunks: set<PacketChunk>, pool: seq<PacketChunk>,
                           local: map<nat, PacketChunk>, live: set<Packet>)
    reads (chunks - {c})`isOpen, (chunks - {c})`usedSize, live
  {
    && Numbered(chunks) && c in chunks && |s.chunks| == |chunks|
    && (forall d | d in chunks && d != c :: ShowsChunk(s, d))
    && ShowsPool(s, pool) && ShowsLocals(s, local) && ShowsPackets(s, live)
    && (forall d | d in pool :: d in chunks)
    && (forall t | t in local :: local[t] in chunks)
    && (forall p | p in live :: p.owner in chunks)
  }

  lemma AllBut(s: Steps.State, c: PacketChunk, chunks: set<PacketChunk>, pool: seq<PacketChunk>,
               local: map<nat, PacketChunk>, live: set<Packet>)
    requires Shows(s, chunks, pool, local, live) && c in chunks
    ensures ShowsBut(s, c, chunks, pool, local, live) && ShowsChunk(s, c)
  {
  }

  /** And of one packet in it. */
  ghost predicate ShowsButPacket(s: Steps.State, p: Packet, chunks: set<PacketChunk>, pool: seq<PacketChunk>,
                                 local: map<nat, PacketChunk>, live: set<Packet>)
    reads p`number, (chunks - {p.owner})`isOpen, (chunks - {p.owner})`usedSize, live - {p}
  {
    ShowsBut(s.(packets := s.packets - {p.number}), p.owner, chunks, pool, local, live - {p})
  }

  lemma AllButPacket(s: Steps.State, p: Packet, chunks: set<PacketChunk>, pool: seq<PacketChunk>,
                     local: map<nat, PacketChunk>, live: set<Packet>)
    requires Shows(s, chunks, pool, local, live) && p in live
    ensures ShowsButPacket(s, p, chunks, pool, local, live) && ShowsPacket(s, p) && ShowsChunk(s, p.owner)
    ensures forall q | q in live && q != p :: q.number != p.number
    ensures p.owner in chunks
  {
    PacketGone(s, p, live);
  }

  function Members(pool: seq<PacketChunk>): set<PacketChunk> {
    set c | c in pool
  }

  // ---------- each step is shown ----------

  lemma StartShown(s: Steps.State, n: nat,
                   chunks: set<PacketChunk>, pool: seq<PacketChunk>, local: map<nat, PacketChunk>, live: set<Packet>)
    requires Shows(s, chunks, pool, local, live) && Within(s, 0, Steps.Outside, None)
    ensures var r := Steps.Step(s, Steps.Start(n));
            && Shows(r, chunks, pool, local, live) && Within(r, 0, Steps.Outside, None)
            && |r.threads| == |s.threads| + n
  {
  }

  lemma DequeueShown(s: Steps.State, t: nat, c: PacketChunk, rest: seq<PacketChunk>,
                     chunks: set<PacketChunk>, pool: seq<PacketChunk>, local: map<nat, PacketChunk>, live: set<Packet>)
    requires Shows(s, chunks, pool, local, live) && Within(s, 0, Steps.Outside, None)
    requires Steps.MayReplace(s, t) && Members(pool) == Members(rest) + {c} && c !in rest
    ensures var r := Steps.Step(s, Steps.Dequeue(t, c.number));
            && Shows(r, chunks, rest, local, live)
            && Within(r, t, Steps.Popped(c.number), None) && t < |r.threads|
  {
    assert c in Members(pool);
    assert forall d | d in rest :: d in Members(pool);
    var r := Steps.Step(s, Steps.Dequeue(t, c.number));
    assert ShowsPool(r, rest) by {
      forall n | n in s.pool && n != c.number ensures exists d :: d in rest && d.number == n {
        var d :| d in pool && d.number == n;
        assert d in Members(pool);
      }
    }
  }

  lemma MakeShown(s: Steps.State, t: nat, c: PacketChunk,
                  chunks: set<PacketChunk>, pool: seq<PacketChunk>, local: map<nat, PacketChunk>, live: set<Packet>)
    requires Shows(s, chunks, pool, local, live) && Within(s, 0, Steps.Outside, None)
    requires Steps.MayReplace(s, t) && c !in chunks && c.number == |chunks| && !c.isOpen && c.usedSize == 0
    ensures var r := Steps.Step(s, Steps.Make(t));
            && Shows(r, chunks + {c}, pool, local, live)
            && Within(r, t, Steps.Popped(c.number), None) && t < |r.threads|
  {
  }

  /** A chunk has a reference exactly when one is counted. */
  lemma ReferencedIsCounted(s: Steps.State, c: PacketChunk,
                            chunks: set<PacketChunk>, pool: seq<PacketChunk>, local: map<nat, PacketChunk>,
                            live: set<Packet>)
    requires Shows(s, chunks, pool, local, live) && c in chunks
    ensures Steps.Referenced(s, c.number) <==> |Holders(local, c)| + |Users(live, c)| > 0
  {
    if |Holders(local, c)| > 0 {
      var t :| t in Holders(local, c);
      assert s.threads[t].local == Some(c.number);
    }
    if |Users(live, c)| > 0 {
      var p :| p in Users(live, c);
      assert ShowsPacket(s, p);
    }
    if t :| 0 <= t < |s.threads| && s.threads[t].local == Some(c.number) {
      assert t in Holders(local, c);
    }
    if n :| n in s.packets && s.packets[n].chunk == c.number {
      var p :| p in live && p.number == n;
      assert ShowsPacket(s, p);
      assert p in Users(live, c);
    }
  }

  /** The chunk, if nothing refers to it. */
  ghost function Unused(local: map<nat, PacketChunk>, live: set<Packet>, c: PacketChunk): Option<nat> {
    if |Holders(local, c)| + |Users(live, c)| == 0 then Some(c.number) else None
  }

  lemma AssignShown(s: Steps.State, t: nat, c: PacketChunk,
                    chunks: set<PacketChunk>, pool: seq<PacketChunk>, local: map<nat, PacketChunk>, live: set<Packet>)
    requires Shows(s, chunks, pool, local, live) && Within(s, t, Steps.Popped(c.number), None)
    requires t < |s.threads| && c in chunks
    ensures var r := Steps.Step(s, Steps.Assign(t));
            && Shows(r, chunks, pool, local[t := c], live) && t < |r.threads|
            && Within(r, t, Steps.Assigned, if t in local then Unused(local[t := c], live, local[t]) else None)
  {
    hide Steps.Referenced, Holders, Users;
    var moved := Steps.WithThread(s, t, Steps.Thread(Some(c.number), Steps.Assigned, None));
    assert Shows(moved, chunks, pool, local[t := c], live);
    if t in local {
      ReferencedIsCounted(moved, local[t], chunks, pool, local[t := c], live);
    }
  }

  lemma EnqueueShown(s: Steps.State, t: nat, phase: Steps.Phase, c: PacketChunk,
                     chunks: set<PacketChunk>, pool: seq<PacketChunk>, local: map<nat, PacketChunk>, live: set<Packet>)
    requires Shows(s, chunks, pool, local, live) && Within(s, t, phase, Some(c.number))
    requires t < |s.threads| && c in chunks
    ensures var r := Steps.Step(s, Steps.Enqueue(t));
            Shows(r, chunks, pool + [c], local, live) && Within(r, t, phase, None)
  {
  }

  lemma ResetShown(s: Steps.State, t: nat, c: PacketChunk,
                   chunks: set<PacketChunk>, pool: seq<PacketChunk>, local: map<nat, PacketChunk>, live: set<Packet>)
    requires ShowsBut(s, c, chunks, pool, local, live) && Within(s, t, Steps.Assigned, None)
    requires t in local && local[t] == c && !c.isOpen && c.usedSize == 0
    ensures var r := Steps.Step(s, Steps.Reset(t));
            Shows(r, chunks, pool, local, live) && Within(r, 0, Steps.Outside, None)
  {
  }

  lemma OpenShown(s: Steps.State, t: nat, p: Packet,
                  chunks: set<PacketChunk>, pool: seq<PacketChunk>, local: map<nat, PacketChunk>, live: set<Packet>)
    requires ShowsBut(s, p.owner, chunks, pool, local, live) && Within(s, 0, Steps.Outside, None)
    requires Steps.MayReplace(s, t) && t in local && p.owner == local[t] && p.owner.isOpen
    requires s.chunks[p.owner.number].used == p.start == p.owner.usedSize && p.End() <= PACKET_CHUNK_SIZE && p.open
    requires p !in live && p.number !in s.packets
    ensures var r := Steps.Step(s, Steps.Open(t, p.number, p.allocSize));
            Shows(r, chunks, pool, local, live + {p}) && Within(r, 0, Steps.Outside, None)
  {
  }

  lemma CloseShown(s: Steps.State, p: Packet, size: nat,
                   chunks: set<PacketChunk>, pool: seq<PacketChunk>, local: map<nat, PacketChunk>, live: set<Packet>)
    requires ShowsButPacket(s, p, chunks, pool, local, live) && Within(s, 0, Steps.Outside, None)
    requires p in live && forall q | q in live && q != p :: q.number != p.number
    requires p.number in s.packets && size <= p.allocSize
    requires s.packets[p.number] == Steps.Region(p.owner.number, p.start, p.allocSize, true)
    requires !p.open && p.writeSize == size
    requires !p.owner.isOpen && p.owner.usedSize == s.chunks[p.owner.number].used + size
    ensures var r := Steps.Step(s, Steps.Close(p.number, size));
            Shows(r, chunks, pool, local, live) && Within(r, 0, Steps.Outside, None)
  {
    var r := Steps.Step(s, Steps.Close(p.number, size));
    assert ShowsPackets(r, live) by {
      var left := s.(packets := s.packets - {p.number});
      forall q | q in live && q != p ensures ShowsPacket(r, q) {
        assert ShowsPacket(left, q);
      }
      forall n | n in r.packets ensures exists q :: q in live && q.number == n {
        if n != p.number {
          assert n in left.packets;
          var q :| q in live - {p} && q.number == n;
        }
      }
    }
    assert ShowsChunks(r, chunks) by {
      assert forall d | d in chunks && d != p.owner :: ShowsChunk(s.(packets := s.packets - {p.number}), d);
    }
  }

  lemma PacketGone(s: Steps.State, p: Packet, live: set<Packet>)
    requires ShowsPackets(s, live) && p in live
    ensures ShowsPackets(s.(packets := s.packets - {p.number}), live - {p})
  {
    assert ShowsPacket(s, p);
    forall n | n in s.packets && n != p.number ensures exists q :: q in live - {p} && q.number == n {
      var q :| q in live && q.number == n;
    }
    forall q | q in live && q != p ensures ShowsPacket(s.(packets := s.packets - {p.number}), q) {
      assert ShowsPacket(s, q);
    }
  }

  lemma DropShown(s: Steps.State, t: nat, p: Packet,
                  chunks: set<PacketChunk>, pool: seq<PacketChunk>, local: map<nat, PacketChunk>, live: set<Packet>)
    requires Shows(s, chunks, pool, local, live) && Within(s, 0, Steps.Outside, None)
    requires t < |s.threads| && p in live
    ensures var r := Steps.Step(s, Steps.Drop(t, p.number));
            && Shows(r, chunks, pool, local, live - {p}) && t < |r.threads|
            && Within(r, t, Steps.Outside, Unused(local, live - {p}, p.owner))
  {
    hide Steps.Referenced, Holders, Users;
    var left := s.(packets := s.packets - {p.number});
    PacketGone(s, p, live);
    ReferencedIsCounted(left, p.owner, chunks, pool, local, live - {p});
  }

  lemma ExitShown(s: Steps.State, t: nat,
                  chunks: set<PacketChunk>, pool: seq<PacketChunk>, local: map<nat, PacketChunk>, live: set<Packet>)
    requires Shows(s, chunks, pool, local, live) && Within(s, 0, Steps.Outside, None)
    requires t in local
    ensures var r := Steps.Step(s, Steps.Exit(t));
            && Shows(r, chunks, pool, local - {t}, live) && t < |r.threads|
            && Within(r, t, Steps.Outside, Unused(local - {t}, live, local[t]))
  {
    hide Steps.Referenced, Holders, Users;
    var left := Steps.WithThread(s, t, s.threads[t].(local := None));
    assert Shows(left, chunks, pool, local - {t}, live);
    ReferencedIsCounted(left, local[t], chunks, pool, local - {t}, live);
  }

  // ---------- the manager ----------

  class PacketManager {
    /** mPacketChunks. */
    var pool: seq<PacketChunk>
    /** Each thread's LPacketChunk, if it has one. */
    var local: map<nat, PacketChunk>
    ghost var live: set<Packet>
    ghost var chunks: set<PacketChunk>
    /** The atomic steps that all calls so far have taken. */
    ghost var steps: seq<Steps.Action>

    // ---------- chunks ----------

    ghost predicate Counted()
      reads this`chunks, this`local, this`live, chunks`useCount
    {
      forall c | c in chunks :: c.useCount == |Holders(local, c)| + |Users(live, c)|
    }

    /** One reference to `extra` is counted that nothing holds. */
    ghost predicate CountedWith(extra: PacketChunk)
      reads this`chunks, this`local, this`live, chunks`useCount
    {
      forall c | c in chunks ::
        c.useCount == |Holders(local, c)| + |Users(live, c)| + (if c == extra then 1 else 0)
    }

    /** Every chunk is full-sized; it is in the pool, or `spare` on its way between
        pool and thread, exactly when nothing refers to it. */
    ghost predicate Placed(spare: set<PacketChunk>)
      reads this`chunks, this`pool, this`local, chunks`useCount
    {
      && spare <= chunks
      && (forall c | c in chunks :: c.buffers.Length == PACKET_CHUNK_SIZE)
      && (forall c | c in chunks :: c in pool || c in spare <==> c.useCount == 0)
      && (forall c, d | c in chunks && d in chunks && c != d :: c.buffers != d.buffers)
      && (forall c | c in pool :: c in chunks && c !in spare)
      && (forall i, j | 0 <= i < j < |pool| :: pool[i] != pool[j])
      && (forall t | t in local :: local[t] in chunks)
      && (forall t, u | t in local && u in local && t != u :: local[t] != local[u])
    }

    ghost predicate ChunksValid(spare: set<PacketChunk>)
      reads this`chunks, this`pool, this`local, this`live, chunks`useCount
    {
      Placed(spare) && Counted()
    }

    // ---------- the state as the steps see it ----------

    ghost function Reached(): Steps.State
      reads this`steps
    {
      Steps.Run(0, steps)
    }

    /** The manager is in the state that its steps have reached, thread `t` is there in a
        call, and no other thread is in one. */
    ghost predicate Follows(t: nat, phase: Steps.Phase, dying: Option<nat>)
      reads this, chunks`isOpen, chunks`usedSize, live
    {
      && Shows(Reached(), chunks, pool, local, live)
      && Within(Reached(), t, phase, dying)
      && forall p | p in live :: p.number < |steps|
    }

    /** No thread is in a call. */
    ghost predicate Quiet()
      reads this, chunks`isOpen, chunks`usedSize, live
    {
      Follows(0, Steps.Outside, None)
    }

    ghost predicate Knows(t: nat)
      reads this`steps
    {
      t < |Reached().threads|
    }

    /** The thread has no chunk, or no packet open in it. */
    ghost predicate MayReplace(t: nat)
      reads this`steps
    {
      Steps.MayReplace(Reached(), t)
    }

    ghost predicate Valid()
      reads this, chunks, live
    {
      ChunksValid({}) && Quiet()
    }

    constructor ()
      ensures Valid() && pool == [] && local == map[] && live == {} && chunks == {} && steps == []
    {
      pool, local, live, chunks, steps := [], map[], {}, {}, [];
    }

    ghost method Record(a: Steps.Action)
      modifies this`steps
      ensures steps == old(steps) + [a] && Reached() == Steps.Step(old(Reached()), a)
    {
      steps := steps + [a];
    }

    /** The steps, and a thread's start before its first call. */
    ghost function Met(t: nat): seq<Steps.Action>
      reads this`steps
    {
      if Knows(t) then steps else steps + [Steps.Start(t + 1 - |Reached().threads|)]
    }

    lemma AllQuiet(t: nat)
      requires Follows(t, Steps.Outside, None)
      ensures Quiet()
    {
      hide Shows;
    }

    /** Before its first call a thread has to start. */
    ghost method Meet(t: nat)
      requires Quiet()
      modifies this`steps
      ensures Quiet() && Knows(t)
      ensures steps == old(Met(t)) && Steps.Extends(old(steps), steps, t)
    {
      hide Steps.Step, Steps.Run, Shows, Within;
      if !Knows(t) {
        StartShown(Reached(), t + 1 - |Reached().threads|, chunks, pool, local, live);
        Record(Steps.Start(t + 1 - |Reached().threads|));
      }
    }

    // ---------- what the steps promise ----------

    /** Live packets lie in their chunks: closed ones in the used part, an open one
        at its end, and no two overlap. */
    ghost predicate PacketsValid()
      reads this`chunks, this`live, chunks`isOpen, chunks`usedSize, live
    {
      && (forall c | c in chunks :: c.usedSize <= PACKET_CHUNK_SIZE)
      && (forall p | p in live :: p.owner in chunks && p.End() <= PACKET_CHUNK_SIZE)
      && (forall p | p in live && !p.open :: p.End() <= p.owner.usedSize)
      && (forall p | p in live && p.open :: p.owner.isOpen && p.start == p.owner.usedSize)
      && (forall p, q | p in live && q in live && p != q :: Disjoint(p, q))
      && (forall p, q | p in live && q in live && p != q && p.owner == q.owner :: !p.open || !q.open)
    }

    /** The invariant of the steps holds of the manager. */
    lemma PacketsLaid()
      requires Shows(Reached(), chunks, pool, local, live)
      ensures PacketsValid()
    {
      Steps.RunKeeps(0, steps);
      var s := Reached();
      assert Steps.Laid(s);
      hide Steps.Run, Steps.Placed, Steps.NoneLost, ShowsPool, ShowsLocals;
      forall c | c in chunks ensures c.usedSize <= PACKET_CHUNK_SIZE {
        assert ShowsChunk(s, c);
      }
      forall p | p in live ensures Steps.LiesIn(p.Region(), s.chunks) && ShowsChunk(s, p.owner) {
        assert ShowsPacket(s, p);
      }
      forall p, q | p in live && q in live && p != q ensures Steps.Fit(p.Region(), q.Region()) {
        assert ShowsPacket(s, p) && ShowsPacket(s, q);
      }
    }

    // ---------- taking a chunk ----------

    /** try_dequeue, which may fail and may return any element. */
    method TryDequeue(ghost thread: nat) returns (r: Option<PacketChunk>)
      requires Valid() && MayReplace(thread)
      modifies this`pool, this`steps
      ensures r.None? ==> pool == old(pool) && steps == old(steps)
      ensures r.Some? ==> ChunksValid({r.value}) && Follows(thread, Steps.Popped(r.value.number), None) && Knows(thread)
      ensures r.Some? ==> steps == old(steps) + [Steps.Dequeue(thread, r.value.number)]
      ensures r.Some? ==> r.value in old(pool) && r.value in chunks
      ensures forall c | c in pool :: c in old(pool)
    {
      InPool();
      hide ChunksValid, Quiet, Follows, MayReplace;
      if |pool| == 0 {
        return None;
      }
      if * {
        return None;
      }
      var i :| 0 <= i < |pool|;
      r := Some(pool[i]);
      TakeAt(i, thread);
    }

    lemma InPool()
      requires ChunksValid({})
      ensures forall c | c in pool :: c in chunks
    {
    }

    method TakeAt(i: nat, ghost thread: nat)
      requires ChunksValid({}) && Quiet() && MayReplace(thread) && i < |pool|
      modifies this`pool, this`steps
      ensures var c := old(pool)[i];
              && ChunksValid({c}) && Follows(thread, Steps.Popped(c.number), None) && Knows(thread)
              && steps == old(steps) + [Steps.Dequeue(thread, c.number)]
      ensures forall c | c in pool :: c in old(pool)
    {
      hide Shows, Within, Steps.Step, Steps.Run, Steps.MayReplace, Counted;
      ghost var was, c := pool, pool[i];
      pool := pool[..i] + pool[i + 1..];
      assert forall j | 0 <= j < |pool| :: pool[j] == was[if j < i then j else j + 1];
      forall d | d in was && d != c ensures d in pool {
        var j :| 0 <= j < |was| && was[j] == d;
        assert pool[if j < i then j else j - 1] == d;
      }
      assert Members(was) == Members(pool) + {c};
      DequeueShown(Reached(), thread, c, pool, chunks, was, local, live);
      Record(Steps.Dequeue(thread, c.number));
    }

    /** A chunk from the pool or, after ten failures, a new one; either way nothing
        refers to it. */
    method Pop(ghost thread: nat) returns (c: PacketChunk)
      requires Valid() && MayReplace(thread)
      modifies this`pool, this`chunks, this`steps
      ensures ChunksValid({c}) && Follows(thread, Steps.Popped(c.number), None) && Knows(thread)
      ensures c in old(pool) || fresh(c)
      ensures steps == old(steps) + [if c in old(pool) then Steps.Dequeue(thread, c.number) else Steps.Make(thread)]
      ensures chunks == old(chunks) + {c} && fresh(chunks - old(chunks))
      ensures forall d | d in chunks && d !in old(chunks) :: fresh(d.buffers)
    {
      hide ChunksValid, Quiet, Follows, MayReplace, Knows;
      var i := 0;
      while i < TRY_POP_COUNT
        invariant Valid() && pool == old(pool) && chunks == old(chunks) && steps == old(steps)
      {
        var r := TryDequeue(thread);
        if r.Some? {
          return r.value;
        }
        i := i + 1;
      }
      c := NewChunk(thread);
    }

    method NewChunk(ghost thread: nat) returns (c: PacketChunk)
      requires Valid() && MayReplace(thread)
      modifies this`chunks, this`steps
      ensures ChunksValid({c}) && Follows(thread, Steps.Popped(c.number), None) && Knows(thread)
      ensures fresh(c) && fresh(c.buffers) && chunks == old(chunks) + {c}
      ensures steps == old(steps) + [Steps.Make(thread)]
    {
      c := new PacketChunk(|chunks|);
      AddChunk(c, thread);
    }

    ghost method AddChunk(c: PacketChunk, thread: nat)
      requires Valid() && MayReplace(thread) && c !in chunks && c.number == |chunks|
      requires !c.isOpen && c.usedSize == 0 && c.useCount == 0 && c.buffers.Length == PACKET_CHUNK_SIZE
      requires forall d | d in chunks :: d.buffers != c.buffers
      modifies this`chunks, this`steps
      ensures ChunksValid({c}) && Follows(thread, Steps.Popped(c.number), None) && Knows(thread)
      ensures chunks == old(chunks) + {c} && steps == old(steps) + [Steps.Make(thread)]
    {
      hide Shows, Within, Placed, Counted, Steps.Step, Steps.Run, Steps.MayReplace;
      MakeShown(Reached(), thread, c, chunks, pool, local, live);
      NotReferred(c);
      Include(c);
      Record(Steps.Make(thread));
    }

    lemma NotReferred(c: PacketChunk)
      requires c !in chunks && Shows(Reached(), chunks, pool, local, live)
      ensures Holders(local, c) == {} && Users(live, c) == {}
    {
    }

    ghost method Include(c: PacketChunk)
      requires ChunksValid({}) && c !in chunks && c.useCount == 0 && c.buffers.Length == PACKET_CHUNK_SIZE
      requires forall d | d in chunks :: d.buffers != c.buffers
      requires Holders(local, c) == {} && Users(live, c) == {}
      modifies this`chunks
      ensures ChunksValid({c}) && chunks == old(chunks) + {c}
    {
      hide Holders, Users;
      chunks := chunks + {c};
    }

    // ---------- references ----------

    /** The deleter of the last reference gives the chunk back. */
    method PushGlobal(c: PacketChunk)
      requires ChunksValid({c})
      modifies this`pool
      ensures ChunksValid({}) && pool == old(pool) + [c]
    {
      pool := pool + [c];
    }

    /** A reference to `c` goes, and the chunk with it if it was the last. */
    method DropReference(c: PacketChunk, ghost thread: nat, ghost phase: Steps.Phase)
      requires Placed({}) && CountedWith(c) && c in chunks && Knows(thread)
      requires Follows(thread, phase, if c.useCount == 1 then Some(c.number) else None)
      modifies this`pool, this`steps, c`useCount
      ensures c.useCount == old(c.useCount) - 1 && ChunksValid({}) && Follows(thread, phase, None)
      ensures pool == old(pool) + (if c.useCount == 0 then [c] else [])
      ensures steps == old(steps) + Steps.PutBack(thread, c.useCount == 0)
    {
      hide Holders, Users, Shows, Within, Steps.Step, Steps.Run;
      c.useCount := c.useCount - 1;
      if c.useCount == 0 {
        EnqueueShown(Reached(), thread, phase, c, chunks, pool, local, live);
        PushGlobal(c);
        Record(Steps.Enqueue(thread));
      }
    }

    /** A thread takes a chunk that nothing refers to; its old one is still counted. */
    method TakeLocal(thread: nat, c: PacketChunk)
      requires ChunksValid({c}) && Knows(thread) && Follows(thread, Steps.Popped(c.number), None)
      modifies this`local, this`steps, c`useCount
      ensures Reassigned(old(local), local, thread, c) && Placed({}) && Knows(thread)
      ensures thread !in old(local) ==> ChunksValid({}) && Follows(thread, Steps.Assigned, None)
      ensures thread in old(local) ==>
                var was := old(local[thread]);
                && was in chunks && was != c && CountedWith(was)
                && Follows(thread, Steps.Assigned, if was.useCount == 1 then Some(was.number) else None)
      ensures steps == old(steps) + [Steps.Assign(thread)]
    {
      hide Shows, Within, Placed, Counted, Steps.Step, Steps.Run;
      SpareIsUnused(c);
      if thread in local {
        LocalIsCounted(thread, {c});
      }
      ghost var before := local;
      AssignShown(Reached(), thread, c, chunks, pool, local, live);
      Refer(thread, c);
      hide Holders, Users;
      Record(Steps.Assign(thread));
    }

    lemma SpareIsUnused(c: PacketChunk)
      requires ChunksValid({c})
      ensures c in chunks && c.useCount == 0 && Users(live, c) == {}
    {
    }

    lemma LocalIsCounted(thread: nat, spare: set<PacketChunk>)
      requires ChunksValid(spare) && thread in local
      ensures local[thread] in chunks && local[thread].useCount > 0
    {
      assert thread in Holders(local, local[thread]);
    }

    /** The thread refers to `c`; its old chunk is still counted. */
    method Refer(thread: nat, c: PacketChunk)
      requires ChunksValid({c})
      modifies this`local, c`useCount
      ensures local == old(local)[thread := c] && Placed({})
      ensures thread !in old(local) ==> Counted()
      ensures thread in old(local) ==> CountedWith(old(local[thread]))
    {
      forall t | t in local ensures local[t] != c {
        LocalIsCounted(t, {c});
      }
      hide Holders, Users;
      ghost var before := local;
      local := local[thread := c];
      c.useCount := c.useCount + 1;
      forall d | d in chunks
        ensures d.useCount
             == |Holders(local, d)| + |Users(live, d)| + if thread in before && before[thread] == d then 1 else 0
      {
        HoldersChanged(before, thread, c, d);
      }
    }

    /** LPacketChunk = c: a thread takes a chunk that nothing refers to, and gives up its
        old one. */
    method Exchange(thread: nat, c: PacketChunk)
      requires ChunksValid({c}) && Knows(thread) && Follows(thread, Steps.Popped(c.number), None)
      modifies this`local, this`pool, this`steps, chunks`useCount
      ensures ChunksValid({}) && Follows(thread, Steps.Assigned, None)
      ensures Reassigned(old(local), local, thread, c)
      ensures steps == old(steps) + [Steps.Assign(thread)]
                     + Steps.PutBack(thread, thread in old(local) && old(local[thread].useCount) == 1)
    {
      hide ChunksValid, Placed, CountedWith, Follows, Knows, Holders, Users, Reassigned;
      SpareIsUnused(c);
      if thread in local {
        LocalIsCounted(thread, {c});
        var was := local[thread];
        TakeLocal(thread, c);
        DropReference(was, thread, Steps.Assigned);
      } else {
        TakeLocal(thread, c);
      }
    }

    /** The thread's chunk becomes an empty one that no packet refers to. */
    method Renew(thread: nat, ghost first: seq<Steps.Action>)
      requires Valid() && MayReplace(thread) && Steps.Extends(first, steps, thread)
      modifies this`local, this`pool, this`chunks, this`steps, chunks
      ensures Valid() && thread in local && local[thread].usedSize == 0 && !local[thread].isOpen
      ensures local[thread] in old(pool) || fresh(local[thread])
      ensures chunks == old(chunks) + {local[thread]} && fresh(chunks - old(chunks))
      ensures forall d | d in chunks && d !in old(chunks) :: fresh(d.buffers)
      ensures Users(live, local[thread]) == {}
      ensures forall t | t != thread :: (t in local <==> t in old(local)) && (t in local ==> local[t] == old(local[t]))
      ensures var c := local[thread];
              steps == old(steps)
                     + [if c in old(pool) then Steps.Dequeue(thread, c.number) else Steps.Make(thread)]
                     + [Steps.Assign(thread)]
                     + Steps.PutBack(thread, thread in old(local) && old(local[thread].useCount) == 1)
                     + [Steps.Reset(thread)]
      ensures Steps.Extends(first, steps, thread)
    {
      hide ChunksValid, Follows, Holders, Users, Knows, MayReplace;
      var c := Pop(thread);
      SpareIsUnused(c);
      Exchange(thread, c);
      ResetLocal(thread, c);
    }

    method ResetLocal(thread: nat, c: PacketChunk)
      requires thread in local && local[thread] == c && c in chunks
      requires ChunksValid({}) && Follows(thread, Steps.Assigned, None)
      modifies c`isOpen, c`usedSize, this`steps
      ensures Valid() && !c.isOpen && c.usedSize == 0
      ensures steps == old(steps) + [Steps.Reset(thread)]
    {
      hide Placed, Counted, Within, Shows, ShowsBut, Steps.Step, Steps.Run;
      AllBut(Reached(), c, chunks, pool, local, live);
      c.Reset();
      ResetShown(Reached(), thread, c, chunks, pool, local, live);
      Record(Steps.Reset(thread));
    }

    // ---------- packets ----------

    lemma LocalIsUsed(thread: nat)
      requires Valid() && thread in local
      ensures local[thread] in chunks && local[thread].useCount > 0 && Knows(thread)
      ensures local[thread].usedSize <= local[thread].buffers.Length == PACKET_CHUNK_SIZE
    {
      LocalIsCounted(thread, {});
      PacketsLaid();
      hide Within, Counted;
    }

    lemma ClosedMayReplace(thread: nat)
      requires Valid() && Knows(thread) && (thread in local ==> !local[thread].isOpen)
      ensures MayReplace(thread)
    {
      hide Counted, Holders, Users;
    }

    method OpenIn(thread: nat, c: PacketChunk, size: nat, ghost first: seq<Steps.Action>)
      returns (r: Option<Packet>)
      requires Steps.Extends(first, steps, thread)
      requires Valid() && thread in local && local[thread] == c && !c.isOpen
      modifies this`live, this`steps, c`isOpen, c`useCount
      ensures Valid() && (r.None? <==> size > c.FreeSize())
      ensures r.None? ==> live == old(live) && steps == old(steps)
      ensures r.Some? ==>
        && live == old(live) + {r.value} && steps == old(steps) + [Steps.Open(thread, r.value.number, size)]
        && fresh(r.value) && r.value.open && r.value.owner == c && r.value.allocSize == size
      ensures Steps.Extends(first, steps, thread)
    {
      hide Placed, Counted, CountedWith, Holders, Users, Shows, ShowsBut, Within;
      hide Steps.Step, Steps.Run, Steps.MayReplace, Steps.Extends, MayReplace, Knows;
      LocalIsUsed(thread);
      ClosedMayReplace(thread);
      AllBut(Reached(), c, chunks, pool, local, live);
      ghost var before := steps;
      r := OpenChunk(c, size);
      if r.Some? {
        Adopt(r.value, thread);
        Steps.ExtendsByOne(first, before, Steps.Open(thread, r.value.number, size), thread);
      }
    }

    /** The chunk gains a reference that nothing holds yet. */
    method OpenChunk(c: PacketChunk, size: nat) returns (r: Option<Packet>)
      requires ChunksValid({}) && c in chunks && c.useCount > 0 && !c.isOpen
      requires c.usedSize <= c.buffers.Length == PACKET_CHUNK_SIZE
      modifies c`isOpen, c`useCount
      ensures r.Some? <==> size <= c.FreeSize()
      ensures r.None? ==> ChunksValid({}) && !c.isOpen && c.useCount == old(c.useCount)
      ensures r.Some? ==>
        && Placed({}) && CountedWith(c) && c.isOpen && c.useCount > 1 && fresh(r.value)
        && r.value.owner == c && r.value.start == c.usedSize
        && r.value.allocSize == size && r.value.writeSize == 0 && r.value.open
    {
      hide Holders, Users;
      r := c.Open(size);
    }

    /** The packet just opened goes to its owner. */
    ghost method Adopt(p: Packet, thread: nat)
      requires p !in live && p.open && thread in local && p.owner == local[thread] && MayReplace(thread)
      requires Placed({}) && CountedWith(p.owner) && p.owner.useCount > 1 && p.owner in chunks
      requires ShowsBut(Reached(), p.owner, chunks, pool, local, live)
      requires Within(Reached(), 0, Steps.Outside, None)
      requires forall q | q in live :: q.number < |steps|
      requires p.owner.isOpen && Reached().chunks[p.owner.number].used == p.start == p.owner.usedSize
      requires p.End() <= PACKET_CHUNK_SIZE
      modifies this`live, this`steps, p`number
      ensures live == old(live) + {p} && Valid()
      ensures steps == old(steps) + [Steps.Open(thread, p.number, p.allocSize)]
    {
      hide Holders, Users, Shows, ShowsBut, Within, Placed, Counted, CountedWith;
      hide Steps.Step, Steps.Run, Steps.MayReplace;
      NextNumber(p.owner);
      p.number := |steps|;
      OpenShown(Reached(), thread, p, chunks, pool, local, live);
      Own(p);
      Record(Steps.Open(thread, p.number, p.allocSize));
    }

    lemma NextNumber(c: PacketChunk)
      requires ShowsBut(Reached(), c, chunks, pool, local, live) && forall q | q in live :: q.number < |steps|
      ensures |steps| !in Reached().packets
    {
    }

    ghost method Own(p: Packet)
      requires p !in live && Placed({}) && CountedWith(p.owner)
      modifies this`live
      ensures live == old(live) + {p} && ChunksValid({})
    {
      hide Holders, Users, Placed;
      ghost var before := live;
      live := live + {p};
      forall c | c in chunks ensures c.useCount == |Holders(local, c)| + |Users(live, c)| {
        UsersAdded(before, p, c);
      }
    }

    /** A packet of `size` bytes for the calling thread: None if the thread's last
        packet is still open or the size exceeds a chunk. A new packet overlaps no
        live one, and no live packet moves. */
    method Open(thread: nat, size: nat) returns (r: Option<Packet>)
      requires Valid()
      modifies this, chunks
      ensures Valid() && old(chunks) <= chunks && fresh(chunks - old(chunks))
      ensures forall d | d in chunks && d !in old(chunks) :: fresh(d.buffers)
      ensures r.None? <==> (thread in old(local) && old(local[thread].isOpen)) || size > PACKET_CHUNK_SIZE
      ensures live == old(live) + (if r.Some? then {r.value} else {})
      ensures r.Some? ==> fresh(r.value) && r.value.open && r.value.allocSize == size
                          && thread in local && local[thread] == r.value.owner
      ensures Steps.Extends(old(steps), steps, thread)
      ensures r.Some? ==>
                |steps| > 0 && steps[|steps| - 1] == Steps.Open(thread, r.value.number, size)
    {
      hide ChunksValid, Follows, Holders, Users, Met, MayReplace, Knows, Steps.Extends;
      ghost var first := steps;
      Meet(thread);
      if thread !in local {
        ClosedMayReplace(thread);
        Renew(thread, first);
      }
      LocalIsUsed(thread);
      if local[thread].isOpen {
        return None;
      }
      if local[thread].FreeSize() < size {
        ClosedMayReplace(thread);
        Renew(thread, first);
        LocalIsUsed(thread);
      }
      r := OpenIn(thread, local[thread], size, first);
    }

    /** Closing commits what was written: the chunk's used part grows to the end of
        the packet, and no other packet moves. */
    method ClosePacket(p: Packet, size: nat)
      requires Valid() && p in live && p.open
      modifies p`writeSize, p`open, p.owner`isOpen, p.owner`usedSize, this`steps
      ensures Valid() && p.open == (size > p.allocSize)
      ensures !p.open ==> p.writeSize == size && p.owner.usedSize == p.start + size && !p.owner.isOpen
      ensures p.open ==> p.writeSize == old(p.writeSize) && p.owner.usedSize == old(p.owner.usedSize) && p.owner.isOpen
      ensures steps == old(steps) + if p.open then [] else [Steps.Close(p.number, size)]
    {
      hide Placed, Counted, Shows, ShowsButPacket, Within, Steps.Step, Steps.Run;
      ClosesLast(p);
      AllButPacket(Reached(), p, chunks, pool, local, live);
      p.Close(size);
      if size <= p.allocSize {
        CloseShown(Reached(), p, size, chunks, pool, local, live);
        Record(Steps.Close(p.number, size));
      }
    }

    /** An open packet begins where the used part of its chunk ends. */
    lemma ClosesLast(p: Packet)
      requires Valid() && p in live && p.open
      ensures p.owner in chunks && p.owner.isOpen && p.start == p.owner.usedSize
    {
      hide ChunksValid, Shows, Within;
      PacketsLaid();
    }

    /** The last reference to a packet goes, and its chunk returns to the pool if
        that was the last reference to the chunk. */
    method Release(p: Packet, ghost thread: nat)
      requires Valid() && p in live
      modifies this`live, this`pool, this`steps, p.owner`useCount
      ensures Valid() && live == old(live) - {p}
      ensures pool == old(pool) + (if p.owner.useCount == 0 then [p.owner] else [])
      ensures steps == old(Met(thread)) + [Steps.Drop(thread, p.number)]
                     + Steps.PutBack(thread, p.owner.useCount == 0)
    {
      hide Follows, ChunksValid, Placed, CountedWith, Holders, Users, Knows, Met;
      Meet(thread);
      Forget(p, thread);
      DropReference(p.owner, thread, Steps.Outside);
      AllQuiet(thread);
    }

    lemma OwnerIsChunk(p: Packet)
      requires Quiet() && p in live
      ensures p.owner in chunks
    {
    }

    ghost method Forget(p: Packet, thread: nat)
      requires Valid() && p in live && Knows(thread)
      modifies this`live, this`steps
      ensures live == old(live) - {p} && p.owner in chunks && Knows(thread)
      ensures Placed({}) && CountedWith(p.owner)
      ensures Follows(thread, Steps.Outside, if p.owner.useCount == 1 then Some(p.owner.number) else None)
      ensures steps == old(steps) + [Steps.Drop(thread, p.number)]
    {
      hide Shows, Within, Placed, Steps.Step, Steps.Run;
      ghost var before := live;
      OwnerIsChunk(p);
      DropShown(Reached(), thread, p, chunks, pool, local, live);
      live := live - {p};
      assert live + {p} == before;
      forall c | c in chunks
        ensures c.useCount == |Holders(local, c)| + |Users(live, c)| + (if c == p.owner then 1 else 0)
      {
        UsersAdded(live, p, c);
      }
      hide Holders, Users;
      Record(Steps.Drop(thread, p.number));
    }

    /** Two live packets share no byte. */
    lemma NoSharedByte(p: Packet, q: Packet)
      requires Valid() && p in live && q in live && p != q
      ensures p.End() <= p.owner.buffers.Length && q.End() <= q.owner.buffers.Length
      ensures p.owner.buffers != q.owner.buffers || p.End() <= q.start || q.End() <= p.start
    {
      hide Shows, Within, Counted;
      PacketsLaid();
      assert Disjoint(p, q);
    }

    /** A thread ends, and its thread-local reference with it. */
    method ThreadExit(thread: nat)
      requires Valid() && thread in local
      modifies this`local, this`pool, this`steps, chunks`useCount
      ensures Valid() && local == old(local) - {thread}
      ensures pool == old(pool)
                    + if old(local[thread]).useCount == 0 then [old(local[thread])] else []
      ensures steps == old(steps) + [Steps.Exit(thread)]
                     + Steps.PutBack(thread, old(local[thread]).useCount == 0)
    {
      hide Follows, ChunksValid, Placed, CountedWith, Holders, Users, Knows;
      var c := local[thread];
      Leave(thread);
      DropReference(c, thread, Steps.Outside);
      AllQuiet(thread);
    }

    method Leave(thread: nat)
      requires Valid() && thread in local
      modifies this`local, this`steps
      ensures local == old(local) - {thread} && old(local[thread]) in chunks && Knows(thread)
      ensures Placed({}) && CountedWith(old(local[thread]))
      ensures var c := old(local[thread]);
              Follows(thread, Steps.Outside, if c.useCount == 1 then Some(c.number) else None)
      ensures steps == old(steps) + [Steps.Exit(thread)]
    {
      hide Shows, Within, Steps.Step, Steps.Run;
      ghost var before := local;
      ExitShown(Reached(), thread, chunks, pool, local, live);
      local := local - {thread};
      forall c | c in chunks
        ensures c.useCount == |Holders(local, c)| + |Users(live, c)| + (if c == before[thread] then 1 else 0)
      {
        HoldersRemoved(before, thread, c);
      }
      hide Holders, Users;
      Record(Steps.Exit(thread));
    }
  }
}
