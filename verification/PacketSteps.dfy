/** PacketManager among any number of threads. Taking a chunk from the pool, giving up
    the reference to the old one, putting an unreferenced chunk back and resetting the
    new one are separate steps, and the steps of all threads interleave freely. */
module PacketSteps {
  import opened Options
  import opened PacketSizes

  datatype Chunk = Chunk(isOpen: bool, used: nat)

  /** A packet some thread holds: `size` is what was allocated while it is open, and
      what was written once it is closed. */
  datatype Region = Region(chunk: nat, start: nat, size: nat, open: bool)

  /** Where a thread is in PacketManager::Open: outside, holding the chunk that Pop gave
      it, or past the assignment to LPacketChunk and before Reset. */
  datatype Phase = Outside | Popped(chunk: nat) | Assigned

  /** `dying` is the chunk whose last reference the thread has given up and which its
      deleter has not put back yet. */
  datatype Thread = Thread(local: Option<nat>, phase: Phase, dying: Option<nat>)

  datatype State = State(chunks: seq<Chunk>, pool: set<nat>, threads: seq<Thread>, packets: map<nat, Region>)

  datatype Action =
    | Start(count: nat)                    // threads start
    | Dequeue(t: nat, chunk: nat)          // try_dequeue succeeds
    | Make(t: nat)                         // Pop gives up and makes a chunk
    | Assign(t: nat)                       // LPacketChunk = ...
    | Enqueue(t: nat)                      // the deleter, PushGlobal
    | Reset(t: nat)
    | Open(t: nat, packet: nat, size: nat)
    | Close(packet: nat, size: nat)        // by the packet's owner
    | Drop(t: nat, packet: nat)            // the last reference to a packet
    | Exit(t: nat)                         // the thread's LPacketChunk goes

  /** Threads that have not called anything yet. */
  function Idle(count: nat): (threads: seq<Thread>)
    ensures |threads| == count && forall t | 0 <= t < count :: threads[t] == Thread(None, Outside, None)
  {
    seq(count, _ => Thread(None, Outside, None))
  }

  // ---------- steps ----------

  ghost predicate Referenced(s: State, c: nat) {
    || (exists t :: 0 <= t < |s.threads| && s.threads[t].local == Some(c))
    || (exists p :: p in s.packets && s.packets[p].chunk == c)
  }

  /** The chunk a reference to which was just given up, if that was the last one. */
  ghost function Unreferenced(s: State, c: Option<nat>): Option<nat> {
    if c.Some? && !Referenced(s, c.value) then c else None
  }

  /** The thread runs, and its deleter does not. */
  predicate Ready(s: State, t: nat, phase: Phase) {
    t < |s.threads| && s.threads[t].phase == phase && s.threads[t].dying == None
  }

  function WithThread(s: State, t: nat, thread: Thread): State
    requires t < |s.threads|
  {
    s.(threads := s.threads[t := thread])
  }

  /** A thread leaves the chunk it allocates from only when no packet is open in it. */
  predicate MayReplace(s: State, t: nat) {
    && Ready(s, t, Outside)
    && (s.threads[t].local.Some? ==>
          s.threads[t].local.value < |s.chunks| && !s.chunks[s.threads[t].local.value].isOpen)
  }

  /** A disabled action changes nothing. */
  ghost function Step(s: State, a: Action): State {
    match a
    case Start(n) =>
      s.(threads := s.threads + Idle(n))
    case Dequeue(t, c) =>
      if MayReplace(s, t) && c in s.pool then
        WithThread(s, t, s.threads[t].(phase := Popped(c))).(pool := s.pool - {c})
      else s
    case Make(t) =>
      if MayReplace(s, t) then
        WithThread(s, t, s.threads[t].(phase := Popped(|s.chunks|))).(chunks := s.chunks + [Chunk(false, 0)])
      else s
    case Assign(t) =>
      if t < |s.threads| && s.threads[t].phase.Popped? && s.threads[t].dying == None then
        var was, thread := s.threads[t].local, Thread(Some(s.threads[t].phase.chunk), Assigned, None);
        var moved := WithThread(s, t, thread);
        WithThread(moved, t, thread.(dying := Unreferenced(moved, was)))
      else s
    case Enqueue(t) =>
      if t < |s.threads| && s.threads[t].dying.Some? then
        WithThread(s, t, s.threads[t].(dying := None)).(pool := s.pool + {s.threads[t].dying.value})
      else s
    case Reset(t) =>
      if Ready(s, t, Assigned) && s.threads[t].local.Some? && s.threads[t].local.value < |s.chunks| then
        var c := s.threads[t].local.value;
        WithThread(s, t, s.threads[t].(phase := Outside)).(chunks := s.chunks[c := Chunk(false, 0)])
      else s
    case Open(t, p, size) =>
      if MayReplace(s, t) && s.threads[t].local.Some? && p !in s.packets
         && size + s.chunks[s.threads[t].local.value].used <= PACKET_CHUNK_SIZE then
        var c := s.threads[t].local.value;
        s.(chunks := s.chunks[c := s.chunks[c].(isOpen := true)],
           packets := s.packets[p := Region(c, s.chunks[c].used, size, true)])
      else s
    case Close(p, size) =>
      if p in s.packets && s.packets[p].open && size <= s.packets[p].size && s.packets[p].chunk < |s.chunks| then
        var c := s.packets[p].chunk;
        s.(chunks := s.chunks[c := Chunk(false, s.chunks[c].used + size)],
           packets := s.packets[p := s.packets[p].(size := size, open := false)])
      else s
    case Drop(t, p) =>
      if Ready(s, t, Outside) && p in s.packets then
        var left := s.(packets := s.packets - {p});
        WithThread(left, t, s.threads[t].(dying := Unreferenced(left, Some(s.packets[p].chunk))))
      else s
    case Exit(t) =>
      if Ready(s, t, Outside) then
        var left := WithThread(s, t, s.threads[t].(local := None));
        WithThread(left, t, left.threads[t].(dying := Unreferenced(left, s.threads[t].local)))
      else s
  }

  /** Threads start, or thread `t` does something. */
  predicate TakenBy(a: Action, t: nat) {
    a.Start? || (!a.Close? && a.t == t)
  }

  /** From `was` to `now` thread `t` has taken all steps. */
  ghost predicate Extends(was: seq<Action>, now: seq<Action>, t: nat) {
    was <= now && forall i | |was| <= i < |now| :: TakenBy(now[i], t)
  }

  /** The deleter's step, if the last reference went. */
  function PutBack(t: nat, last: bool): seq<Action> {
    if last then [Enqueue(t)] else []
  }

  lemma ExtendsByOne(was: seq<Action>, now: seq<Action>, a: Action, t: nat)
    requires Extends(was, now, t) && TakenBy(a, t)
    ensures Extends(was, now + [a], t)
  {
  }

  // ---------- where chunks are ----------

  /** The chunk a thread carries between pool and reference. */
  predicate Carries(thread: Thread, c: nat) {
    thread.phase == Popped(c) || thread.dying == Some(c)
  }

  /** A chunk in the pool has no reference. */
  ghost predicate PoolFree(s: State) {
    forall c | c in s.pool :: c < |s.chunks| && !Referenced(s, c)
  }

  /** Neither has one that a thread carries, and it is not in the pool. */
  ghost predicate CarriedFree(s: State, t: nat)
    requires t < |s.threads|
  {
    && (s.threads[t].phase.Popped? ==> s.threads[t].dying == None)
    && forall c: nat | Carries(s.threads[t], c) :: c < |s.chunks| && c !in s.pool && !Referenced(s, c)
  }

  /** Two threads neither carry the same chunk nor allocate from the same. */
  ghost predicate ThreadsApart(a: Thread, b: Thread) {
    && (forall c: nat | Carries(a, c) :: !Carries(b, c))
    && (a.local.Some? ==> b.local != a.local)
  }

  /** Chunks in the pool or carried by a thread have no reference and are in one such
      place only; each thread has a chunk of its own. */
  ghost predicate Placed(s: State) {
    && PoolFree(s)
    && (forall t | 0 <= t < |s.threads| :: CarriedFree(s, t))
    && (forall t, u | 0 <= t < |s.threads| && 0 <= u < |s.threads| && t != u ::
          ThreadsApart(s.threads[t], s.threads[u]))
    && (forall t | 0 <= t < |s.threads| && s.threads[t].local.Some? :: s.threads[t].local.value < |s.chunks|)
    && (forall p | p in s.packets :: s.packets[p].chunk < |s.chunks|)
  }

  ghost predicate Somewhere(s: State, c: nat) {
    c in s.pool || Referenced(s, c) || exists t :: 0 <= t < |s.threads| && Carries(s.threads[t], c)
  }

  ghost predicate NoneLost(s: State) {
    forall c: nat | c < |s.chunks| :: Somewhere(s, c)
  }

  // ---------- where packets are ----------

  predicate Apart(p: Region, q: Region) {
    p.chunk == q.chunk ==> p.start + p.size <= q.start || q.start + q.size <= p.start
  }

  /** No overlap, and no two open in a chunk. */
  predicate Fit(p: Region, q: Region) {
    Apart(p, q) && (p.chunk == q.chunk ==> !p.open || !q.open)
  }

  /** A closed packet lies in the used part of its chunk, an open one at its end. */
  predicate LiesIn(p: Region, chunks: seq<Chunk>) {
    && p.chunk < |chunks| && p.start + p.size <= PACKET_CHUNK_SIZE
    && var c := chunks[p.chunk];
       if p.open then c.isOpen && p.start == c.used else p.start + p.size <= c.used
  }

  /** All packets lie in their chunks and fit beside each other, and there is none in a
      chunk about to be reset. */
  ghost predicate Laid(s: State) {
    && (forall c | 0 <= c < |s.chunks| :: s.chunks[c].used <= PACKET_CHUNK_SIZE)
    && (forall p | p in s.packets :: LiesIn(s.packets[p], s.chunks))
    && (forall p, q | p in s.packets && q in s.packets && p != q :: Fit(s.packets[p], s.packets[q]))
    && (forall t, p | 0 <= t < |s.threads| && s.threads[t].phase == Assigned && p in s.packets ::
          s.threads[t].local != Some(s.packets[p].chunk))
  }

  ghost predicate Inv(s: State) {
    Placed(s) && NoneLost(s) && Laid(s)
  }

  function Init(threads: nat): State {
    State([], {}, Idle(threads), map[])
  }

  // ---------- references ----------

  /** A reference other than thread `t`'s own. */
  ghost predicate ReferencedElsewhere(s: State, t: nat, c: nat) {
    || (exists u :: 0 <= u < |s.threads| && u != t && s.threads[u].local == Some(c))
    || (exists p :: p in s.packets && s.packets[p].chunk == c)
  }

  lemma OwnAndElsewhere(s: State, t: nat, c: nat)
    requires t < |s.threads|
    ensures Referenced(s, c) <==> s.threads[t].local == Some(c) || ReferencedElsewhere(s, t, c)
  {
  }

  /** One thread changes; what the others refer to does not. */
  lemma SameElsewhere(s: State, r: State, t: nat, c: nat)
    requires t < |s.threads| == |r.threads| && r.packets == s.packets && r.threads == s.threads[t := r.threads[t]]
    ensures ReferencedElsewhere(r, t, c) == ReferencedElsewhere(s, t, c)
  {
    assert forall u | 0 <= u < |s.threads| && u != t :: r.threads[u] == s.threads[u];
  }

  lemma ChangedReferences(s: State, r: State, t: nat, c: nat)
    requires t < |s.threads| == |r.threads| && r.packets == s.packets && r.threads == s.threads[t := r.threads[t]]
    ensures Referenced(s, c) <==> s.threads[t].local == Some(c) || ReferencedElsewhere(s, t, c)
    ensures Referenced(r, c) <==> r.threads[t].local == Some(c) || ReferencedElsewhere(s, t, c)
  {
    hide *;
    OwnAndElsewhere(s, t, c);
    OwnAndElsewhere(r, t, c);
    SameElsewhere(s, r, t, c);
  }

  lemma FewerReferences(s: State, r: State, p: nat, c: nat)
    requires p in s.packets && r.packets == s.packets - {p} && |r.threads| == |s.threads|
    requires forall t | 0 <= t < |s.threads| :: r.threads[t].local == s.threads[t].local
    ensures Referenced(r, c) ==> Referenced(s, c)
    ensures Referenced(s, c) && c != s.packets[p].chunk ==> Referenced(r, c)
  {
    if q :| q in s.packets && s.packets[q].chunk == c {
      if q != p {
        assert q in r.packets;
      }
    }
  }

  // ---------- every step keeps chunks in place ----------

  /** Where a chunk is not, given where it is. */
  lemma Whereabouts(s: State, t: nat, c: nat)
    requires Placed(s) && t < |s.threads|
    ensures c in s.pool ==> c < |s.chunks| && !Referenced(s, c)
    ensures Carries(s.threads[t], c) ==> c < |s.chunks| && c !in s.pool && !Referenced(s, c)
    ensures Referenced(s, c) ==> c < |s.chunks|
    ensures s.threads[t].phase.Popped? ==> s.threads[t].dying == None
  {
    assert CarriedFree(s, t);
  }

  /** What one thread's step may do with one chunk: refer to what it carried, put back
      what it carried, and carry what was in the pool, new, or referred to; but it does
      not lose it. */
  ghost predicate Moves(s: State, r: State, t: nat, c: nat)
    requires t < |s.threads| == |r.threads|
  {
    && (Referenced(r, c) ==> c < |r.chunks| && (Referenced(s, c) || Carries(s.threads[t], c)))
    && (c in r.pool ==> c < |r.chunks| && !Referenced(r, c) && (c in s.pool || Carries(s.threads[t], c)))
    && (Carries(r.threads[t], c) ==>
          && c < |r.chunks| && !Referenced(r, c) && c !in r.pool
          && (c in s.pool || c >= |s.chunks| || Referenced(s, c) || Carries(s.threads[t], c)))
    && (r.threads[t].local == Some(c) ==> s.threads[t].local == Some(c) || Carries(s.threads[t], c))
    && (c < |r.chunks| && (c in s.pool || c >= |s.chunks| || Referenced(s, c) || Carries(s.threads[t], c)) ==>
          c in r.pool || Referenced(r, c) || Carries(r.threads[t], c))
  }

  lemma LocalReferenced(s: State, t: nat)
    requires t < |s.threads| && s.threads[t].local.Some?
    ensures Referenced(s, s.threads[t].local.value)
  {
  }

  lemma PacketReferenced(s: State, p: nat)
    requires p in s.packets
    ensures Referenced(s, s.packets[p].chunk)
  {
  }

  lemma OtherThread(s: State, r: State, t: nat, u: nat)
    requires Placed(s) && t < |s.threads| == |r.threads| && u < |s.threads| && u != t
    requires r.threads[u] == s.threads[u] && |s.chunks| <= |r.chunks| && forall c: nat :: Moves(s, r, t, c)
    ensures CarriedFree(r, u) && ThreadsApart(r.threads[t], r.threads[u]) && ThreadsApart(r.threads[u], r.threads[t])
  {
    assert CarriedFree(s, u) && CarriedFree(s, t);
    assert ThreadsApart(s.threads[u], s.threads[t]) && ThreadsApart(s.threads[t], s.threads[u]);
    hide Carries, Referenced;
    forall c: nat | Carries(s.threads[u], c)
      ensures c !in r.pool && !Referenced(r, c) && !Carries(r.threads[t], c)
    {
      assert Moves(s, r, t, c);
    }
    if r.threads[t].local.Some? {
      assert Moves(s, r, t, r.threads[t].local.value);
    }
    if s.threads[u].local.Some? {
      LocalReferenced(s, u);
      assert Moves(s, r, t, s.threads[u].local.value);
    }
  }

  /** A step that moves chunks so keeps them in place. */
  lemma PlacedMove(s: State, r: State, t: nat)
    requires Placed(s) && t < |s.threads| == |r.threads| && r.threads == s.threads[t := r.threads[t]]
    requires |s.chunks| <= |r.chunks| && forall c: nat :: Moves(s, r, t, c)
    requires r.threads[t].phase.Popped? ==> r.threads[t].dying == None
    ensures Placed(r)
  {
    hide Carries, Referenced, ThreadsApart;
    forall u | 0 <= u < |s.threads| && u != t
      ensures CarriedFree(r, u) && ThreadsApart(r.threads[t], r.threads[u]) && ThreadsApart(r.threads[u], r.threads[t])
    {
      OtherThread(s, r, t, u);
    }
    forall u, v | 0 <= u < |s.threads| && 0 <= v < |s.threads| && u != v
      ensures ThreadsApart(r.threads[u], r.threads[v])
    {
      assert ThreadsApart(s.threads[u], s.threads[v]);
    }
    forall c | c in r.pool ensures c < |r.chunks| && !Referenced(r, c) {
      assert Moves(s, r, t, c);
    }
    forall c: nat | Carries(r.threads[t], c) ensures c < |r.chunks| && c !in r.pool && !Referenced(r, c) {
      assert Moves(s, r, t, c);
    }
    forall u | 0 <= u < |s.threads| && r.threads[u].local.Some? ensures r.threads[u].local.value < |r.chunks| {
      LocalReferenced(r, u);
      assert Moves(s, r, t, r.threads[u].local.value);
    }
    forall p | p in r.packets ensures r.packets[p].chunk < |r.chunks| {
      PacketReferenced(r, p);
      assert Moves(s, r, t, r.packets[p].chunk);
    }
  }

  lemma NoneLostMove(s: State, r: State, t: nat)
    requires NoneLost(s) && t < |s.threads| == |r.threads| && r.threads == s.threads[t := r.threads[t]]
    requires |s.chunks| <= |r.chunks| && forall c: nat :: Moves(s, r, t, c)
    ensures NoneLost(r)
  {
    hide Carries, Referenced;
    forall c: nat | c < |r.chunks| ensures Somewhere(r, c) {
      assert Moves(s, r, t, c);
      if c < |s.chunks| {
        assert Somewhere(s, c);
        if u :| 0 <= u < |s.threads| && Carries(s.threads[u], c) {
          assert u != t ==> Carries(r.threads[u], c);
        }
      }
      if Carries(r.threads[t], c) {
        assert Somewhere(r, c);
      }
    }
  }

  lemma PlacedPop(s: State, a: Action)
    requires Placed(s) && NoneLost(s) && (a.Dequeue? || a.Make?)
    ensures Placed(Step(s, a)) && NoneLost(Step(s, a))
  {
    var r := Step(s, a);
    if r != s {
      forall c: nat ensures Moves(s, r, a.t, c) {
        Whereabouts(s, a.t, c);
        ChangedReferences(s, r, a.t, c);
        hide Referenced, ReferencedElsewhere, Placed;
      }
      PlacedMove(s, r, a.t);
      NoneLostMove(s, r, a.t);
    }
  }

  lemma PlacedEnqueue(s: State, t: nat)
    requires Placed(s) && NoneLost(s)
    ensures Placed(Step(s, Enqueue(t))) && NoneLost(Step(s, Enqueue(t)))
  {
    var r := Step(s, Enqueue(t));
    if r != s {
      forall c: nat ensures Moves(s, r, t, c) {
        Whereabouts(s, t, c);
        ChangedReferences(s, r, t, c);
        hide Referenced, ReferencedElsewhere, Placed;
      }
      PlacedMove(s, r, t);
      NoneLostMove(s, r, t);
    }
  }

  lemma PlacedReset(s: State, t: nat)
    requires Placed(s) && NoneLost(s)
    ensures Placed(Step(s, Reset(t))) && NoneLost(Step(s, Reset(t)))
  {
    var r := Step(s, Reset(t));
    if r != s {
      forall c: nat ensures Moves(s, r, t, c) {
        Whereabouts(s, t, c);
        ChangedReferences(s, r, t, c);
        hide Referenced, ReferencedElsewhere, Placed;
      }
      PlacedMove(s, r, t);
      NoneLostMove(s, r, t);
    }
  }

  lemma PlacedOpen(s: State, t: nat, p: nat, size: nat)
    requires Placed(s) && NoneLost(s)
    ensures Placed(Step(s, Open(t, p, size))) && NoneLost(Step(s, Open(t, p, size)))
  {
    var r := Step(s, Open(t, p, size));
    if r != s {
      LocalReferenced(s, t);
      forall c: nat ensures Moves(s, r, t, c) {
        Whereabouts(s, t, c);
        MoreReferences(s, r, p, c);
        hide Referenced, Placed;
      }
      PlacedMove(s, r, t);
      NoneLostMove(s, r, t);
    }
  }

  /** A packet more, in a chunk that has a reference. */
  lemma MoreReferences(s: State, r: State, p: nat, c: nat)
    requires p in r.packets && r.threads == s.threads && r.packets == s.packets[p := r.packets[p]]
    requires p in s.packets ==> s.packets[p].chunk == r.packets[p].chunk
    requires Referenced(s, r.packets[p].chunk)
    ensures Referenced(r, c) == Referenced(s, c)
  {
    if q :| q in s.packets && s.packets[q].chunk == c {
      assert r.packets[q].chunk == c;
    }
    if q :| q in r.packets && r.packets[q].chunk == c {
      assert q == p || s.packets[q].chunk == c;
    }
  }

  /** The same, of a step that changes no thread. */
  lemma PlacedStill(s: State, r: State)
    requires Placed(s) && NoneLost(s) && r.threads == s.threads && r.pool == s.pool && |r.chunks| == |s.chunks|
    requires forall c: nat :: Referenced(r, c) == Referenced(s, c)
    requires forall p | p in r.packets :: r.packets[p].chunk < |r.chunks|
    ensures Placed(r) && NoneLost(r)
  {
    hide Referenced;
    forall t | 0 <= t < |s.threads| ensures CarriedFree(r, t) {
      assert CarriedFree(s, t);
    }
    forall c: nat | c < |r.chunks| ensures Somewhere(r, c) {
      assert Somewhere(s, c);
    }
  }

  lemma PlacedClose(s: State, p: nat, size: nat)
    requires Placed(s) && NoneLost(s)
    ensures Placed(Step(s, Close(p, size))) && NoneLost(Step(s, Close(p, size)))
  {
    var r := Step(s, Close(p, size));
    if p in s.packets && r != s {
      PacketReferenced(s, p);
      forall c: nat ensures Referenced(r, c) == Referenced(s, c) {
        MoreReferences(s, r, p, c);
      }
      PlacedStill(s, r);
    }
  }

  lemma PlacedStart(s: State, n: nat)
    requires Placed(s) && NoneLost(s)
    ensures Placed(Step(s, Start(n))) && NoneLost(Step(s, Start(n)))
  {
    var r := Step(s, Start(n));
    forall c: nat ensures Referenced(r, c) == Referenced(s, c) {
      if t :| 0 <= t < |s.threads| && s.threads[t].local == Some(c) {
        assert r.threads[t].local == Some(c);
      }
    }
    hide Referenced;
    forall t | 0 <= t < |r.threads| ensures CarriedFree(r, t) {
      assert t < |s.threads| ==> CarriedFree(s, t);
    }
    forall c: nat | c < |r.chunks| ensures Somewhere(r, c) {
      assert Somewhere(s, c);
      if t :| 0 <= t < |s.threads| && Carries(s.threads[t], c) {
        assert Carries(r.threads[t], c);
      }
    }
  }

  lemma PlacedAssign(s: State, t: nat)
    requires Placed(s) && NoneLost(s)
    ensures Placed(Step(s, Assign(t))) && NoneLost(Step(s, Assign(t)))
  {
    var r := Step(s, Assign(t));
    if t < |s.threads| && s.threads[t].phase.Popped? && s.threads[t].dying == None {
      var moved := WithThread(s, t, Thread(Some(s.threads[t].phase.chunk), Assigned, None));
      forall c: nat ensures Moves(s, r, t, c) {
        Whereabouts(s, t, c);
        ChangedReferences(s, r, t, c);
        ChangedReferences(s, moved, t, c);
        hide Referenced, ReferencedElsewhere, Placed;
      }
      PlacedMove(s, r, t);
      NoneLostMove(s, r, t);
    }
  }

  lemma PlacedDrop(s: State, t: nat, p: nat)
    requires Placed(s) && NoneLost(s)
    ensures Placed(Step(s, Drop(t, p))) && NoneLost(Step(s, Drop(t, p)))
  {
    var r := Step(s, Drop(t, p));
    if Ready(s, t, Outside) && p in s.packets {
      var left := s.(packets := s.packets - {p});
      PacketReferenced(s, p);
      forall c: nat ensures Moves(s, r, t, c) {
        Whereabouts(s, t, c);
        FewerReferences(s, left, p, c);
        SameReferences(left, r, c);
        hide Referenced, Placed;
      }
      PlacedMove(s, r, t);
      NoneLostMove(s, r, t);
    }
  }

  lemma SameReferences(s: State, r: State, c: nat)
    requires |r.threads| == |s.threads| && r.packets == s.packets
    requires forall t | 0 <= t < |s.threads| :: r.threads[t].local == s.threads[t].local
    ensures Referenced(r, c) == Referenced(s, c)
  {
  }

  lemma PlacedExit(s: State, t: nat)
    requires Placed(s) && NoneLost(s)
    ensures Placed(Step(s, Exit(t))) && NoneLost(Step(s, Exit(t)))
  {
    var r := Step(s, Exit(t));
    if Ready(s, t, Outside) {
      var left := WithThread(s, t, s.threads[t].(local := None));
      forall c: nat ensures Moves(s, r, t, c) {
        Whereabouts(s, t, c);
        ChangedReferences(s, r, t, c);
        ChangedReferences(s, left, t, c);
        hide Referenced, ReferencedElsewhere, Placed;
      }
      PlacedMove(s, r, t);
      NoneLostMove(s, r, t);
    }
  }

  // ---------- every step keeps packets apart ----------

  lemma LaidPop(s: State, a: Action)
    requires Laid(s) && (a.Start? || a.Dequeue? || a.Make? || a.Enqueue? || a.Exit?)
    ensures Laid(Step(s, a))
  {
    hide Referenced;
  }

  /** The chunk that becomes a thread's own has no packet in it. */
  lemma LaidAssign(s: State, t: nat)
    requires Laid(s) && Placed(s)
    ensures Laid(Step(s, Assign(t)))
  {
    if t < |s.threads| && s.threads[t].phase.Popped? {
      Whereabouts(s, t, s.threads[t].phase.chunk);
      forall p | p in s.packets ensures s.packets[p].chunk != s.threads[t].phase.chunk {
        PacketReferenced(s, p);
      }
    }
    hide Referenced, Placed;
  }

  lemma LaidReset(s: State, t: nat)
    requires Laid(s)
    ensures Laid(Step(s, Reset(t)))
  {
    hide Referenced;
  }

  /** Where a new packet goes nothing lies, and the others stay where they are. */
  lemma RoomAtEnd(s: State, t: nat, size: nat, q: nat)
    requires Laid(s) && MayReplace(s, t) && s.threads[t].local.Some? && q in s.packets
    ensures var c := s.threads[t].local.value;
            var added := Region(c, s.chunks[c].used, size, true);
            && Fit(added, s.packets[q]) && Fit(s.packets[q], added)
            && LiesIn(s.packets[q], s.chunks[c := s.chunks[c].(isOpen := true)])
  {
    assert LiesIn(s.packets[q], s.chunks);
  }

  lemma NotResetting(s: State, t: nat, u: nat)
    requires Placed(s) && Ready(s, t, Outside) && s.threads[t].local.Some?
    requires u < |s.threads| && s.threads[u].phase == Assigned
    ensures s.threads[u].local != s.threads[t].local
  {
    assert ThreadsApart(s.threads[t], s.threads[u]);
  }

  lemma LaidOpen(s: State, t: nat, p: nat, size: nat)
    requires Laid(s) && Placed(s)
    ensures Laid(Step(s, Open(t, p, size)))
  {
    hide Referenced, Placed, Fit;
    var r := Step(s, Open(t, p, size));
    if r != s {
      forall u | 0 <= u < |s.threads| && s.threads[u].phase == Assigned
        ensures s.threads[u].local != s.threads[t].local
      {
        NotResetting(s, t, u);
      }
      forall q | q in s.packets
        ensures Fit(r.packets[p], s.packets[q]) && Fit(s.packets[q], r.packets[p])
        ensures LiesIn(s.packets[q], r.chunks)
      {
        RoomAtEnd(s, t, size, q);
      }
    }
  }

  /** A packet that shrinks when it is closed still fits, and so does its chunk. */
  lemma ClosedFits(s: State, p: nat, size: nat, q: nat)
    requires Laid(s) && p in s.packets && s.packets[p].open && size <= s.packets[p].size
    requires q in s.packets && q != p
    ensures var closed := s.packets[p].(size := size, open := false);
            var c := s.packets[p].chunk;
            && c < |s.chunks|
            && Fit(closed, s.packets[q]) && Fit(s.packets[q], closed)
            && LiesIn(s.packets[q], s.chunks[c := Chunk(false, s.chunks[c].used + size)])
  {
    assert LiesIn(s.packets[p], s.chunks) && LiesIn(s.packets[q], s.chunks);
    assert Fit(s.packets[p], s.packets[q]) && Fit(s.packets[q], s.packets[p]);
  }

  lemma LaidClose(s: State, p: nat, size: nat)
    requires Laid(s)
    ensures Laid(Step(s, Close(p, size)))
  {
    hide Referenced, Fit;
    var r := Step(s, Close(p, size));
    if p in s.packets && s.packets[p].open && size <= s.packets[p].size {
      assert LiesIn(s.packets[p], s.chunks);
      forall q | q in s.packets && q != p
        ensures Fit(r.packets[p], s.packets[q]) && Fit(s.packets[q], r.packets[p])
        ensures LiesIn(s.packets[q], r.chunks)
      {
        ClosedFits(s, p, size, q);
      }
    }
  }

  lemma LaidDrop(s: State, t: nat, p: nat)
    requires Laid(s)
    ensures Laid(Step(s, Drop(t, p)))
  {
    hide Referenced;
  }

  /** Every atomic step of every thread keeps the invariant. */
  lemma StepKeeps(s: State, a: Action)
    requires Inv(s)
    ensures Inv(Step(s, a))
  {
    hide Step, Placed, NoneLost, Laid;
    match a {
      case Start(n) =>
        PlacedStart(s, n);
        LaidPop(s, a);
      case Dequeue(_, _) =>
        PlacedPop(s, a);
        LaidPop(s, a);
      case Make(_) =>
        PlacedPop(s, a);
        LaidPop(s, a);
      case Assign(t) =>
        PlacedAssign(s, t);
        LaidAssign(s, t);
      case Enqueue(t) =>
        PlacedEnqueue(s, t);
        LaidPop(s, a);
      case Reset(t) =>
        PlacedReset(s, t);
        LaidReset(s, t);
      case Open(t, p, size) =>
        PlacedOpen(s, t, p, size);
        LaidOpen(s, t, p, size);
      case Close(p, size) =>
        PlacedClose(s, p, size);
        LaidClose(s, p, size);
      case Drop(t, p) =>
        PlacedDrop(s, t, p);
        LaidDrop(s, t, p);
      case Exit(t) =>
        PlacedExit(s, t);
        LaidPop(s, a);
    }
  }

  // ---------- runs ----------

  ghost function Run(threads: nat, actions: seq<Action>): State {
    if |actions| == 0 then Init(threads)
    else Step(Run(threads, actions[..|actions| - 1]), actions[|actions| - 1])
  }

  lemma {:induction false} RunKeeps(threads: nat, actions: seq<Action>)
    ensures Inv(Run(threads, actions))
  {
    hide Step, Inv;
    if |actions| == 0 {
      InitInv(threads);
    } else {
      RunKeeps(threads, actions[..|actions| - 1]);
      StepKeeps(Run(threads, actions[..|actions| - 1]), actions[|actions| - 1]);
    }
  }

  lemma InitInv(threads: nat)
    ensures Inv(Init(threads))
  {
  }

  /** In every interleaving two packets that are held share no byte, and lie in their
      chunks. */
  lemma PacketsApart(threads: nat, actions: seq<Action>, p: nat, q: nat)
    requires var s := Run(threads, actions); p in s.packets && q in s.packets && p != q
    ensures var s := Run(threads, actions);
            Apart(s.packets[p], s.packets[q]) && s.packets[p].start + s.packets[p].size <= PACKET_CHUNK_SIZE
  {
    hide Run;
    RunKeeps(threads, actions);
  }

  /** In every interleaving a chunk is reset only when no packet lies in it. */
  lemma ResetFindsNoPacket(threads: nat, actions: seq<Action>, t: nat, p: nat)
    requires var s := Run(threads, actions);
             t < |s.threads| && s.threads[t].phase == Assigned && p in s.packets
    ensures Run(threads, actions).threads[t].local != Some(Run(threads, actions).packets[p].chunk)
  {
    hide Run;
    RunKeeps(threads, actions);
  }

  /** In every interleaving no chunk is lost: it is in the pool, referred to, or on its
      way from one to the other with a thread. And what is in the pool is unreferred
      to. */
  lemma ChunksRecycled(threads: nat, actions: seq<Action>, c: nat)
    requires c < |Run(threads, actions).chunks|
    ensures Somewhere(Run(threads, actions), c)
    ensures c in Run(threads, actions).pool ==> !Referenced(Run(threads, actions), c)
  {
    hide Run, Referenced, Somewhere;
    RunKeeps(threads, actions);
  }
}
