/** The database work queue: producer threads push requests to services chosen by
    work id, and each service has one thread that drains its queue in bulk. The
    model is a step system; every atomic operation and every queue operation of
    any thread is one step, and steps of all threads interleave freely. */
module DbQueue {
  import opened Arithmetic

  const BULK_DEQUEUE_DB_COUNT: nat := 300

  datatype Item = Item(producer: nat, workId: nat, data: int)

  /** Where a service's thread is in Execute. */
  datatype Consumer =
    | Idle                                  // not in Execute
    | Testing                               // about to test mQueueCount
    | Collecting(jobs: seq<Item>)           // inside try_dequeue_bulk
    | Handling(jobs: seq<Item>, next: nat)  // in the loop over the jobs, then at fetch_sub

  /** One DBService. The concurrent queue is one FIFO per producer; `mid` holds what
      a producer has counted and not yet enqueued. `pushed` and `handled` record
      history: per producer what was counted, and the order of handling. */
  datatype Service = Service(
    count: int,
    mid: seq<seq<Item>>,
    queues: seq<seq<Item>>,
    consumer: Consumer,
    pushed: seq<seq<Item>>,
    handled: seq<Item>)

  datatype Action =
    | Count(item: Item)    // fetch_add(1)
    | Enqueue(producer: nat)
    | Start                // the service's thread calls Execute
    | Test                 // mQueueCount == 0
    | Take(producer: nat)  // one item moves into the bulk
    | StopTaking
    | Handle
    | Subtract             // fetch_sub(jobCount) and the test of its result

  // ---------- one service ----------

  /** A disabled action changes nothing. */
  function Step(s: Service, a: Action): Service {
    match a
    case Count(item) =>
      var p := item.producer;
      if p < |s.mid| && p < |s.pushed| && s.mid[p] == [] then
        s.(count := s.count + 1, mid := s.mid[p := [item]], pushed := s.pushed[p := s.pushed[p] + [item]])
      else s
    case Enqueue(p) =>
      if p < |s.mid| && p < |s.queues| && s.mid[p] != [] then
        s.(mid := s.mid[p := []], queues := s.queues[p := s.queues[p] + s.mid[p]])
      else s
    case Start => if s.consumer.Idle? then s.(consumer := Testing) else s
    case Test =>
      if s.consumer.Testing? then s.(consumer := if s.count == 0 then Idle else Collecting([])) else s
    case Take(p) =>
      if s.consumer.Collecting? && |s.consumer.jobs| < BULK_DEQUEUE_DB_COUNT && p < |s.queues| && s.queues[p] != [] then
        s.(queues := s.queues[p := s.queues[p][1..]], consumer := Collecting(s.consumer.jobs + [s.queues[p][0]]))
      else s
    case StopTaking => if s.consumer.Collecting? then s.(consumer := Handling(s.consumer.jobs, 0)) else s
    case Handle =>
      if s.consumer.Handling? && s.consumer.next < |s.consumer.jobs| then
        s.(handled := s.handled + [s.consumer.jobs[s.consumer.next]],
           consumer := s.consumer.(next := s.consumer.next + 1))
      else s
    case Subtract =>
      if s.consumer.Handling? && s.consumer.next == |s.consumer.jobs| then
        var jobCount := |s.consumer.jobs|;
        s.(count := s.count - jobCount, consumer := if s.count == jobCount then Idle else Testing)
      else s
  }

  function Total(qs: seq<seq<Item>>): nat {
    if |qs| == 0 then 0 else Total(qs[..|qs| - 1]) + |qs[|qs| - 1]|
  }

  /** Dequeued and not yet subtracted. */
  function InBatch(c: Consumer): nat {
    match c
    case Collecting(jobs) => |jobs|
    case Handling(jobs, _) => |jobs|
    case _ => 0
  }

  /** Dequeued and not yet handled. */
  function Pending(c: Consumer): seq<Item> {
    match c
    case Collecting(jobs) => jobs
    case Handling(jobs, next) => if next <= |jobs| then jobs[next..] else []
    case _ => []
  }

  /** One producer's items, in order. */
  function By(s: seq<Item>, p: nat): seq<Item> {
    if |s| == 0 then []
    else By(s[..|s| - 1], p) + if s[|s| - 1].producer == p then [s[|s| - 1]] else []
  }

  ghost predicate Owned(qs: seq<seq<Item>>) {
    forall p, x | 0 <= p < |qs| && x in qs[p] :: x.producer == p
  }

  /** Everything of one producer's that this service has counted, oldest first. */
  function Line(s: Service, p: nat): seq<Item>
    requires p < |s.queues| && p < |s.mid|
  {
    By(s.handled, p) + By(Pending(s.consumer), p) + s.queues[p] + s.mid[p]
  }

  /** The counter is exactly what is queued, mid-push or in the current batch; and
      every producer's items are, in the order it counted them: handled, then
      pending in the batch, then queued, then mid-push. Nothing is lost or handled
      twice. */
  ghost predicate Inv(s: Service) {
    && |s.mid| == |s.queues| == |s.pushed|
    && Owned(s.mid) && Owned(s.queues)
    && (s.consumer.Handling? ==> s.consumer.next <= |s.consumer.jobs|)
    && s.count == Total(s.mid) + Total(s.queues) + InBatch(s.consumer)
    && forall p | 0 <= p < |s.pushed| :: s.pushed[p] == Line(s, p)
  }

  function Init(producers: nat): Service {
    var none := seq(producers, _ => []);
    Service(0, none, none, Idle, none, [])
  }

  lemma {:induction false} TotalUpdate(qs: seq<seq<Item>>, p: nat, q: seq<Item>)
    requires p < |qs|
    ensures Total(qs[p := q]) == Total(qs) - |qs[p]| + |q|
  {
    var last := |qs| - 1;
    if p < last {
      TotalUpdate(qs[..last], p, q);
      assert qs[p := q][..last] == qs[..last][p := q];
    } else {
      assert qs[p := q][..last] == qs[..last];
    }
  }

  lemma {:induction false} TotalZero(qs: seq<seq<Item>>, p: nat)
    requires p < |qs| && Total(qs) == 0
    ensures qs[p] == []
  {
    if p < |qs| - 1 {
      TotalZero(qs[..|qs| - 1], p);
    }
  }

  lemma {:induction false} ByConcat(a: seq<Item>, b: seq<Item>, p: nat)
    ensures By(a + b, p) == By(a, p) + By(b, p)
  {
    if |b| == 0 {
      assert a + b == a;
    } else {
      var last := |b| - 1;
      assert (a + b)[..|a| + last] == a + b[..last];
      ByConcat(a, b[..last], p);
    }
  }

  lemma ByOne(x: Item, p: nat)
    ensures By([x], p) == if x.producer == p then [x] else []
  {
    assert [x][..0] == [];
  }

  lemma {:induction false} EmptyTotal(qs: seq<seq<Item>>)
    requires forall p | 0 <= p < |qs| :: qs[p] == []
    ensures Total(qs) == 0
  {
    if |qs| > 0 {
      EmptyTotal(qs[..|qs| - 1]);
    }
  }

  lemma InitInv(producers: nat)
    ensures Inv(Init(producers))
  {
    EmptyTotal(Init(producers).mid);
  }

  lemma CountKeeps(s: Service, item: Item)
    requires Inv(s)
    ensures Inv(Step(s, Count(item)))
  {
    var p := item.producer;
    if p < |s.mid| && s.mid[p] == [] {
      TotalUpdate(s.mid, p, [item]);
      assert s.mid[p] + [item] == [item];
    }
  }

  lemma EnqueueKeeps(s: Service, p: nat)
    requires Inv(s)
    ensures Inv(Step(s, Enqueue(p)))
  {
    if p < |s.mid| && s.mid[p] != [] {
      TotalUpdate(s.mid, p, []);
      TotalUpdate(s.queues, p, s.queues[p] + s.mid[p]);
    }
  }

  lemma Regroup(a: seq<Item>, b: seq<Item>, x: Item, c: seq<Item>, d: seq<Item>)
    ensures a + (b + [x]) + c + d == a + b + ([x] + c) + d
  {
    assert (b + [x]) + c == b + ([x] + c);
  }

  lemma TakeMoves(s: Service, p: nat) returns (x: Item)
    requires |s.mid| == |s.queues| && Owned(s.queues) && p < |s.queues| && s.queues[p] != []
    requires s.consumer.Collecting? && |s.consumer.jobs| < BULK_DEQUEUE_DB_COUNT
    ensures var t := Step(s, Take(p));
            && t.handled == s.handled && t.mid == s.mid && t.queues == s.queues[p := s.queues[p][1..]]
            && s.queues[p] == [x] + t.queues[p] && x.producer == p
            && Pending(t.consumer) == Pending(s.consumer) + [x]
  {
    x := s.queues[p][0];
    assert x in s.queues[p];
  }

  lemma TakeLine(s: Service, p: nat, q: nat)
    requires |s.mid| == |s.queues| && Owned(s.queues)
    requires p < |s.queues| && s.queues[p] != [] && q < |s.queues|
    requires s.consumer.Collecting? && |s.consumer.jobs| < BULK_DEQUEUE_DB_COUNT
    ensures Line(Step(s, Take(p)), q) == Line(s, q)
  {
    hide Step, Pending, By, Owned;
    var x := TakeMoves(s, p);
    ByConcat(Pending(s.consumer), [x], q);
    ByOne(x, q);
    if q == p {
      Regroup(By(s.handled, p), By(Pending(s.consumer), p), x, s.queues[p][1..], s.mid[p]);
    }
  }

  lemma TakeKeeps(s: Service, p: nat)
    requires Inv(s)
    ensures Inv(Step(s, Take(p)))
  {
    var t := Step(s, Take(p));
    if t != s {
      TotalUpdate(s.queues, p, s.queues[p][1..]);
      forall q | 0 <= q < |s.pushed| ensures t.pushed[q] == Line(t, q) {
        TakeLine(s, p, q);
      }
    }
  }

  lemma HandleMoves(s: Service, q: nat) returns (one: seq<Item>)
    requires s.consumer.Handling? && s.consumer.next < |s.consumer.jobs|
    ensures var t := Step(s, Handle);
            && t.mid == s.mid && t.queues == s.queues
            && By(t.handled, q) == By(s.handled, q) + one
            && By(Pending(s.consumer), q) == one + By(Pending(t.consumer), q)
  {
    hide By;
    var jobs, next := s.consumer.jobs, s.consumer.next;
    ByConcat(s.handled, [jobs[next]], q);
    ByConcat([jobs[next]], jobs[next + 1..], q);
    assert jobs[next..] == [jobs[next]] + jobs[next + 1..];
    one := By([jobs[next]], q);
  }

  lemma HandleLine(s: Service, q: nat)
    requires |s.mid| == |s.queues| && q < |s.queues|
    requires s.consumer.Handling? && s.consumer.next < |s.consumer.jobs|
    ensures Line(Step(s, Handle), q) == Line(s, q)
  {
    hide By, Pending, Step;
    var one := HandleMoves(s, q);
    var h, r := By(s.handled, q), By(Pending(Step(s, Handle).consumer), q);
    assert (h + one) + r == h + (one + r);
  }

  lemma HandleKeeps(s: Service)
    requires Inv(s)
    ensures Inv(Step(s, Handle))
  {
    var t := Step(s, Handle);
    if t != s {
      forall q | 0 <= q < |s.pushed| ensures t.pushed[q] == Line(t, q) {
        HandleLine(s, q);
      }
    }
  }

  /** Every step of every thread keeps the invariant. */
  lemma StepKeeps(s: Service, a: Action)
    requires Inv(s)
    ensures Inv(Step(s, a))
  {
    match a {
      case Count(item) => CountKeeps(s, item);
      case Enqueue(p) => EnqueueKeeps(s, p);
      case Take(p) => TakeKeeps(s, p);
      case Handle => HandleKeeps(s);
      case StopTaking =>
        if s.consumer.Collecting? {
          assert s.consumer.jobs[0..] == s.consumer.jobs;
        }
      case _ =>
    }
  }

  /** Execute returns only when everything counted so far has been handled. */
  lemma ReturnMeansDrained(s: Service, a: Action)
    requires Inv(s) && !s.consumer.Idle? && Step(s, a).consumer.Idle?
    ensures var t := Step(s, a);
            t.count == 0 && forall p | 0 <= p < |t.pushed| :: By(t.handled, p) == t.pushed[p]
  {
    StepKeeps(s, a);
    var t := Step(s, a);
    forall p | 0 <= p < |t.pushed| ensures By(t.handled, p) == t.pushed[p] {
      TotalZero(t.mid, p);
      TotalZero(t.queues, p);
    }
  }

  // ---------- all services ----------

  datatype SystemAction =
    | Push(item: Item)              // DBLoadBalancer::Push, up to and including fetch_add
    | Local(service: nat, a: Action)

  /** `issued` records, per producer, everything it has pushed to any service. */
  datatype System = System(services: seq<Service>, issued: seq<seq<Item>>)

  function ServiceOf(workId: nat, serviceCount: nat): (s: nat)
    requires serviceCount > 0
    ensures s < serviceCount
  {
    workId % serviceCount
  }

  /** A producer pushes one item at a time. */
  ghost predicate MayPush(y: System, p: nat) {
    p < |y.issued| && forall i | 0 <= i < |y.services| :: p < |y.services[i].mid| && y.services[i].mid[p] == []
  }

  ghost function SystemStep(y: System, a: SystemAction): System {
    match a
    case Push(item) =>
      if |y.services| > 0 && MayPush(y, item.producer) then
        var i := ServiceOf(item.workId, |y.services|);
        System(y.services[i := Step(y.services[i], Count(item))],
               y.issued[item.producer := y.issued[item.producer] + [item]])
      else y
    case Local(i, b) =>
      if i < |y.services| && !b.Count? then System(y.services[i := Step(y.services[i], b)], y.issued) else y
  }

  function SystemInit(serviceCount: nat, producers: nat): System {
    System(seq(serviceCount, _ => Init(producers)), seq(producers, _ => []))
  }

  ghost function Run(serviceCount: nat, producers: nat, actions: seq<SystemAction>): System {
    if |actions| == 0 then SystemInit(serviceCount, producers)
    else SystemStep(Run(serviceCount, producers, actions[..|actions| - 1]), actions[|actions| - 1])
  }

  /** The items routed to service `i` of `n`, in order. */
  function Routed(s: seq<Item>, i: nat, n: nat): seq<Item>
    requires n > 0
  {
    if |s| == 0 then []
    else Routed(s[..|s| - 1], i, n) + if ServiceOf(s[|s| - 1].workId, n) == i then [s[|s| - 1]] else []
  }

  /** The items with one work id, in order. */
  function WithKey(s: seq<Item>, workId: nat): seq<Item> {
    if |s| == 0 then []
    else WithKey(s[..|s| - 1], workId) + if s[|s| - 1].workId == workId then [s[|s| - 1]] else []
  }

  /** Each service is consistent and has counted, per producer, exactly what was
      issued to it. */
  ghost predicate SystemInv(y: System, n: nat) {
    && |y.services| == n > 0
    && forall i | 0 <= i < n ::
         && Inv(y.services[i]) && |y.services[i].pushed| == |y.issued|
         && forall p | 0 <= p < |y.issued| :: y.services[i].pushed[p] == Routed(y.issued[p], i, n)
  }

  lemma PushedUnchanged(s: Service, a: Action)
    requires !a.Count?
    ensures Step(s, a).pushed == s.pushed
  {
  }

  lemma SystemStepKeeps(y: System, n: nat, a: SystemAction)
    requires SystemInv(y, n)
    ensures SystemInv(SystemStep(y, a), n)
  {
    hide Inv;
    match a {
      case Push(item) =>
        var p := item.producer;
        if MayPush(y, p) {
          var j := ServiceOf(item.workId, n);
          StepKeeps(y.services[j], Count(item));
          PushCounts(y.services[j], item);
          var z := SystemStep(y, a);
          forall i | 0 <= i < n
            ensures z.services[i].pushed[p] == Routed(z.issued[p], i, n)
          {
            assert z.issued[p][..|y.issued[p]|] == y.issued[p];
          }
        }
      case Local(i, b) =>
        if i < n && !b.Count? {
          StepKeeps(y.services[i], b);
          PushedUnchanged(y.services[i], b);
        }
    }
  }

  /** Work ids are dealt out to the services in turn. */
  lemma RoundRobin(workId: nat, serviceCount: nat)
    requires serviceCount > 0
    ensures workId < serviceCount ==> ServiceOf(workId, serviceCount) == workId
    ensures ServiceOf(workId + serviceCount, serviceCount) == ServiceOf(workId, serviceCount)
  {
    SameRemainder(workId, 1, serviceCount, serviceCount);
  }

  /** Over any number of turns. */
  lemma {:induction false} RoundsRobin(i: nat, rounds: nat, serviceCount: nat)
    requires i < serviceCount
    ensures ServiceOf(i + rounds * serviceCount, serviceCount) == i
  {
    hide ServiceOf;
    if rounds == 0 {
      RoundRobin(i, serviceCount);
    } else {
      RoundsRobin(i, rounds - 1, serviceCount);
      RoundRobin(i + (rounds - 1) * serviceCount, serviceCount);
      assert i + rounds * serviceCount == i + (rounds - 1) * serviceCount + serviceCount;
    }
  }

  /** A producer that is free to push a work id `i`, or `i` and whole turns of the
      services, raises the count of service `i` by one and changes no other service. */
  lemma PushReaches(y: System, item: Item, i: nat, rounds: nat)
    requires SystemInv(y, |y.services|)
    requires MayPush(y, item.producer) && i < |y.services| && item.workId == i + rounds * |y.services|
    ensures var z := SystemStep(y, Push(item));
            && |z.services| == |y.services|
            && z.services[i].count == y.services[i].count + 1
            && forall j | 0 <= j < |y.services| && j != i :: z.services[j] == y.services[j]
  {
    hide ServiceOf;
    RoundsRobin(i, rounds, |y.services|);
  }

  lemma PushCounts(s: Service, item: Item)
    requires Inv(s) && item.producer < |s.mid| && s.mid[item.producer] == []
    ensures Step(s, Count(item)).pushed == s.pushed[item.producer := s.pushed[item.producer] + [item]]
  {
  }

  lemma {:induction false} RunKeeps(n: nat, producers: nat, actions: seq<SystemAction>)
    requires n > 0
    ensures SystemInv(Run(n, producers, actions), n) && |Run(n, producers, actions).issued| == producers
  {
    if |actions| == 0 {
      InitInv(producers);
    } else {
      RunKeeps(n, producers, actions[..|actions| - 1]);
      SystemStepKeeps(Run(n, producers, actions[..|actions| - 1]), n, actions[|actions| - 1]);
    }
  }

  // ---------- order and delivery ----------

  lemma {:induction false} KeyConcat(a: seq<Item>, b: seq<Item>, w: nat)
    ensures WithKey(a + b, w) == WithKey(a, w) + WithKey(b, w)
  {
    if |b| == 0 {
      assert a + b == a;
    } else {
      var last := |b| - 1;
      assert (a + b)[..|a| + last] == a + b[..last];
      KeyConcat(a, b[..last], w);
    }
  }

  lemma KeyOfOne(x: Item, w: nat)
    ensures WithKey([x], w) == if x.workId == w then [x] else []
    ensures WithKey([], w) == []
  {
    assert [x][..0] == [];
  }

  /** All of a key's items are routed to the key's service, none to another. */
  lemma {:induction false} KeyRouted(s: seq<Item>, w: nat, i: nat, n: nat)
    requires n > 0
    ensures WithKey(Routed(s, i, n), w) == if ServiceOf(w, n) == i then WithKey(s, w) else []
  {
    hide ServiceOf;
    if |s| > 0 {
      var last := |s| - 1;
      var x := s[last];
      KeyRouted(s[..last], w, i, n);
      KeyConcat(Routed(s[..last], i, n), if ServiceOf(x.workId, n) == i then [x] else [], w);
      KeyOfOne(x, w);
    }
  }

  lemma HandledIsFront(s: Service, p: nat, w: nat)
    requires Inv(s) && p < |s.pushed|
    ensures WithKey(By(s.handled, p), w) <= WithKey(s.pushed[p], w)
  {
    var handled := By(s.handled, p);
    var rest := By(Pending(s.consumer), p) + s.queues[p] + s.mid[p];
    assert s.pushed[p] == handled + rest by {
      hide By, Owned, Total, Pending, WithKey;
    }
    KeyConcat(handled, rest, w);
  }

  /** In every interleaving, what one producer pushed with one work id is handled
      by the work id's service alone, and in push order: at any time the handled
      items are a front part of the pushed ones. */
  lemma KeyOrder(n: nat, producers: nat, actions: seq<SystemAction>, i: nat, p: nat, w: nat)
    requires i < n && p < producers
    ensures var y := Run(n, producers, actions);
            && |y.services| == n && |y.issued| == producers
            && var done := WithKey(By(y.services[i].handled, p), w);
               if ServiceOf(w, n) == i then done <= WithKey(y.issued[p], w) else done == []
  {
    RunKeeps(n, producers, actions);
    var y := Run(n, producers, actions);
    HandledIsFront(y.services[i], p, w);
    KeyRouted(y.issued[p], w, i, n);
  }

  /** Nothing is lost: whenever a service's thread leaves Execute, everything routed
      to it so far has been handled, in order, exactly once. */
  lemma ReturnHandlesAll(n: nat, producers: nat, actions: seq<SystemAction>, i: nat, b: Action, p: nat)
    requires i < n && p < producers && !b.Count?
    requires |Run(n, producers, actions).services| == n && !Run(n, producers, actions).services[i].consumer.Idle?
    requires Step(Run(n, producers, actions).services[i], b).consumer.Idle?
    ensures var y := Run(n, producers, actions + [Local(i, b)]);
            && |y.services| == n && |y.issued| == producers
            && By(y.services[i].handled, p) == Routed(y.issued[p], i, n)
  {
    RunKeeps(n, producers, actions);
    RunKeeps(n, producers, actions + [Local(i, b)]);
    assert (actions + [Local(i, b)])[..|actions|] == actions;
    ReturnMeansDrained(Run(n, producers, actions).services[i], b);
  }

  /** In every reachable state every service's counter is what it has queued, mid-push
      or in its batch, and so is never negative. */
  lemma CounterIsExact(n: nat, producers: nat, actions: seq<SystemAction>, i: nat)
    requires i < n
    ensures var y := Run(n, producers, actions);
            && |y.services| == n
            && var s := y.services[i];
               s.count == Total(s.mid) + Total(s.queues) + InBatch(s.consumer) && s.count >= 0
  {
    RunKeeps(n, producers, actions);
  }

  // ---------- the code of the threads ----------

  ghost predicate AllProducers(actions: seq<Action>) {
    forall a | a in actions :: a.Count? || a.Enqueue?
  }

  /** One item of a bulk: what producers do before it is taken, and from whose queue. */
  datatype Pick = Pick(before: seq<Action>, producer: nat)

  /** What other threads do while Execute goes round its loop once: what the
      producers do between its atomic steps, and from which producers' queues the
      bulk is filled. */
  datatype Turn = Turn(
    beforeTest: seq<Action>,
    beforeDequeue: seq<Action>,
    picks: seq<Pick>,
    beforeStop: seq<Action>,
    beforeHandle: seq<seq<Action>>,
    beforeSubtract: seq<Action>)

  ghost predicate PickedAmongProducers(picks: seq<Pick>) {
    forall i | 0 <= i < |picks| :: AllProducers(picks[i].before)
  }

  ghost predicate IsTurn(t: Turn) {
    && AllProducers(t.beforeTest) && AllProducers(t.beforeDequeue) && AllProducers(t.beforeSubtract)
    && PickedAmongProducers(t.picks) && AllProducers(t.beforeStop)
    && forall i | 0 <= i < |t.beforeHandle| :: AllProducers(t.beforeHandle[i])
  }

  /** The steps of a bulk, up to its last item. */
  function BulkSteps(picks: seq<Pick>): seq<Action> {
    if |picks| == 0 then []
    else
      var last := picks[|picks| - 1];
      BulkSteps(picks[..|picks| - 1]) + last.before + [Take(last.producer)]
  }

  // ---------- turns in which nobody pushes ----------

  ghost predicate QuietPicks(picks: seq<Pick>) {
    forall i | 0 <= i < |picks| :: picks[i].before == []
  }

  ghost predicate QuietHandling(during: seq<seq<Action>>) {
    forall i | 0 <= i < |during| :: during[i] == []
  }

  ghost predicate IsQuiet(t: Turn) {
    && t.beforeTest == [] && t.beforeDequeue == [] && t.beforeStop == [] && t.beforeSubtract == []
    && QuietPicks(t.picks) && QuietHandling(t.beforeHandle)
  }

  function Occurs(picks: seq<Pick>, p: nat): nat {
    if |picks| == 0 then 0
    else Occurs(picks[..|picks| - 1], p) + if picks[|picks| - 1].producer == p then 1 else 0
  }

  /** The bulk tries every queue often enough to take what there is. */
  ghost predicate IsThorough(picks: seq<Pick>, producers: nat) {
    forall p: nat | p < producers :: Occurs(picks, p) >= BULK_DEQUEUE_DB_COUNT
  }

  /** A queue tried so many times is empty or has given that many items, unless the
      bulk is full. */
  ghost predicate Tried(jobs: nat, queues: seq<seq<Item>>, picks: seq<Pick>) {
    forall p | 0 <= p < |queues| :: jobs == BULK_DEQUEUE_DB_COUNT || queues[p] == [] || jobs >= Occurs(picks, p)
  }

  lemma TriedMore(jobs: nat, queues: seq<seq<Item>>, picks: seq<Pick>, pick: Pick)
    requires Tried(jobs, queues, picks) && jobs <= BULK_DEQUEUE_DB_COUNT
    ensures var p := pick.producer;
            if jobs < BULK_DEQUEUE_DB_COUNT && p < |queues| && queues[p] != [] then
              Tried(jobs + 1, queues[p := queues[p][1..]], picks + [pick])
            else Tried(jobs, queues, picks + [pick])
  {
    assert (picks + [pick])[..|picks|] == picks;
  }

  /** A thorough bulk that is not full has emptied every queue. */
  lemma ThoroughTakesAll(jobs: nat, queues: seq<seq<Item>>, picks: seq<Pick>)
    requires Tried(jobs, queues, picks) && IsThorough(picks, |queues|) && jobs < BULK_DEQUEUE_DB_COUNT
    ensures Total(queues) == 0
  {
    EmptyTotal(queues);
  }

  function StepAll(s: Service, actions: seq<Action>): Service {
    if |actions| == 0 then s else Step(StepAll(s, actions[..|actions| - 1]), actions[|actions| - 1])
  }

  lemma StepOneMore(s: Service, actions: seq<Action>, a: Action)
    ensures StepAll(s, actions + [a]) == Step(StepAll(s, actions), a)
  {
    assert (actions + [a])[..|actions|] == actions;
  }

  lemma {:induction false} StepAllAppend(s: Service, a: seq<Action>, b: seq<Action>)
    ensures StepAll(s, a + b) == StepAll(StepAll(s, a), b)
  {
    if |b| == 0 {
      assert a + b == a;
    } else {
      assert (a + b)[..|a + b| - 1] == a + b[..|b| - 1];
      StepAllAppend(s, a, b[..|b| - 1]);
    }
  }

  /** DBService, with its queue as one FIFO per producer and a history of what was
      pushed and handled. */
  class DBService {
    var queueCount: int
    var mid: seq<seq<Item>>
    var queues: seq<seq<Item>>
    var pushed: seq<seq<Item>>
    var handled: seq<Item>

    /** The service's state with its thread at `c`. */
    ghost function State(c: Consumer): Service
      reads this
    {
      Service(queueCount, mid, queues, c, pushed, handled)
    }

    constructor (producers: nat)
      ensures State(Idle) == Init(producers)
    {
      var none := seq(producers, _ => []);
      queueCount, mid, queues, pushed, handled := 0, none, none, none, [];
    }

    /** The first half of Push: fetch_add(1). */
    method CountUp(item: Item, ghost c: Consumer)
      modifies this
      ensures State(c) == Step(old(State(c)), Count(item))
    {
      var p := item.producer;
      if p < |mid| && p < |pushed| && mid[p] == [] {
        queueCount := queueCount + 1;
        mid := mid[p := [item]];
        pushed := pushed[p := pushed[p] + [item]];
      }
    }

    /** The second half: enqueue. */
    method EnqueueCounted(p: nat, ghost c: Consumer)
      modifies this
      ensures State(c) == Step(old(State(c)), Action.Enqueue(p))
    {
      if p < |mid| && p < |queues| && mid[p] != [] {
        queues := queues[p := queues[p] + mid[p]];
        mid := mid[p := []];
      }
    }

    method Push(item: Item, ghost c: Consumer)
      requires Inv(State(c)) && item.producer < |mid| && mid[item.producer] == []
      modifies this
      ensures State(c) == Step(Step(old(State(c)), Count(item)), Action.Enqueue(item.producer))
      ensures Inv(State(c)) && queueCount == old(queueCount) + 1
      ensures queues == old(queues)[item.producer := old(queues)[item.producer] + [item]]
    {
      hide Inv, Step;
      StepKeeps(State(c), Count(item));
      CountedPush(State(c), item);
      CountUp(item, c);
      StepKeeps(State(c), Action.Enqueue(item.producer));
      EnqueueCounted(item.producer, c);
    }

    /** Any number of steps of the producers. */
    method Producers(actions: seq<Action>, ghost c: Consumer)
      requires Inv(State(c)) && AllProducers(actions)
      modifies this
      ensures State(c) == StepAll(old(State(c)), actions)
      ensures Inv(State(c)) && handled == old(handled)
      ensures actions == [] ==> State(c) == old(State(c))
    {
      hide Inv;
      for i := 0 to |actions|
        invariant State(c) == StepAll(old(State(c)), actions[..i])
        invariant Inv(State(c)) && handled == old(handled)
      {
        StepKeeps(State(c), actions[i]);
        StepOneMore(old(State(c)), actions[..i], actions[i]);
        assert actions[..i + 1] == actions[..i] + [actions[i]];
        if actions[i].Count? {
          CountUp(actions[i].item, c);
        } else {
          EnqueueCounted(actions[i].producer, c);
        }
      }
      assert actions[..|actions|] == actions;
    }

    /** try_dequeue_bulk, item by item, among producers: each time the oldest item of
        the queue picked. With nobody pushing, what is picked is tried. */
    method TryDequeueBulk(picks: seq<Pick>, beforeStop: seq<Action>)
      returns (jobs: seq<Item>, ghost trace: seq<Action>)
      requires Inv(State(Collecting([]))) && PickedAmongProducers(picks) && AllProducers(beforeStop)
      modifies this
      ensures State(Handling(jobs, 0)) == StepAll(old(State(Collecting([]))), trace)
      ensures trace == BulkSteps(picks) + beforeStop + [StopTaking]
      ensures Inv(State(Handling(jobs, 0))) && |jobs| <= BULK_DEQUEUE_DB_COUNT && handled == old(handled)
      ensures QuietPicks(picks) && beforeStop == [] ==>
                && mid == old(mid) && queueCount == old(queueCount) && |queues| == old(|queues|)
                && Tried(|jobs|, queues, picks)
    {
      hide Inv, StepAll, AllProducers, Tried;
      ghost var first := State(Collecting([]));
      jobs, trace := [], [];
      StepNone(first);
      TriedNothing(queues);
      for i := 0 to |picks|
        invariant trace == BulkSteps(picks[..i]) && State(Collecting(jobs)) == StepAll(first, trace)
        invariant Inv(State(Collecting(jobs))) && |jobs| <= BULK_DEQUEUE_DB_COUNT && handled == old(handled)
        invariant QuietPicks(picks) ==>
                    && mid == old(mid) && queueCount == old(queueCount) && |queues| == old(|queues|)
                    && Tried(|jobs|, queues, picks[..i])
      {
        var pick := picks[i];
        BulkNext(picks, i);
        StepAllAppend(first, trace, pick.before);
        Producers(pick.before, Collecting(jobs));
        trace := trace + pick.before;
        var p := pick.producer;
        StepKeeps(State(Collecting(jobs)), Take(p));
        StepOneMore(first, trace, Take(p));
        trace := trace + [Take(p)];
        if QuietPicks(picks) {
          TriedMore(|jobs|, queues, picks[..i], pick);
        }
        if |jobs| < BULK_DEQUEUE_DB_COUNT && p < |queues| && queues[p] != [] {
          jobs := jobs + [queues[p][0]];
          queues := queues[p := queues[p][1..]];
        }
      }
      assert picks[..|picks|] == picks;
      StepAllAppend(first, trace, beforeStop);
      Producers(beforeStop, Collecting(jobs));
      trace := trace + beforeStop;
      StepKeeps(State(Collecting(jobs)), StopTaking);
      StepOneMore(first, trace, StopTaking);
      trace := trace + [StopTaking];
    }

    method HandleAll(jobs: seq<Item>, during: seq<seq<Action>>) returns (ghost trace: seq<Action>)
      requires Inv(State(Handling(jobs, 0)))
      requires forall i | 0 <= i < |during| :: AllProducers(during[i])
      modifies this
      ensures State(Handling(jobs, |jobs|)) == StepAll(old(State(Handling(jobs, 0))), trace)
      ensures Inv(State(Handling(jobs, |jobs|))) && handled == old(handled) + jobs
      ensures QuietHandling(during) ==>
                mid == old(mid) && queueCount == old(queueCount) && queues == old(queues)
    {
      hide Inv, AllProducers, StepAll;
      trace := [];
      StepNone(State(Handling(jobs, 0)));
      for i := 0 to |jobs|
        invariant State(Handling(jobs, i)) == StepAll(old(State(Handling(jobs, 0))), trace)
        invariant Inv(State(Handling(jobs, i))) && handled == old(handled) + jobs[..i]
        invariant QuietHandling(during) ==>
                    mid == old(mid) && queueCount == old(queueCount) && queues == old(queues)
      {
        if i < |during| {
          StepAllAppend(old(State(Handling(jobs, 0))), trace, during[i]);
          Producers(during[i], Handling(jobs, i));
          trace := trace + during[i];
        }
        StepKeeps(State(Handling(jobs, i)), Handle);
        StepOneMore(old(State(Handling(jobs, 0))), trace, Handle);
        trace := trace + [Handle];
        handled := handled + [jobs[i]];
        assert jobs[..i + 1] == jobs[..i] + [jobs[i]];
      }
      assert jobs[..|jobs|] == jobs;
    }

    /** Once round the loop of Execute. With nobody pushing and nobody in the middle of
        it, a turn that takes what it can returns, or takes a full bulk off the
        counter. */
    method OneTurn(turn: Turn) returns (returned: bool, ghost trace: seq<Action>)
      requires Inv(State(Testing)) && IsTurn(turn)
      modifies this
      ensures State(if returned then Idle else Testing) == StepAll(old(State(Testing)), trace)
      ensures Inv(State(if returned then Idle else Testing)) && old(handled) <= handled
      ensures returned ==> queueCount == 0 && forall p | 0 <= p < |pushed| :: By(handled, p) == pushed[p]
      ensures !returned && IsQuiet(turn) && IsThorough(turn.picks, old(|queues|)) && Total(old(mid)) == 0 ==>
                && mid == old(mid) && |queues| == old(|queues|)
                && queueCount == old(queueCount) - BULK_DEQUEUE_DB_COUNT
    {
      hide Inv, Step, Line, By, AllProducers, StepAll, Tried, QuietPicks, QuietHandling, IsThorough, Total;
      ghost var first := State(Testing);
      trace := turn.beforeTest;
      Producers(turn.beforeTest, Testing);
      StepKeeps(State(Testing), Test);
      StepOneMore(first, trace, Test);
      TestStep(State(Testing));
      trace := trace + [Test];
      if queueCount == 0 {
        ReturnMeansDrained(State(Testing), Test);
        return true, trace;
      }
      StepAllAppend(first, trace, turn.beforeDequeue);
      Producers(turn.beforeDequeue, Collecting([]));
      trace := trace + turn.beforeDequeue;
      var jobs, taken := TryDequeueBulk(turn.picks, turn.beforeStop);
      StepAllAppend(first, trace, taken);
      trace := trace + taken;
      CountedInBatch(State(Handling(jobs, 0)));
      if IsQuiet(turn) && |jobs| < BULK_DEQUEUE_DB_COUNT && IsThorough(turn.picks, old(|queues|)) {
        ThoroughTakesAll(|jobs|, queues, turn.picks);
      }
      ghost var done := HandleAll(jobs, turn.beforeHandle);
      StepAllAppend(first, trace, done);
      trace := trace + done;
      StepAllAppend(first, trace, turn.beforeSubtract);
      Producers(turn.beforeSubtract, Handling(jobs, |jobs|));
      trace := trace + turn.beforeSubtract;
      ghost var s := State(Handling(jobs, |jobs|));
      StepKeeps(s, Subtract);
      SubtractStep(s);
      StepOneMore(first, trace, Subtract);
      trace := trace + [Subtract];
      var before := queueCount;
      queueCount := queueCount - |jobs|;
      if before == |jobs| {
        ReturnMeansDrained(s, Subtract);
        return true, trace;
      }
      return false, trace;
    }

    /** Execute, among producers that run through `turns`: a run of the step system.
        It returns only with every item counted so far handled, each producer's in
        order; otherwise it is still looping when the turns are over. And it does
        return: once no producer is in the middle of a push and none pushes again, after
        at most one turn more than the counter has full bulks, if each takes what it
        can. */
    method Execute(turns: seq<Turn>) returns (returned: bool, ghost trace: seq<Action>)
      requires Inv(State(Idle)) && forall t | t in turns :: IsTurn(t)
      modifies this
      ensures State(if returned then Idle else Testing) == StepAll(old(State(Idle)), trace)
      ensures Inv(State(if returned then Idle else Testing))
      ensures old(handled) <= handled
      ensures returned ==> queueCount == 0 && forall p | 0 <= p < |pushed| :: By(handled, p) == pushed[p]
      ensures Total(old(mid)) == 0 && (forall t | t in turns :: IsQuiet(t) && IsThorough(t.picks, old(|queues|))) ==>
                returned || |turns| <= old(queueCount) / BULK_DEQUEUE_DB_COUNT
    {
      hide Inv, Step, Line, By, IsTurn, StepAll, IsQuiet, IsThorough, Total;
      ghost var first := State(Idle);
      StepNone(first);
      StepOneMore(first, [], Start);
      StepKeeps(State(Idle), Start);
      StartStep(State(Idle));
      trace := [] + [Start];
      for i := 0 to |turns|
        invariant State(Testing) == StepAll(first, trace)
        invariant Inv(State(Testing)) && old(handled) <= handled
        invariant Total(old(mid)) == 0
                  && (forall t | t in turns :: IsQuiet(t) && IsThorough(t.picks, old(|queues|))) ==>
                    && mid == old(mid) && |queues| == old(|queues|)
                    && queueCount == old(queueCount) - BULK_DEQUEUE_DB_COUNT * i
      {
        assert turns[i] in turns;
        ghost var steps;
        returned, steps := OneTurn(turns[i]);
        StepAllAppend(first, trace, steps);
        trace := trace + steps;
        if returned {
          return;
        }
      }
      CountedInBatch(State(Testing));
      return false, trace;
    }
  }

  lemma TriedNothing(queues: seq<seq<Item>>)
    ensures Tried(0, queues, [])
  {
  }

  lemma BulkNext(picks: seq<Pick>, i: nat)
    requires i < |picks|
    ensures picks[..i + 1] == picks[..i] + [picks[i]]
    ensures BulkSteps(picks[..i + 1]) == BulkSteps(picks[..i]) + picks[i].before + [Take(picks[i].producer)]
  {
    assert picks[..i + 1][..i] == picks[..i];
  }

  lemma CountedInBatch(s: Service)
    requires Inv(s)
    ensures s.count == Total(s.mid) + Total(s.queues) + InBatch(s.consumer) >= 0
  {
  }

  lemma StepNone(s: Service)
    ensures StepAll(s, []) == s
  {
  }

  lemma CountedPush(s: Service, item: Item)
    requires Inv(s) && item.producer < |s.mid| && s.mid[item.producer] == []
    ensures var t := Step(Step(s, Count(item)), Action.Enqueue(item.producer));
            t.count == s.count + 1 && t.queues == s.queues[item.producer := s.queues[item.producer] + [item]]
  {
  }

  lemma StartStep(s: Service)
    requires s.consumer.Idle?
    ensures Step(s, Start) == s.(consumer := Testing)
  {
  }

  lemma TestStep(s: Service)
    requires s.consumer.Testing?
    ensures Step(s, Test) == s.(consumer := if s.count == 0 then Idle else Collecting([]))
  {
  }

  lemma SubtractStep(s: Service)
    requires s.consumer.Handling? && s.consumer.next == |s.consumer.jobs|
    ensures var n := |s.consumer.jobs|;
            Step(s, Subtract) == s.(count := s.count - n, consumer := if s.count == n then Idle else Testing)
  {
  }
}
