/** The work queue cannot get stuck: whatever the threads have done so far, what was
    pushed can be handled to the end without another push. */
module DbProgress {
  import opened DbQueue

  // ---------- one service ----------

  ghost predicate Drained(s: Service) { s.consumer.Idle? && s.count == 0 }

  /** How far a service is from having handled everything. */
  ghost function Distance(s: Service): nat
    requires Inv(s)
  {
    20 * Total(s.mid) + 10 * Total(s.queues) +
    match s.consumer
    case Idle => if s.count == 0 then 0 else 4
    case Testing => if s.count == 0 then 1 else 3
    case Collecting(jobs) => if s.count == 0 then 3 else if jobs == [] then 2 else 5 + 3 * |jobs|
    case Handling(jobs, next) => if s.count == 0 then 2 else 4 + |jobs| + 2 * (|jobs| - next)
  }

  lemma EnqueueNears(s: Service, p: nat)
    requires Inv(s) && p < |s.mid| && s.mid[p] != []
    ensures Inv(Step(s, Enqueue(p))) && Distance(Step(s, Enqueue(p))) < Distance(s)
  {
    hide Total, Owned, Line;
    StepKeeps(s, Enqueue(p));
    TotalUpdate(s.mid, p, []);
    TotalUpdate(s.queues, p, s.queues[p] + s.mid[p]);
  }

  lemma TakeNears(s: Service, p: nat)
    requires Inv(s) && p < |s.queues| && s.queues[p] != [] && s.consumer == Collecting([]) && s.count > 0
    ensures Inv(Step(s, Take(p))) && Distance(Step(s, Take(p))) < Distance(s)
  {
    hide Total, Owned, Line;
    StepKeeps(s, Take(p));
    TotalUpdate(s.queues, p, s.queues[p][1..]);
  }

  /** A service that has not handled everything can do something other than count a new
      item that brings it nearer. */
  lemma Progress(s: Service) returns (a: Action)
    requires Inv(s) && !Drained(s)
    ensures !a.Count? && Inv(Step(s, a)) && Distance(Step(s, a)) < Distance(s)
  {
    if p :| 0 <= p < |s.mid| && s.mid[p] != [] {
      EnqueueNears(s, p);
      return Enqueue(p);
    }
    EmptyTotal(s.mid);
    if s.consumer == Collecting([]) && s.count > 0 {
      if forall p | 0 <= p < |s.queues| :: s.queues[p] == [] {
        EmptyTotal(s.queues);
      }
      var p :| 0 <= p < |s.queues| && s.queues[p] != [];
      TakeNears(s, p);
      return Take(p);
    }
    a := ConsumerProgress(s);
  }

  lemma ConsumerProgress(s: Service) returns (a: Action)
    requires Inv(s) && !Drained(s) && (s.consumer == Collecting([]) ==> s.count == 0)
    ensures !a.Count? && Inv(Step(s, a)) && Distance(Step(s, a)) < Distance(s)
  {
    hide Owned, Line, Total;
    a := match s.consumer
         case Idle => Start
         case Testing => Test
         case Collecting(_) => StopTaking
         case Handling(jobs, next) => if next < |jobs| then Handle else Subtract;
    StepKeeps(s, a);
  }

  lemma {:induction false} CanDrain(s: Service) returns (actions: seq<Action>)
    requires Inv(s)
    ensures forall a | a in actions :: !a.Count?
    ensures Inv(StepAll(s, actions)) && Drained(StepAll(s, actions))
    decreases Distance(s)
  {
    if Drained(s) {
      return [];
    }
    var a := Progress(s);
    var rest := CanDrain(Step(s, a));
    actions := [a] + rest;
    StepAllAppend(s, [a], rest);
    StepOneMore(s, [], a);
    assert [] + [a] == [a];
  }

  lemma DrainedHandled(s: Service, p: nat)
    requires Inv(s) && Drained(s) && p < |s.pushed|
    ensures By(s.handled, p) == s.pushed[p]
  {
    TotalZero(s.mid, p);
    TotalZero(s.queues, p);
  }

  // ---------- all services ----------

  function AsLocal(i: nat, actions: seq<Action>): seq<SystemAction> {
    if |actions| == 0 then [] else AsLocal(i, actions[..|actions| - 1]) + [Local(i, actions[|actions| - 1])]
  }

  lemma OneStepOn(n: nat, producers: nat, before: seq<SystemAction>, i: nat, a: Action)
    requires i < |Run(n, producers, before).services| && !a.Count?
    ensures var y := Run(n, producers, before);
            Run(n, producers, before + [Local(i, a)])
            == System(y.services[i := Step(y.services[i], a)], y.issued)
  {
    hide Step;
    assert (before + [Local(i, a)])[..|before|] == before;
  }

  /** The system can go on with any run of one service, and the others stay as they are. */
  lemma {:induction false} ServiceGoesOn(n: nat, producers: nat, before: seq<SystemAction>, i: nat,
                                         actions: seq<Action>)
    requires i < n && |Run(n, producers, before).services| == n && forall a | a in actions :: !a.Count?
    ensures var y, z := Run(n, producers, before), Run(n, producers, before + AsLocal(i, actions));
            && z.services == y.services[i := StepAll(y.services[i], actions)] && z.issued == y.issued
  {
    hide Step, Run;
    if |actions| == 0 {
      assert before + [] == before;
    } else {
      var front, last := actions[..|actions| - 1], actions[|actions| - 1];
      assert (forall a | a in front :: a in actions) && last in actions;
      ServiceGoesOn(n, producers, before, i, front);
      OneStepOn(n, producers, before + AsLocal(i, front), i, last);
      assert before + AsLocal(i, actions) == before + AsLocal(i, front) + [Local(i, last)];
    }
  }

  ghost predicate NoPush(actions: seq<SystemAction>) {
    forall a | a in actions :: a.Local?
  }

  lemma {:induction false} LocalNoPush(i: nat, actions: seq<Action>)
    ensures NoPush(AsLocal(i, actions))
  {
    if |actions| > 0 {
      LocalNoPush(i, actions[..|actions| - 1]);
    }
  }

  /** The first `k` services, one after the other. */
  lemma {:induction false} DrainFirst(n: nat, producers: nat, before: seq<SystemAction>, k: nat)
    returns (more: seq<SystemAction>)
    requires 0 < n && k <= n
    ensures NoPush(more) && SystemInv(Run(n, producers, before + more), n)
    ensures Run(n, producers, before + more).issued == Run(n, producers, before).issued
    ensures forall i | 0 <= i < k :: Drained(Run(n, producers, before + more).services[i])
  {
    hide Run, Inv, Drained, StepAll;
    if k == 0 {
      more := [];
      assert before + [] == before;
      RunKeeps(n, producers, before);
    } else {
      var first := DrainFirst(n, producers, before, k - 1);
      var y := Run(n, producers, before + first);
      var actions := CanDrain(y.services[k - 1]);
      ServiceGoesOn(n, producers, before + first, k - 1, actions);
      LocalNoPush(k - 1, actions);
      more := first + AsLocal(k - 1, actions);
      assert before + more == before + first + AsLocal(k - 1, actions);
      RunKeeps(n, producers, before + more);
    }
  }

  /** From whatever interleaving has led to, the threads can go on, without another push,
      to where every service has handled all that was ever routed to it, each producer's
      items in order, and is idle. */
  lemma AlwaysDrainable(n: nat, producers: nat, before: seq<SystemAction>) returns (more: seq<SystemAction>)
    requires n > 0
    ensures NoPush(more)
    ensures var y, z := Run(n, producers, before), Run(n, producers, before + more);
            && z.issued == y.issued && |y.issued| == producers && |z.services| == n
            && forall i, p | 0 <= i < n && 0 <= p < producers ::
                 z.services[i].consumer.Idle? && By(z.services[i].handled, p) == Routed(y.issued[p], i, n)
  {
    hide Run;
    RunKeeps(n, producers, before);
    more := DrainFirst(n, producers, before, n);
    var z := Run(n, producers, before + more);
    forall i, p | 0 <= i < n && 0 <= p < producers
      ensures z.services[i].consumer.Idle? && By(z.services[i].handled, p) == Routed(z.issued[p], i, n)
    {
      hide Inv;
      DrainedHandled(z.services[i], p);
    }
  }
}
