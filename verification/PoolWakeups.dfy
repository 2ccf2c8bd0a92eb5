// Signals among the workers of the pool: no wake-up is lost. While a worker sleeps there
// are at least as many workers about to look at the queue as there are entries in it that
// could be taken.

module PoolWakeups {
  import opened PoolProtocol

  /** The pool, and which of its waiting workers have been woken but have not got the mutex
      back yet. */
  datatype System = System(p: Pool, woken: set<nat>)

  predicate Sleeps(workers: seq<Worker>, woken: set<nat>, j: nat) {
    j < |workers| && workers[j] == Waiting && j !in woken
  }

  predicate SomeSleep(workers: seq<Worker>, woken: set<nat>) {
    exists j | 0 <= j < |workers| :: Sleeps(workers, woken, j)
  }

  predicate Asleep(s: System, j: nat) {
    Sleeps(s.p.workers, s.woken, j)
  }

  predicate SomeAsleep(s: System) {
    SomeSleep(s.p.workers, s.woken)
  }

  /** A worker that will look at the queue when it gets the mutex. One that still has a slot
      for slow work to give back is not counted. */
  predicate Looking(s: System, j: nat) {
    && j < |s.p.workers|
    && (s.p.workers[j] == Top || s.p.workers[j] == Returning(false) || (s.p.workers[j] == Waiting && j in s.woken))
  }

  function Lookers(s: System): set<nat> {
    set j | 0 <= j < |s.p.workers| && Looking(s, j)
  }

  /** How many entries of the queue can be taken: requests, the message that slow work is
      waiting when there is a slot for it, and the message that ends the workers. */
  function Demand(p: Pool): nat {
    |Requests(p.wq)|
    + (if Messages(p.wq) > 0 && p.slowRunning < Threshold(|p.workers|) then 1 else 0)
    + (if ExitMessage in p.wq then 1 else 0)
  }

  /** Whether a step signals the condition variable. */
  predicate Signals(p: Pool, step: Step)
    requires Enabled(p, step)
  {
    match step
    case Looks(i) =>
      !MustWait(p) && (match p.wq[0]
                       case ExitMessage => true
                       case Work(r) => false
                       case SlowMessage =>
                         p.slowRunning < Threshold(|p.workers|) && |p.slowPending| > 1 && p.idle > 0)
    case Posts(r, slow) => (slow ==> Messages(p.wq) == 0) && p.idle > 0
    case Exits => p.idle > 0
    case _ => false
  }

  /** A step that wakes some sleeping workers: a signal at least one if there is any, and
      without a signal a wait may end as well. */
  ghost predicate CanStep(s: System, step: Step, wakes: set<nat>) {
    && Enabled(s.p, step) && (forall j :: j in wakes ==> Asleep(s, j))
    && (Signals(s.p, step) && SomeAsleep(s) ==> wakes != {})
  }

  function Next(s: System, step: Step, wakes: set<nat>): System
    requires Enabled(s.p, step)
  {
    System(Apply(s.p, step), if step.Wakes? then s.woken + wakes - {step.i} else s.woken + wakes)
  }

  /** No wake-up is lost. */
  ghost predicate NoneLost(s: System) {
    && (forall j :: j in s.woken ==> j < |s.p.workers| && s.p.workers[j] == Waiting)
    && (SomeAsleep(s) ==> Demand(s.p) <= |Lookers(s)|)
  }

  // Counting.

  lemma {:induction false} SubsetSize<T>(a: set<T>, b: set<T>)
    requires a <= b
    ensures |a| <= |b|
  {
    if a != {} {
      var x :| x in a;
      SubsetSize(a - {x}, b - {x});
    }
  }

  /** One worker more or less. */
  lemma Fewer(a: set<nat>, b: set<nat>, i: nat)
    requires a - {i} <= b
    ensures |a| - 1 <= |b|
  {
    SubsetSize(a - {i}, b);
  }

  lemma AsMany(a: set<nat>, b: set<nat>, i: nat, j: nat)
    requires a - {i} <= b && j in b && j !in a
    ensures |a| <= |b|
  {
    assert |a - {i} + {j}| == |a - {i}| + 1;
    SubsetSize(a - {i} + {j}, b);
  }

  lemma More(a: set<nat>, b: set<nat>, j: nat)
    requires a <= b && j in b && j !in a
    ensures |a| + 1 <= |b|
  {
    SubsetSize(a + {j}, b);
  }

  lemma {:induction false} WaitingCounted(workers: seq<Worker>, j: nat)
    requires j < |workers| && workers[j] == Waiting
    ensures WaitCount(workers) > 0
  {
    if j > 0 {
      WaitingCounted(workers[1..], j - 1);
    }
  }

  // One step after the other.

  lemma LookWork(s: System, i: nat, wakes: set<nat>)
    requires Inv(s.p) && NoneLost(s) && CanStep(s, Looks(i), wakes) && !MustWait(s.p) && s.p.wq[0].Work?
    ensures NoneLost(Next(s, Looks(i), wakes))
  {
    hide Inv, Requests, Messages;
    var t := Next(s, Looks(i), wakes);
    FrontItem(s.p.wq);
    Rest(s.p.wq);
    StillAsleep(s, t, i);
    Fewer(Lookers(s), Lookers(t), i);
  }

  lemma Rest(wq: seq<Item>)
    requires wq != []
    ensures ExitMessage in wq <==> wq[0] == ExitMessage || ExitMessage in wq[1..]
  {
    assert wq == [wq[0]] + wq[1..];
  }

  /** Who sleeps after a step of worker i slept before, if i does not. */
  lemma StillAsleep(s: System, t: System, i: nat)
    requires i < |s.p.workers| && |t.p.workers| == |s.p.workers| && t.p.workers == s.p.workers[i := t.p.workers[i]]
    requires t.p.workers[i] != Waiting && s.woken - {i} <= t.woken
    ensures SomeAsleep(t) ==> SomeAsleep(s)
  {
    if SomeAsleep(t) {
      var j :| 0 <= j < |t.p.workers| && Sleeps(t.p.workers, t.woken, j);
      assert Sleeps(s.p.workers, s.woken, j);
    }
  }

  lemma LookExit(s: System, i: nat, wakes: set<nat>)
    requires Inv(s.p) && NoneLost(s) && CanStep(s, Looks(i), wakes) && !MustWait(s.p) && s.p.wq[0].ExitMessage?
    ensures NoneLost(Next(s, Looks(i), wakes))
  {
    hide Inv, Requests, Messages;
    var t := Next(s, Looks(i), wakes);
    StillAsleep(s, t, i);
    if SomeAsleep(t) {
      var j :| j in wakes;
      AsMany(Lookers(s), Lookers(t), i, j);
    }
  }

  lemma LookSlowMessage(s: System, i: nat, wakes: set<nat>)
    requires Inv(s.p) && NoneLost(s) && CanStep(s, Looks(i), wakes) && !MustWait(s.p) && s.p.wq[0].SlowMessage?
    ensures NoneLost(Next(s, Looks(i), wakes))
  {
    hide Inv, Requests, Messages;
    var t := Next(s, Looks(i), wakes);
    SlowDemand(s.p, i);
    StillAsleep(s, t, i);
    if t.p.workers[i] == Top {
      SubsetSize(Lookers(s), Lookers(t));
    } else if |s.p.slowPending| == 1 {
      Fewer(Lookers(s), Lookers(t), i);
    } else if SomeAsleep(t) {
      IdleCounts(s);
      var j :| j in wakes;
      AsMany(Lookers(s), Lookers(t), i, j);
    }
  }

  lemma SlowDemand(p: Pool, i: nat)
    requires Inv(p) && Enabled(p, Looks(i)) && !MustWait(p) && p.wq[0].SlowMessage?
    ensures Demand(Look(p, i)) <= Demand(p)
    ensures p.slowRunning < Threshold(|p.workers|) && |p.slowPending| == 1 ==> Demand(Look(p, i)) + 1 <= Demand(p)
  {
    hide Requests, Held, SlowCount, WaitCount, Messages;
    FrontItem(p.wq);
    Rest(p.wq);
    RequestsAppend(p.wq[1..], [SlowMessage]);
    OneItem(SlowMessage);
    assert p.wq[1..] + [] == p.wq[1..];
    assert ExitMessage in p.wq[1..] + [SlowMessage] <==> ExitMessage in p.wq[1..];
  }

  lemma IdleCounts(s: System)
    requires Inv(s.p) && SomeAsleep(s)
    ensures s.p.idle > 0
  {
    hide Requests, Held, SlowCount, WaitCount, Messages;
    var j :| 0 <= j < |s.p.workers| && Sleeps(s.p.workers, s.woken, j);
    WaitingCounted(s.p.workers, j);
  }

  /** A worker goes to sleep only when nothing can be taken. */
  lemma LookSleep(s: System, i: nat, wakes: set<nat>)
    requires Inv(s.p) && NoneLost(s) && CanStep(s, Looks(i), wakes) && MustWait(s.p)
    ensures NoneLost(Next(s, Looks(i), wakes))
  {
    hide Inv;
    assert Requests([]) == multiset{} && Messages([]) == 0;
    if s.p.wq != [] {
      OneItem(SlowMessage);
    }
    assert Demand(s.p) == 0;
  }

  lemma WorkerStep(s: System, step: Step, wakes: set<nat>)
    requires Inv(s.p) && NoneLost(s) && CanStep(s, step, wakes) && (step.Wakes? || step.Finishes? || step.Returns?)
    ensures NoneLost(Next(s, step, wakes))
  {
    hide Inv, Requests, Messages;
    var t := Next(s, step, wakes);
    StillAsleep(s, t, step.i);
    if step.Returns? && s.p.workers[step.i].slow {
      More(Lookers(s), Lookers(t), step.i);
    } else {
      SubsetSize(Lookers(s), Lookers(t));
    }
  }

  /** A step that touches no worker: who slept and is not woken sleeps on. */
  lemma SameWorkers(s: System, t: System, wakes: set<nat>)
    requires t.p.workers == s.p.workers && t.woken == s.woken + wakes && (forall j :: j in wakes ==> Asleep(s, j))
    ensures SomeAsleep(t) ==> SomeAsleep(s)
    ensures Lookers(t) == Lookers(s) + wakes && Lookers(s) !! wakes
  {
    if SomeAsleep(t) {
      var j :| 0 <= j < |t.p.workers| && Sleeps(t.p.workers, t.woken, j);
      assert Sleeps(s.p.workers, s.woken, j);
    }
    forall j
      ensures j in Lookers(t) <==> j in Lookers(s) + wakes
    {
      assert j in wakes ==> Asleep(s, j);
    }
    assert forall j :: j in Lookers(s) && j in wakes ==> Looking(s, j) && Asleep(s, j);
  }

  lemma PostStep(s: System, step: Step, wakes: set<nat>)
    requires Inv(s.p) && NoneLost(s) && CanStep(s, step, wakes) && (step.Posts? || step.Exits?)
    ensures NoneLost(Next(s, step, wakes))
  {
    hide Inv, Requests, Messages;
    var t := Next(s, step, wakes);
    SameWorkers(s, t, wakes);
    PostDemand(s.p, step);
    if SomeAsleep(t) {
      IdleCounts(s);
      if Signals(s.p, step) {
        var j :| j in wakes;
        More(Lookers(s), Lookers(t), j);
      } else {
        SubsetSize(Lookers(s), Lookers(t));
      }
    }
  }

  lemma PostDemand(p: Pool, step: Step)
    requires Enabled(p, step) && (step.Posts? || step.Exits?)
    ensures Demand(Apply(p, step)) <= Demand(p) + 1
    ensures p.idle > 0 && !Signals(p, step) ==> Demand(Apply(p, step)) <= Demand(p)
  {
    hide Requests, Messages;
    var x := if step.Exits? then ExitMessage else if step.slow then SlowMessage else Work(step.r);
    RequestsAppend(p.wq, [x]);
    OneItem(x);
    assert ExitMessage in p.wq + [x] <==> ExitMessage in p.wq || x == ExitMessage;
  }

  lemma CancelStep(s: System, step: Step, wakes: set<nat>)
    requires Inv(s.p) && NoneLost(s) && CanStep(s, step, wakes) && (step.Takes? || step.Delivers? || step.Collects?)
    ensures NoneLost(Next(s, step, wakes))
  {
    hide Inv, Demand, Apply, Lookers;
    var t := Next(s, step, wakes);
    CancelDemand(s.p, step);
    SameWorkers(s, t, wakes);
    SubsetSize(Lookers(s), Lookers(t));
  }

  lemma CancelDemand(p: Pool, step: Step)
    requires Enabled(p, step) && (step.Takes? || step.Delivers? || step.Collects?)
    ensures Demand(Apply(p, step)) <= Demand(p) && Apply(p, step).workers == p.workers
  {
    hide Requests, Messages, Without;
    if step.Takes? && Work(step.r) in p.wq {
      WithoutItem(p.wq, step.r);
      ExitStays(p.wq, Work(step.r));
    }
  }

  lemma {:induction false} ExitStays(wq: seq<Item>, x: Item)
    ensures ExitMessage in Without(wq, x) ==> ExitMessage in wq
  {
    if wq != [] && wq[0] != x {
      ExitStays(wq[1..], x);
    }
  }

  lemma StepNoneLost(s: System, step: Step, wakes: set<nat>)
    requires Inv(s.p) && NoneLost(s) && CanStep(s, step, wakes)
    ensures NoneLost(Next(s, step, wakes))
  {
    hide Inv, NoneLost, CanStep;
    match step
    case Looks(i) =>
      if MustWait(s.p) {
        LookSleep(s, i, wakes);
      } else if s.p.wq[0].Work? {
        LookWork(s, i, wakes);
      } else if s.p.wq[0].SlowMessage? {
        LookSlowMessage(s, i, wakes);
      } else {
        LookExit(s, i, wakes);
      }
    case Wakes(i) => WorkerStep(s, step, wakes);
    case Finishes(i) => WorkerStep(s, step, wakes);
    case Returns(i) => WorkerStep(s, step, wakes);
    case Posts(r, slow) => PostStep(s, step, wakes);
    case Exits => PostStep(s, step, wakes);
    case _ => CancelStep(s, step, wakes);
  }

  // Runs.

  ghost predicate IsSignalledRun(states: seq<System>, steps: seq<Step>, wakes: seq<set<nat>>) {
    && |states| == |steps| + 1 == |wakes| + 1
    && forall k :: 0 <= k < |steps| ==>
         CanStep(states[k], steps[k], wakes[k]) && states[k + 1] == Next(states[k], steps[k], wakes[k])
  }

  /** In every state of every run no wake-up has been lost. */
  lemma {:induction false} NoLostWakeUp(threads: nat, states: seq<System>, steps: seq<Step>, wakes: seq<set<nat>>,
                                        k: nat)
    requires threads > 0 && IsSignalledRun(states, steps, wakes) && k < |states|
    requires states[0] == System(Initial(threads), {})
    ensures Inv(states[k].p) && NoneLost(states[k])
  {
    hide Inv, Initial;
    if k == 0 {
      InitialInv(threads);
      NobodyAsleep(threads);
    } else {
      NoLostWakeUp(threads, states, steps, wakes, k - 1);
      StepInv(states[k - 1].p, steps[k - 1]);
      StepNoneLost(states[k - 1], steps[k - 1], wakes[k - 1]);
    }
  }

  lemma NobodyAsleep(threads: nat)
    ensures NoneLost(System(Initial(threads), {}))
  {
  }

  /** So whenever there is something to take and somebody sleeps, somebody else is about to
      look, without having to finish a request first. */
  lemma SomebodyLooks(s: System)
    requires Inv(s.p) && NoneLost(s) && SomeAsleep(s) && !MustWait(s.p)
    ensures exists j :: Looking(s, j)
  {
    hide Held, SlowCount, WaitCount, Places;
    SomethingToTake(s.p);
    assert Lookers(s) != {} by {
      assert |Lookers(s)| > 0;
    }
    var j :| j in Lookers(s);
    assert Looking(s, j);
  }

  lemma SomethingToTake(p: Pool)
    requires Messages(p.wq) <= 1 && !MustWait(p)
    ensures Demand(p) > 0
  {
    FrontItem(p.wq);
    if p.wq[0].Work? {
      assert p.wq[0].r in Requests(p.wq);
    } else if p.wq[0].SlowMessage? && p.slowRunning >= Threshold(|p.workers|) {
      OnlyOther(p.wq[1..]);
    }
  }

  lemma OnlyOther(rest: seq<Item>)
    requires rest != [] && Messages(rest) == 0
    ensures |Requests(rest)| > 0 || ExitMessage in rest
  {
    FrontItem(rest);
    if rest[0].Work? {
      assert rest[0].r in Requests(rest);
    }
  }
}
