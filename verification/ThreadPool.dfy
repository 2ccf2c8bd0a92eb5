// The worker pool as it runs: shared queues and counters that the critical sections
// change in place. Each method is one critical section, or the code between two.

module ThreadPools {
  import opened PoolProtocol
  import opened PoolWakeups

  class ThreadPool {
    var wq: seq<Item>
    var slowPending: seq<nat>
    var slowRunning: nat
    var idleThreads: nat
    var workers: seq<Worker>
    var woken: set<nat>       // waiting workers that have been woken
    var cancelling: seq<nat>
    var loopQueue: seq<nat>
    ghost var outstanding: set<nat>
    ghost var started: set<nat>
    var finished: set<nat>    // requests whose work pointer has been cleared
    var cancelled: set<nat>   // requests whose work pointer says cancelled

    ghost function State(): Pool
      reads this
    {
      Pool(wq, slowPending, slowRunning, idleThreads, workers, cancelling, loopQueue,
           outstanding, started, finished, cancelled)
    }

    ghost function Signalled(): System
      reads this
    {
      System(State(), woken)
    }

    ghost predicate Valid()
      reads this
    {
      Inv(State()) && NoneLost(Signalled())
    }

    constructor (threads: nat)
      requires threads > 0
      ensures Valid() && Signalled() == System(Initial(threads), {})
    {
      wq, slowPending, slowRunning, idleThreads, cancelling, loopQueue := [], [], 0, 0, [], [];
      workers, woken := seq(threads, i => Top), {};
      outstanding, started, finished, cancelled := {}, {}, {}, {};
      InitialInv(threads);
      NobodyAsleep(threads);
    }

    /** Wakes a sleeping worker, if there is one. */
    method CondSignal() returns (ghost wakes: set<nat>)
      modifies this`woken
      ensures woken == old(woken) + wakes && forall j :: j in wakes ==> Sleeps(workers, old(woken), j)
      ensures SomeSleep(workers, old(woken)) ==> wakes != {}
    {
      wakes := {};
      for j := 0 to |workers|
        invariant woken == old(woken) && wakes == {}
        invariant forall k :: 0 <= k < j ==> !Sleeps(workers, woken, k)
      {
        if workers[j] == Waiting && j !in woken {
          wakes := {j};
          woken := woken + {j};
          return;
        }
      }
    }

    /** Whoever is woken by a step, what is valid stays so. */
    lemma Kept(step: Step)
      requires Valid() && Enabled(State(), step)
      ensures Inv(Apply(State(), step))
      ensures forall wakes :: CanStep(Signalled(), step, wakes) ==> NoneLost(Next(Signalled(), step, wakes))
    {
      hide Inv, NoneLost;
      StepInv(State(), step);
      forall wakes | CanStep(Signalled(), step, wakes)
        ensures NoneLost(Next(Signalled(), step, wakes))
      {
        StepNoneLost(Signalled(), step, wakes);
      }
    }

    /** A worker holding the mutex looks at the queue: it waits, leaves, puts the message
        about slow work off, or takes a request to run. */
    method Worker(i: nat) returns (ghost wakes: set<nat>)
      requires Valid() && i < |workers| && workers[i] == Top
      modifies this
      ensures CanStep(old(Signalled()), Looks(i), wakes)
      ensures Signalled() == Next(old(Signalled()), Looks(i), wakes)
      ensures Valid()
    {
      hide Inv, NoneLost, SomeSleep, Post;
      assert |wq| == 1 ==> wq == [wq[0]];
      if |wq| == 0 || (wq[0] == SlowMessage && |wq| == 1 && slowRunning >= Threshold(|workers|)) {
        Kept(Looks(i));
        wakes := {};
        assert woken + wakes == woken;
        idleThreads := idleThreads + 1;
        workers := workers[i := Waiting];
      } else if wq[0] == ExitMessage {
        Kept(Looks(i));
        wakes := CondSignal();
        workers := workers[i := Exited];
      } else if wq[0] == SlowMessage {
        wakes := TakeSlow(i);
      } else {
        Kept(Looks(i));
        wakes := {};
        assert woken + wakes == woken;
        var q := wq[0];
        wq := wq[1..];
        workers, started := workers[i := Running(q.r, false)], started + {q.r};
      }
    }

    /** The message about slow work is first: it is put off, dropped, or the next slow
        request is taken. */
    method TakeSlow(i: nat) returns (ghost wakes: set<nat>)
      requires Valid() && i < |workers| && workers[i] == Top && !MustWait(State()) && wq[0] == SlowMessage
      modifies this
      ensures CanStep(old(Signalled()), Looks(i), wakes)
      ensures Signalled() == Next(old(Signalled()), Looks(i), wakes)
      ensures Valid()
    {
      hide Inv, NoneLost, SomeSleep, Post;
      Kept(Looks(i));
      wakes := {};
      assert woken + wakes == woken;
      if slowRunning >= Threshold(|workers|) {
        var q := wq[0];
        wq := wq[1..] + [q];
      } else if |slowPending| == 0 {
        wq := wq[1..];
      } else {
        wakes := StartSlow(i);
      }
    }

    /** The next slow request is taken, and the message goes back if there are more. */
    method StartSlow(i: nat) returns (ghost wakes: set<nat>)
      requires Valid() && i < |workers| && workers[i] == Top && wq != [] && wq[0] == SlowMessage
      requires slowRunning < Threshold(|workers|) && slowPending != []
      modifies this
      ensures CanStep(old(Signalled()), Looks(i), wakes)
      ensures Signalled() == Next(old(Signalled()), Looks(i), wakes)
      ensures Valid()
    {
      hide Inv, NoneLost, SomeSleep, Apply, Signals, Threshold;
      Kept(Looks(i));
      SlowLook(State(), i);
      wakes := {};
      assert woken + wakes == woken && wq[1..] + [] == wq[1..];
      var r := slowPending[0];
      wq, slowRunning, slowPending := wq[1..], slowRunning + 1, slowPending[1..];
      if |slowPending| > 0 {
        wq := wq + [SlowMessage];
        if idleThreads > 0 {
          wakes := CondSignal();
        }
      }
      workers, started := workers[i := Running(r, true)], started + {r};
    }

    /** The wait of a worker ends. */
    method WakeUp(i: nat) returns (ghost wakes: set<nat>)
      requires Valid() && i < |workers| && workers[i] == Waiting
      modifies this
      ensures old(idleThreads) > 0
      ensures CanStep(old(Signalled()), Wakes(i), wakes)
      ensures Signalled() == Next(old(Signalled()), Wakes(i), wakes)
      ensures Valid()
    {
      hide Inv, NoneLost, SomeSleep;
      WakeInv(State(), i);
      Kept(Wakes(i));
      wakes := {};
      assert woken + wakes == woken;
      idleThreads, woken := idleThreads - 1, woken - {i};
      workers := workers[i := Top];
    }

    /** A worker's request is done: it goes to the loop. */
    method FinishWork(i: nat) returns (ghost wakes: set<nat>)
      requires Valid() && i < |workers| && workers[i].Running?
      modifies this
      ensures CanStep(old(Signalled()), Finishes(i), wakes)
      ensures Signalled() == Next(old(Signalled()), Finishes(i), wakes)
      ensures Valid()
    {
      hide Inv, NoneLost, SomeSleep;
      Kept(Finishes(i));
      wakes := {};
      assert woken + wakes == woken;
      var w := workers[i];
      finished := finished + {w.r};
      loopQueue := loopQueue + [w.r];
      workers := workers[i := Returning(w.slow)];
    }

    method ReturnToQueue(i: nat) returns (ghost wakes: set<nat>)
      requires Valid() && i < |workers| && workers[i].Returning?
      modifies this
      ensures old(workers[i]).slow ==> old(slowRunning) > 0
      ensures CanStep(old(Signalled()), Returns(i), wakes)
      ensures Signalled() == Next(old(Signalled()), Returns(i), wakes)
      ensures Valid()
    {
      hide Inv, NoneLost, SomeSleep;
      ReturnInv(State(), i);
      Kept(Returns(i));
      wakes := {};
      assert woken + wakes == woken;
      if workers[i].slow {
        slowRunning := slowRunning - 1;
      }
      workers := workers[i := Top];
    }

    /** Submits a request. */
    method Submit(r: nat, slow: bool) returns (ghost wakes: set<nat>)
      requires Valid() && r !in outstanding
      modifies this
      ensures CanStep(old(Signalled()), Posts(r, slow), wakes)
      ensures Signalled() == Next(old(Signalled()), Posts(r, slow), wakes)
      ensures Valid()
    {
      hide Inv, NoneLost, SomeSleep;
      Kept(Posts(r, slow));
      wakes := {};
      assert woken + wakes == woken;
      MessageLinked(wq);
      outstanding := outstanding + {r};
      var q := Work(r);
      if slow {
        slowPending := slowPending + [r];
        if SlowMessage in wq {
          return;
        }
        q := SlowMessage;
      }
      wq := wq + [q];
      if idleThreads > 0 {
        wakes := CondSignal();
      }
    }

    /** Tells the workers to end: one message, which each of them leaves for the next. */
    method PostExitMessage() returns (ghost wakes: set<nat>)
      requires Valid()
      modifies this
      ensures CanStep(old(Signalled()), Exits, wakes)
      ensures Signalled() == Next(old(Signalled()), Exits, wakes)
      ensures Valid()
    {
      hide Inv, NoneLost, SomeSleep;
      Kept(Exits);
      wakes := {};
      assert woken + wakes == woken;
      wq := wq + [ExitMessage];
      if idleThreads > 0 {
        wakes := CondSignal();
      }
    }

    /** The first part of a cancellation, under both mutexes. */
    method CancelUnlink(r: nat) returns (taken: bool, ghost wakes: set<nat>)
      requires Valid() && r !in cancelling
      modifies this
      ensures taken == Cancellable(old(State()), r)
      ensures CanStep(old(Signalled()), Takes(r), wakes)
      ensures Signalled() == Next(old(Signalled()), Takes(r), wakes)
      ensures Valid()
      ensures taken <==> r in old(outstanding) && r !in old(started)
    {
      hide Inv, NoneLost, SomeSleep;
      CancellableMeans(State(), r);
      CancelTakeInv(State(), r);
      Kept(Takes(r));
      wakes := {};
      assert woken + wakes == woken;
      taken := (Work(r) in wq || r in slowPending || r in loopQueue) && r !in finished;
      if taken {
        cancelling := cancelling + [r];
        if Work(r) in wq {
          wq := Without(wq, Work(r));
        } else if r in slowPending {
          slowPending := Without(slowPending, r);
        } else {
          loopQueue := Without(loopQueue, r);
        }
      }
    }

    /** The second part: the request goes to the loop as cancelled. */
    method CancelPost(r: nat) returns (ghost wakes: set<nat>)
      requires Valid() && r in cancelling
      modifies this
      ensures CanStep(old(Signalled()), Delivers(r), wakes)
      ensures Signalled() == Next(old(Signalled()), Delivers(r), wakes)
      ensures Valid()
    {
      hide Inv, NoneLost, SomeSleep;
      Kept(Delivers(r));
      wakes := {};
      assert woken + wakes == woken;
      cancelled := cancelled + {r};
      cancelling := Without(cancelling, r);
      loopQueue := loopQueue + [r];
    }

    /** The loop collects the queue; each request is reported as cancelled or as done. */
    method WorkDone() returns (reports: seq<(nat, bool)>, ghost wakes: set<nat>)
      requires Valid()
      modifies this
      ensures CanStep(old(Signalled()), Collects, wakes)
      ensures Signalled() == Next(old(Signalled()), Collects, wakes)
      ensures Valid()
      ensures |reports| == |old(loopQueue)|
      ensures forall k :: 0 <= k < |reports| ==>
                reports[k].0 == old(loopQueue)[k] && (reports[k].1 <==> reports[k].0 in old(cancelled))
                && (reports[k].1 <==> reports[k].0 !in old(started))
    {
      hide Inv, NoneLost, SomeSleep;
      CollectInv(State());
      Kept(Collects);
      wakes := {};
      assert woken + wakes == woken;
      reports := [];
      for k := 0 to |loopQueue|
        invariant |reports| == k
        invariant forall j :: 0 <= j < k ==> reports[j] == (loopQueue[j], loopQueue[j] in cancelled)
      {
        reports := reports + [(loopQueue[k], loopQueue[k] in cancelled)];
      }
      var all := set r | r in loopQueue;
      finished, cancelled := finished - all, cancelled - all;
      outstanding, started := outstanding - all, started - all;
      loopQueue := [];
    }
  }

  /** The message is in the queue exactly when it counts. */
  lemma {:induction false} MessageLinked(wq: seq<Item>)
    ensures SlowMessage in wq <==> Messages(wq) > 0
  {
    if wq != [] {
      MessageLinked(wq[1..]);
    }
  }

  /** A look that takes slow work. */
  lemma SlowLook(p: Pool, i: nat)
    requires i < |p.workers| && p.workers[i] == Top && p.wq != [] && p.wq[0] == SlowMessage
    requires p.slowRunning < Threshold(|p.workers|) && p.slowPending != []
    ensures Enabled(p, Looks(i))
    ensures var r, rest := p.slowPending[0], p.slowPending[1..];
            Apply(p, Looks(i)) == p.(wq := p.wq[1..] + (if rest != [] then [SlowMessage] else []), slowPending := rest,
              slowRunning := p.slowRunning + 1, workers := p.workers[i := Running(r, true)], started := p.started + {r})
    ensures Signals(p, Looks(i)) <==> |p.slowPending| > 1 && p.idle > 0
  {
    hide Threshold;
    assert p.wq != [SlowMessage] || p.slowRunning < Threshold(|p.workers|);
  }
}
