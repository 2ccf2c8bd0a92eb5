// The worker pool's protocol: what each critical section under the pool's mutex does to
// the shared queues and counters, and what every interleaving of them keeps.

module PoolProtocol {
  /** An entry of the shared queue: a request, the message that slow work is waiting, or
      the message that ends the workers. */
  datatype Item = Work(r: nat) | SlowMessage | ExitMessage

  /** Where a worker is: about to look at the queue, waiting for a signal, running a
      request without the mutex, on its way back, or gone. */
  datatype Worker = Top | Waiting | Running(r: nat, slow: bool) | Returning(slow: bool) | Exited

  datatype Pool = Pool(
    wq: seq<Item>, slowPending: seq<nat>, slowRunning: nat, idle: nat,
    workers: seq<Worker>, cancelling: seq<nat>, loopQueue: seq<nat>,
    outstanding: set<nat>, started: set<nat>, finished: set<nat>, cancelled: set<nat>)

  function Threshold(threads: nat): nat {
    (threads + 1) / 2
  }

  // What is where.

  function RequestOf(x: Item): multiset<nat> {
    if x.Work? then multiset{x.r} else multiset{}
  }

  function Requests(wq: seq<Item>): multiset<nat> {
    if wq == [] then multiset{} else RequestOf(wq[0]) + Requests(wq[1..])
  }

  function HeldBy(w: Worker): multiset<nat> {
    if w.Running? then multiset{w.r} else multiset{}
  }

  function Held(workers: seq<Worker>): multiset<nat> {
    if workers == [] then multiset{} else HeldBy(workers[0]) + Held(workers[1..])
  }

  function IsSlow(w: Worker): nat {
    if (w.Running? || w.Returning?) && w.slow then 1 else 0
  }

  /** How many workers hold a slot for slow work. */
  function SlowCount(workers: seq<Worker>): nat {
    if workers == [] then 0 else IsSlow(workers[0]) + SlowCount(workers[1..])
  }

  function IsWaiting(w: Worker): nat {
    if w.Waiting? then 1 else 0
  }

  function WaitCount(workers: seq<Worker>): nat {
    if workers == [] then 0 else IsWaiting(workers[0]) + WaitCount(workers[1..])
  }

  function Messages(wq: seq<Item>): nat {
    if wq == [] then 0 else (if wq[0].SlowMessage? then 1 else 0) + Messages(wq[1..])
  }

  /** All places a submitted request can be in. */
  function Places(p: Pool): multiset<nat> {
    Requests(p.wq) + multiset(p.slowPending) + Held(p.workers) + multiset(p.cancelling) + multiset(p.loopQueue)
  }

  /** What holds whenever the mutex is free. */
  ghost predicate Inv(p: Pool) {
    && Messages(p.wq) <= 1
    && (p.slowPending != [] ==> Messages(p.wq) == 1)
    && p.slowRunning == SlowCount(p.workers) <= Threshold(|p.workers|)
    && p.idle == WaitCount(p.workers)
    && Places(p) == multiset(p.outstanding)
    && (forall r :: r in p.loopQueue ==> (r in p.finished <==> r !in p.cancelled))
    && (forall r :: r in p.finished ==> r in p.loopQueue)
    && (forall r :: r in p.started <==> r in Held(p.workers) || r in p.finished)
    && (forall r :: r in p.cancelled ==> r in p.loopQueue || r in p.cancelling)
  }

  function Initial(threads: nat): Pool {
    Pool([], [], 0, 0, seq(threads, i => Top), [], [], {}, {}, {}, {})
  }

  // The critical sections.

  /** Nothing to do, or only slow work with all slots for it taken. */
  predicate MustWait(p: Pool) {
    p.wq == [] || (p.wq == [SlowMessage] && p.slowRunning >= Threshold(|p.workers|))
  }

  /** A worker looks at the queue, and waits or takes the first entry. */
  function Look(p: Pool, i: nat): Pool
    requires i < |p.workers| && p.workers[i] == Top
  {
    if MustWait(p) then p.(idle := p.idle + 1, workers := p.workers[i := Waiting])
    else match p.wq[0]
      case ExitMessage => p.(workers := p.workers[i := Exited])
      case Work(r) => p.(wq := p.wq[1..], workers := p.workers[i := Running(r, false)], started := p.started + {r})
      case SlowMessage =>
        if p.slowRunning >= Threshold(|p.workers|) then p.(wq := p.wq[1..] + [SlowMessage])
        else if p.slowPending == [] then p.(wq := p.wq[1..])
        else
          var r, rest := p.slowPending[0], p.slowPending[1..];
          p.(wq := p.wq[1..] + (if rest != [] then [SlowMessage] else []), slowPending := rest,
             slowRunning := p.slowRunning + 1, workers := p.workers[i := Running(r, true)], started := p.started + {r})
  }

  /** A waiting worker wakes up, signalled or not. */
  function Wake(p: Pool, i: nat): Pool
    requires i < |p.workers| && p.workers[i] == Waiting && p.idle > 0
  {
    p.(idle := p.idle - 1, workers := p.workers[i := Top])
  }

  /** A worker hands its finished request to the loop. */
  function Finish(p: Pool, i: nat): Pool
    requires i < |p.workers| && p.workers[i].Running?
  {
    var w := p.workers[i];
    p.(workers := p.workers[i := Returning(w.slow)], loopQueue := p.loopQueue + [w.r], finished := p.finished + {w.r})
  }

  /** A worker takes the mutex again and gives back its slot for slow work. */
  function Return(p: Pool, i: nat): Pool
    requires i < |p.workers| && p.workers[i].Returning? && (p.workers[i].slow ==> p.slowRunning > 0)
  {
    p.(workers := p.workers[i := Top], slowRunning := if p.workers[i].slow then p.slowRunning - 1 else p.slowRunning)
  }

  /** A request is submitted; slow ones wait behind a single message in the queue. */
  function Post(p: Pool, r: nat, slow: bool): Pool {
    var q := p.(outstanding := p.outstanding + {r});
    if !slow then q.(wq := q.wq + [Work(r)])
    else if Messages(p.wq) > 0 then q.(slowPending := q.slowPending + [r])
    else q.(slowPending := q.slowPending + [r], wq := q.wq + [SlowMessage])
  }

  function PostExit(p: Pool): Pool {
    p.(wq := p.wq + [ExitMessage])
  }

  function Without<T(==)>(s: seq<T>, x: T): seq<T> {
    if s == [] then [] else if s[0] == x then s[1..] else [s[0]] + Without(s[1..], x)
  }

  /** Whether a request can be taken back: it is linked into a queue and not finished. */
  predicate Cancellable(p: Pool, r: nat) {
    (Work(r) in p.wq || r in p.slowPending || r in p.loopQueue) && r !in p.finished
  }

  /** The first part of a cancellation unlinks the request from the queue it is in. */
  function CancelTake(p: Pool, r: nat): Pool {
    if !Cancellable(p, r) then p
    else
      var q := p.(cancelling := p.cancelling + [r]);
      if Work(r) in p.wq then q.(wq := Without(p.wq, Work(r)))
      else if r in p.slowPending then q.(slowPending := Without(p.slowPending, r))
      else q.(loopQueue := Without(p.loopQueue, r))
  }

  /** The second part hands it to the loop as cancelled. */
  function CancelDeliver(p: Pool, r: nat): Pool {
    p.(cancelling := Without(p.cancelling, r), loopQueue := p.loopQueue + [r], cancelled := p.cancelled + {r})
  }

  /** The loop collects what is finished or cancelled. */
  function Collect(p: Pool): Pool {
    var all := set r | r in p.loopQueue;
    p.(loopQueue := [], outstanding := p.outstanding - all, started := p.started - all,
       finished := p.finished - all, cancelled := p.cancelled - all)
  }

  // One change at a time.

  lemma {:induction false} RequestsAppend(a: seq<Item>, b: seq<Item>)
    ensures Requests(a + b) == Requests(a) + Requests(b) && Messages(a + b) == Messages(a) + Messages(b)
  {
    if a == [] {
      assert a + b == b;
    } else {
      assert (a + b)[1..] == a[1..] + b;
      RequestsAppend(a[1..], b);
    }
  }

  lemma OneItem(x: Item)
    ensures Requests([x]) == RequestOf(x) && Messages([x]) == if x.SlowMessage? then 1 else 0
  {
    assert [x][1..] == [];
  }

  lemma WorkersUpdate(s: seq<Worker>, i: nat, w: Worker)
    requires i < |s|
    ensures Held(s[i := w]) + HeldBy(s[i]) == Held(s) + HeldBy(w)
    ensures SlowCount(s[i := w]) + IsSlow(s[i]) == SlowCount(s) + IsSlow(w)
    ensures WaitCount(s[i := w]) + IsWaiting(s[i]) == WaitCount(s) + IsWaiting(w)
  {
    hide *;
    HeldUpdate(s, i, w);
    CountUpdate(s, i, w);
  }

  lemma {:induction false} CountUpdate(s: seq<Worker>, i: nat, w: Worker)
    requires i < |s|
    ensures SlowCount(s[i := w]) + IsSlow(s[i]) == SlowCount(s) + IsSlow(w)
    ensures WaitCount(s[i := w]) + IsWaiting(s[i]) == WaitCount(s) + IsWaiting(w)
  {
    hide Held, HeldBy;
    if i == 0 {
      assert s[i := w][1..] == s[1..];
    } else {
      assert s[i := w][1..] == s[1..][i - 1 := w];
      CountUpdate(s[1..], i - 1, w);
    }
  }

  lemma {:induction false} HeldUpdate(s: seq<Worker>, i: nat, w: Worker)
    requires i < |s|
    ensures Held(s[i := w]) + HeldBy(s[i]) == Held(s) + HeldBy(w)
  {
    hide HeldBy;
    var t := s[i := w];
    if i == 0 {
      assert t[1..] == s[1..];
      Rearrange(HeldBy(w), Held(s[1..]), HeldBy(s[0]));
    } else {
      assert t[1..] == s[1..][i - 1 := w];
      HeldUpdate(s[1..], i - 1, w);
      Under(HeldBy(s[0]), Held(t[1..]), HeldBy(s[i]), Held(s[1..]), HeldBy(w));
    }
  }

  lemma Rearrange(a: multiset<nat>, b: multiset<nat>, c: multiset<nat>)
    ensures a + b + c == c + b + a
  {
  }

  lemma Under(x: multiset<nat>, a: multiset<nat>, b: multiset<nat>, c: multiset<nat>, d: multiset<nat>)
    requires a + b == c + d
    ensures (x + a) + b == (x + c) + d
  {
    assert (x + a) + b == x + (a + b);
    assert (x + c) + d == x + (c + d);
  }

  lemma {:induction false} WithoutItem(s: seq<Item>, r: nat)
    requires Work(r) in s
    ensures Requests(Without(s, Work(r))) + multiset{r} == Requests(s) && Messages(Without(s, Work(r))) == Messages(s)
  {
    if s[0] != Work(r) {
      WithoutItem(s[1..], r);
      WithoutItemStep(s, r, Without(s[1..], Work(r)));
    }
  }

  lemma WithoutItemStep(s: seq<Item>, r: nat, rest: seq<Item>)
    requires s != [] && Requests(rest) + multiset{r} == Requests(s[1..]) && Messages(rest) == Messages(s[1..])
    ensures Requests([s[0]] + rest) + multiset{r} == Requests(s) && Messages([s[0]] + rest) == Messages(s)
  {
    assert ([s[0]] + rest)[1..] == rest;
    assert RequestOf(s[0]) + Requests(rest) + multiset{r} == RequestOf(s[0]) + (Requests(rest) + multiset{r});
  }

  lemma {:induction false} WithoutElement(s: seq<nat>, r: nat)
    requires r in s
    ensures multiset(Without(s, r)) + multiset{r} == multiset(s)
  {
    assert s == [s[0]] + s[1..];
    if s[0] != r {
      WithoutElement(s[1..], r);
    }
  }

  lemma {:induction false} InQueue(s: seq<Item>, r: nat)
    ensures Work(r) in s <==> r in Requests(s)
  {
    if s != [] {
      InQueue(s[1..], r);
    }
  }

  lemma {:induction false} HeldBySome(s: seq<Worker>, i: nat)
    requires i < |s| && s[i].Running?
    ensures s[i].r in Held(s)
  {
    if i > 0 {
      HeldBySome(s[1..], i - 1);
    }
  }

  /** A request that is in one place is in no other. */
  lemma OnePlace(p: Pool, r: nat)
    requires Places(p) == multiset(p.outstanding)
    ensures Requests(p.wq)[r] + multiset(p.slowPending)[r] + Held(p.workers)[r]
          + multiset(p.cancelling)[r] + multiset(p.loopQueue)[r] == if r in p.outstanding then 1 else 0
  {
    hide Requests, Held;
    assert Places(p)[r] == multiset(p.outstanding)[r];
  }

  // Each critical section keeps the invariant.

  lemma {:induction false} InitialInv(threads: nat)
    requires threads > 0
    ensures Inv(Initial(threads))
  {
    AllTop(seq(threads, i => Top));
  }

  lemma {:induction false} AllTop(s: seq<Worker>)
    requires forall i :: 0 <= i < |s| ==> s[i] == Top
    ensures Held(s) == multiset{} && SlowCount(s) == 0 && WaitCount(s) == 0
  {
    if s != [] {
      AllTop(s[1..]);
    }
  }

  /** A request moves from the front of the queue to a worker. */
  lemma MoveToWorker(x: multiset<nat>, a: multiset<nat>, b: multiset<nat>, c: multiset<nat>, d: multiset<nat>,
                     e: multiset<nat>)
    ensures (x + a) + b + c + d + e == a + b + (c + x) + d + e
    ensures a + (x + b) + c + d + e == a + b + (c + x) + d + e
    ensures a + b + (c + x) + d + e == a + b + c + d + (e + x)
    ensures a + b + c + (d + x) + e == a + b + c + d + (e + x)
  {
  }

  lemma LookWork(p: Pool, i: nat, r: nat)
    requires Inv(p) && i < |p.workers| && p.workers[i] == Top && !MustWait(p) && p.wq[0] == Work(r)
    ensures Inv(Look(p, i)) && r !in p.started
  {
    hide Requests, Held, HeldBy, SlowCount, WaitCount, Messages;
    var t, q := p.wq[1..], Look(p, i);
    FrontItem(p.wq);
    WorkersUpdate(p.workers, i, Running(r, false));
    HeldByCases();
    assert multiset{} + Held(q.workers) == Held(q.workers) && Held(q.workers) + multiset{} == Held(q.workers);
    MoveToWorker(multiset{r}, Requests(t), multiset(p.slowPending), Held(p.workers), multiset(p.cancelling),
                 multiset(p.loopQueue));
    OnePlace(p, r);
    NotTwice(p, r);
  }

  lemma HeldByCases()
    ensures HeldBy(Top) == multiset{} && HeldBy(Waiting) == multiset{} && HeldBy(Exited) == multiset{}
    ensures forall r: nat, slow: bool :: HeldBy(Running(r, slow)) == multiset{r}
    ensures forall slow: bool :: HeldBy(Returning(slow)) == multiset{}
  {
  }

  lemma FrontItem(s: seq<Item>)
    requires s != []
    ensures Requests(s) == RequestOf(s[0]) + Requests(s[1..])
    ensures Messages(s) == (if s[0].SlowMessage? then 1 else 0) + Messages(s[1..])
  {
  }

  /** A request in a queue has not been started. */
  lemma NotTwice(p: Pool, r: nat)
    requires Inv(p) && (r in Requests(p.wq) || r in p.slowPending || r in p.cancelling)
    ensures r !in p.started && r in p.outstanding
  {
    hide Requests, Held;
    OnePlace(p, r);
  }

  lemma LookSlow(p: Pool, i: nat)
    requires Inv(p) && i < |p.workers| && p.workers[i] == Top && !MustWait(p) && p.wq[0] == SlowMessage
    requires p.slowRunning < Threshold(|p.workers|) && p.slowPending != []
    ensures Inv(Look(p, i)) && p.slowPending[0] !in p.started
  {
    hide Requests, Held, HeldBy, SlowCount, WaitCount, Messages, Places;
    var t, r, rest, q := p.wq[1..], p.slowPending[0], p.slowPending[1..], Look(p, i);
    FrontItem(p.wq);
    RequestsAppend(t, [SlowMessage]);
    OneItem(SlowMessage);
    assert t + [] == t;
    WorkersUpdate(p.workers, i, Running(r, true));
    HeldByCases();
    assert Held(q.workers) + multiset{} == Held(q.workers);
    LookSlowPlaces(p, i, q);
    NotTwice(p, r);
  }

  lemma LookSlowPlaces(p: Pool, i: nat, q: Pool)
    requires i < |p.workers| && p.wq != [] && p.slowPending != []
    requires Held(q.workers) == Held(p.workers) + multiset{p.slowPending[0]}
    requires Requests(q.wq) == Requests(p.wq[1..]) || Requests(q.wq) == Requests(p.wq[1..]) + multiset{}
    requires Requests(p.wq) == multiset{} + Requests(p.wq[1..])
    requires q.slowPending == p.slowPending[1..] && q.cancelling == p.cancelling && q.loopQueue == p.loopQueue
    ensures Places(q) == Places(p)
  {
    hide Requests, Held;
    var t, r, rest := p.wq[1..], p.slowPending[0], p.slowPending[1..];
    assert p.slowPending == [r] + rest;
    assert multiset{} + Requests(t) == Requests(t) && Requests(t) + multiset{} == Requests(t);
    MoveToWorker(multiset{r}, Requests(t), multiset(rest), Held(p.workers), multiset(p.cancelling),
                 multiset(p.loopQueue));
  }

  /** Waiting, leaving, and passing on a message that is not for now. */
  lemma LookOther(p: Pool, i: nat)
    requires Inv(p) && i < |p.workers| && p.workers[i] == Top
    requires MustWait(p) || p.wq[0] == ExitMessage
             || (p.wq[0] == SlowMessage && (p.slowRunning >= Threshold(|p.workers|) || p.slowPending == []))
    ensures Inv(Look(p, i)) && Look(p, i).started == p.started
  {
    hide Requests, Held, HeldBy, SlowCount, WaitCount, Messages;
    var q := Look(p, i);
    HeldByCases();
    if MustWait(p) {
      WorkersUpdate(p.workers, i, Waiting);
      assert Held(q.workers) + multiset{} == Held(q.workers) && Held(p.workers) + multiset{} == Held(p.workers);
    } else {
      FrontItem(p.wq);
      var t := p.wq[1..];
      if p.wq[0] == ExitMessage {
        WorkersUpdate(p.workers, i, Exited);
        assert Held(q.workers) + multiset{} == Held(q.workers) && Held(p.workers) + multiset{} == Held(p.workers);
      } else {
        RequestsAppend(t, [SlowMessage]);
        OneItem(SlowMessage);
        assert multiset{} + Requests(t) == Requests(t) && Requests(t) + multiset{} == Requests(t);
      }
    }
  }

  /** A worker that looks at the queue starts only what was not started before. */
  lemma LookInv(p: Pool, i: nat)
    requires Inv(p) && i < |p.workers| && p.workers[i] == Top
    ensures Inv(Look(p, i))
    ensures Look(p, i).started == p.started || exists r :: r !in p.started && Look(p, i).started == p.started + {r}
  {
    hide Inv, Messages, Requests;
    if !MustWait(p) && p.wq[0].Work? {
      LookWork(p, i, p.wq[0].r);
    } else if !MustWait(p) && p.wq[0] == SlowMessage && p.slowRunning < Threshold(|p.workers|) && p.slowPending != [] {
      LookSlow(p, i);
    } else {
      LookOther(p, i);
    }
  }

  lemma WakeInv(p: Pool, i: nat)
    requires Inv(p) && i < |p.workers| && p.workers[i] == Waiting
    ensures p.idle > 0 && Inv(Wake(p, i))
  {
    hide Requests, Held, HeldBy, Messages;
    WorkersUpdate(p.workers, i, Top);
    HeldByCases();
    var ws := p.workers[i := Top];
    assert Held(ws) + multiset{} == Held(ws) && Held(p.workers) + multiset{} == Held(p.workers);
  }

  lemma FinishInv(p: Pool, i: nat)
    requires Inv(p) && i < |p.workers| && p.workers[i].Running?
    ensures Inv(Finish(p, i))
  {
    hide Requests, Held, HeldBy, SlowCount, WaitCount, Messages;
    var w, q := p.workers[i], Finish(p, i);
    WorkersUpdate(p.workers, i, Returning(w.slow));
    HeldByCases();
    assert Held(p.workers) + multiset{} == Held(p.workers);
    MoveToWorker(multiset{w.r}, Requests(p.wq), multiset(p.slowPending), Held(q.workers), multiset(p.cancelling),
                 multiset(p.loopQueue));
    HeldBySome(p.workers, i);
    OnePlace(p, w.r);
  }

  lemma ReturnInv(p: Pool, i: nat)
    requires Inv(p) && i < |p.workers| && p.workers[i].Returning?
    ensures (p.workers[i].slow ==> p.slowRunning > 0) && Inv(Return(p, i))
  {
    hide Requests, Held, HeldBy, Messages;
    WorkersUpdate(p.workers, i, Top);
    HeldByCases();
    var ws := p.workers[i := Top];
    assert Held(ws) + multiset{} == Held(ws) && Held(p.workers) + multiset{} == Held(p.workers);
  }

  lemma PostInv(p: Pool, r: nat, slow: bool)
    requires Inv(p) && r !in p.outstanding
    ensures Inv(Post(p, r, slow))
  {
    hide Requests, Held, HeldBy, SlowCount, WaitCount, Messages, Threshold, Places;
    OnePlace(p, r);
    PostPlaces(p, r, slow);
    assert multiset(p.outstanding + {r}) == multiset(p.outstanding) + multiset{r};
  }

  /** The request has a place, and there is a message when slow work is pending. */
  lemma PostPlaces(p: Pool, r: nat, slow: bool)
    ensures Places(Post(p, r, slow)) == Places(p) + multiset{r}
    ensures Messages(Post(p, r, slow).wq) == if slow && Messages(p.wq) == 0 then 1 else Messages(p.wq)
  {
    hide Requests, Held, Messages;
    RequestsAppend(p.wq, [Work(r)]);
    RequestsAppend(p.wq, [SlowMessage]);
    OneItem(Work(r));
    OneItem(SlowMessage);
    var a, b, c, d, e
      := Requests(p.wq), multiset(p.slowPending), Held(p.workers), multiset(p.cancelling), multiset(p.loopQueue);
    OneMoreRequest(a, b, c, d, e, multiset{r});
    assert a + multiset{} == a;
  }

  lemma OneMoreRequest(a: multiset<nat>, b: multiset<nat>, c: multiset<nat>, d: multiset<nat>, e: multiset<nat>,
                       x: multiset<nat>)
    ensures (a + x) + b + c + d + e == (a + b + c + d + e) + x
    ensures a + (b + x) + c + d + e == (a + b + c + d + e) + x
    ensures a + b + c + (d + x) + e == (a + b + c + d + e) + x
    ensures a + b + c + d + (e + x) == (a + b + c + d + e) + x
  {
  }

  lemma PostExitInv(p: Pool)
    requires Inv(p)
    ensures Inv(PostExit(p))
  {
    hide Requests, Held, SlowCount, WaitCount, Messages;
    RequestsAppend(p.wq, [ExitMessage]);
    OneItem(ExitMessage);
    assert Requests(p.wq) + multiset{} == Requests(p.wq);
  }

  /** A request taken back has not been started, and is in no queue any more. */
  lemma CancelTakeInv(p: Pool, r: nat)
    requires Inv(p)
    ensures Inv(CancelTake(p, r))
    ensures Cancellable(p, r) ==> r !in p.started && r in p.outstanding && r in CancelTake(p, r).cancelling
  {
    hide Requests, Held, SlowCount, WaitCount, Messages, Without, Places;
    if Cancellable(p, r) {
      CancelTakePlaces(p, r);
      OnePlace(p, r);
      if Work(r) in p.wq {
        WithoutItem(p.wq, r);
        InQueue(p.wq, r);
      } else if r !in p.slowPending {
        FewerInQueue(p.loopQueue, CancelTake(p, r).loopQueue, r);
      }
    }
  }

  /** A submitted request can be taken back exactly as long as it is not started, once. */
  lemma CancellableMeans(p: Pool, r: nat)
    requires Inv(p)
    ensures Cancellable(p, r) <==> r in p.outstanding && r !in p.started && r !in p.cancelling
  {
    hide Requests, Held, SlowCount, WaitCount, Messages;
    OnePlace(p, r);
    InQueue(p.wq, r);
  }

  /** The request moves from its queue to those whose cancellation is under way. */
  lemma CancelTakePlaces(p: Pool, r: nat)
    requires Cancellable(p, r)
    ensures Places(CancelTake(p, r)) == Places(p)
    ensures Work(r) !in p.wq && r !in p.slowPending ==>
              multiset(CancelTake(p, r).loopQueue) + multiset{r} == multiset(p.loopQueue)
  {
    hide Requests, Held, Messages, Without;
    var a, b, c, d, e
      := Requests(p.wq), multiset(p.slowPending), Held(p.workers), multiset(p.cancelling), multiset(p.loopQueue);
    var q, x := CancelTake(p, r), multiset{r};
    if Work(r) in p.wq {
      WithoutItem(p.wq, r);
      OneMoreRequest(Requests(q.wq), b, c, d, e, x);
    } else if r in p.slowPending {
      WithoutElement(p.slowPending, r);
      OneMoreRequest(a, multiset(q.slowPending), c, d, e, x);
    } else {
      WithoutElement(p.loopQueue, r);
      OneMoreRequest(a, b, c, d, multiset(q.loopQueue), x);
    }
    assert multiset(q.cancelling) == d + x;
  }

  lemma FewerInQueue(s: seq<nat>, t: seq<nat>, r: nat)
    requires multiset(t) + multiset{r} == multiset(s) && multiset(s)[r] == 1
    ensures forall x :: x in t <==> x in s && x != r
  {
    forall x: nat
      ensures x in t <==> x in s && x != r
    {
      assert x in t <==> x in multiset(t);
      assert x in s <==> x in multiset(s);
      assert multiset(s)[x] == (multiset(t) + multiset{r})[x];
    }
  }

  lemma CancelDeliverInv(p: Pool, r: nat)
    requires Inv(p) && r in p.cancelling
    ensures Inv(CancelDeliver(p, r))
  {
    hide Requests, Held, SlowCount, WaitCount, Messages, Without;
    var a, b, c, e := Requests(p.wq), multiset(p.slowPending), Held(p.workers), multiset(p.loopQueue);
    var q, x := CancelDeliver(p, r), multiset{r};
    OnePlace(p, r);
    WithoutElement(p.cancelling, r);
    OneMoreRequest(a, b, c, multiset(q.cancelling), e, x);
    FewerInQueue(p.cancelling, q.cancelling, r);
    assert multiset(q.loopQueue) == e + x;
  }

  lemma CollectInv(p: Pool)
    requires Inv(p)
    ensures Inv(Collect(p))
    ensures forall r :: r in p.loopQueue ==> (r in p.started <==> r !in p.cancelled)
  {
    hide Requests, Held, SlowCount, WaitCount, Messages;
    var q := Collect(p);
    forall r: nat
      ensures Places(q)[r] == multiset(q.outstanding)[r]
      ensures r in p.loopQueue ==> r !in Held(p.workers) && r !in p.cancelling
    {
      OnePlace(p, r);
    }
  }

  // Runs.

  datatype Step =
    | Looks(i: nat) | Wakes(i: nat) | Finishes(i: nat) | Returns(i: nat)
    | Posts(r: nat, slow: bool) | Exits
    | Takes(r: nat) | Delivers(r: nat) | Collects

  /** When a step can happen. A worker takes the steps of where it is; a request is not
      submitted again while it is outstanding, and not cancelled twice at once. */
  predicate Enabled(p: Pool, step: Step) {
    match step
    case Looks(i) => i < |p.workers| && p.workers[i] == Top
    case Wakes(i) => i < |p.workers| && p.workers[i] == Waiting && p.idle > 0
    case Finishes(i) => i < |p.workers| && p.workers[i].Running?
    case Returns(i) => i < |p.workers| && p.workers[i].Returning? && (p.workers[i].slow ==> p.slowRunning > 0)
    case Posts(r, slow) => r !in p.outstanding
    case Exits => true
    case Takes(r) => r !in p.cancelling
    case Delivers(r) => r in p.cancelling
    case Collects => true
  }

  function Apply(p: Pool, step: Step): Pool
    requires Enabled(p, step)
  {
    match step
    case Looks(i) => Look(p, i)
    case Wakes(i) => Wake(p, i)
    case Finishes(i) => Finish(p, i)
    case Returns(i) => Return(p, i)
    case Posts(r, slow) => Post(p, r, slow)
    case Exits => PostExit(p)
    case Takes(r) => CancelTake(p, r)
    case Delivers(r) => CancelDeliver(p, r)
    case Collects => Collect(p)
  }

  lemma StepInv(p: Pool, step: Step)
    requires Inv(p) && Enabled(p, step)
    ensures Inv(Apply(p, step)) && |Apply(p, step).workers| == |p.workers|
  {
    hide Inv;
    match step {
      case Looks(i) => LookInv(p, i);
      case Wakes(i) => WakeInv(p, i);
      case Finishes(i) => FinishInv(p, i);
      case Returns(i) => ReturnInv(p, i);
      case Posts(r, slow) => PostInv(p, r, slow);
      case Exits => PostExitInv(p);
      case Takes(r) => CancelTakeInv(p, r);
      case Delivers(r) => CancelDeliverInv(p, r);
      case Collects => CollectInv(p);
    }
  }

  /** states is a run: one step after the other from the first state. */
  ghost predicate IsRun(states: seq<Pool>, steps: seq<Step>) {
    && |states| == |steps| + 1
    && forall k :: 0 <= k < |steps| ==> Enabled(states[k], steps[k]) && states[k + 1] == Apply(states[k], steps[k])
  }

  /** Every state of every run of a pool keeps the invariant. */
  lemma {:induction false} RunInv(threads: nat, states: seq<Pool>, steps: seq<Step>, k: nat)
    requires threads > 0 && IsRun(states, steps) && states[0] == Initial(threads) && k < |states|
    ensures Inv(states[k]) && |states[k].workers| == threads
  {
    if k == 0 {
      InitialInv(threads);
    } else {
      RunInv(threads, states, steps, k - 1);
      StepInv(states[k - 1], steps[k - 1]);
    }
  }

  // The counts of the invariant are what they are meant to be.

  lemma {:induction false} CountItems(wq: seq<Item>, r: nat)
    ensures Requests(wq)[r] == multiset(wq)[Work(r)] && Messages(wq) == multiset(wq)[SlowMessage]
  {
    if wq != [] {
      assert wq == [wq[0]] + wq[1..];
      CountItems(wq[1..], r);
    }
  }

  lemma {:induction false} CountHeld(workers: seq<Worker>, r: nat)
    ensures Held(workers)[r] == multiset(workers)[Running(r, false)] + multiset(workers)[Running(r, true)]
  {
    if workers != [] {
      assert workers == [workers[0]] + workers[1..];
      CountHeld(workers[1..], r);
    }
  }

  /** Any workers that run slow requests are counted. */
  lemma {:induction false} CountSlow(workers: seq<Worker>, busy: set<nat>)
    requires forall i :: i in busy ==> i < |workers| && workers[i].Running? && workers[i].slow
    ensures |busy| <= SlowCount(workers)
  {
    if workers == [] {
      assert busy == {};
    } else {
      var n := |workers| - 1;
      var w := workers[n];
      CountSlow(workers[..n], busy - {n});
      LastSlow(workers);
    }
  }

  lemma {:induction false} LastSlow(workers: seq<Worker>)
    requires workers != []
    ensures SlowCount(workers) == SlowCount(workers[..|workers| - 1]) + IsSlow(workers[|workers| - 1])
  {
    if |workers| > 1 {
      LastSlow(workers[1..]);
      assert workers[1..][..|workers| - 2] == workers[..|workers| - 1][1..];
    }
  }

  /** In every state of every run each outstanding request is in exactly one place, slow
      requests that wait are announced exactly once, at most half the workers, rounded up,
      run slow requests, and what was cancelled was never started. */
  lemma Safety(threads: nat, states: seq<Pool>, steps: seq<Step>, k: nat, r: nat, busy: set<nat>)
    requires threads > 0 && IsRun(states, steps) && states[0] == Initial(threads) && k < |states|
    requires var workers := states[k].workers;
             forall i :: i in busy ==> i < |workers| && workers[i].Running? && workers[i].slow
    ensures var p := states[k];
            && multiset(p.wq)[Work(r)] + multiset(p.slowPending)[r]
               + multiset(p.workers)[Running(r, false)] + multiset(p.workers)[Running(r, true)]
               + multiset(p.cancelling)[r] + multiset(p.loopQueue)[r] == (if r in p.outstanding then 1 else 0)
            && multiset(p.wq)[SlowMessage] <= 1 && (p.slowPending != [] ==> multiset(p.wq)[SlowMessage] == 1)
            && |busy| <= p.slowRunning <= (threads + 1) / 2
            && (r in p.cancelling || r in p.cancelled ==> r !in p.started)
  {
    hide Requests, Held, SlowCount, Messages;
    RunInv(threads, states, steps, k);
    var p := states[k];
    OnePlace(p, r);
    CountItems(p.wq, r);
    CountHeld(p.workers, r);
    CountSlow(p.workers, busy);
  }

  /** On its way to the loop as cancelled, or there. */
  ghost predicate IsCancelled(p: Pool, r: nat) {
    r in p.cancelling || (r in p.loopQueue && r in p.cancelled)
  }

  lemma CancelledNotStarted(p: Pool, r: nat)
    requires Inv(p) && IsCancelled(p, r)
    ensures r !in p.started
  {
    hide Requests, Held, SlowCount, WaitCount, Messages;
    OnePlace(p, r);
  }

  /** A request whose cancellation was accepted is not started until the loop collects it. */
  lemma {:induction false} StaysCancelled(states: seq<Pool>, steps: seq<Step>, r: nat, k: nat)
    requires IsRun(states, steps) && Inv(states[0]) && k < |states|
    requires r in states[0].cancelling
    requires forall j :: 0 <= j < k ==> steps[j] != Collects
    ensures Inv(states[k]) && IsCancelled(states[k], r) && r !in states[k].started
  {
    hide Inv, Enabled, Apply;
    if k > 0 {
      StaysCancelled(states, steps, r, k - 1);
      var p, step := states[k - 1], steps[k - 1];
      StepInv(p, step);
      StillCancelled(p, step, r);
    }
    CancelledNotStarted(states[k], r);
  }

  lemma TakeKeepsCancelled(p: Pool, s: nat, r: nat)
    requires Inv(p) && IsCancelled(p, r)
    ensures IsCancelled(CancelTake(p, s), r)
  {
    hide Requests, Held, SlowCount, WaitCount, Messages, Without;
    OnePlace(p, r);
    if Cancellable(p, s) && s in p.loopQueue {
      WithoutElement(p.loopQueue, s);
      OnePlace(p, s);
      FewerInQueue(p.loopQueue, Without(p.loopQueue, s), s);
    }
  }

  lemma DeliverKeepsCancelled(p: Pool, s: nat, r: nat)
    requires Inv(p) && IsCancelled(p, r) && s in p.cancelling
    ensures IsCancelled(CancelDeliver(p, s), r)
  {
    hide Requests, Held, SlowCount, WaitCount, Messages, Without;
    WithoutElement(p.cancelling, s);
    OnePlace(p, s);
    FewerInQueue(p.cancelling, Without(p.cancelling, s), s);
  }

  lemma StillCancelled(p: Pool, step: Step, r: nat)
    requires Inv(p) && Enabled(p, step) && step != Collects && IsCancelled(p, r)
    ensures IsCancelled(Apply(p, step), r)
  {
    hide Inv, CancelTake, CancelDeliver;
    match step
    case Takes(s) => TakeKeepsCancelled(p, s, r);
    case Delivers(s) => DeliverKeepsCancelled(p, s, r);
    case _ =>
  }
}
