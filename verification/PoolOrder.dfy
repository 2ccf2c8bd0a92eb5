// The order in which submitted work is started: first come, first served among the fast
// requests and among the slow ones, and no request waits for more looks at the queue than
// there are entries in front of it.

module PoolOrder {
  import opened PoolProtocol

  /** The first position of x in s, or the length of s. */
  function Pos<T(==)>(s: seq<T>, x: T): (i: nat)
    ensures i <= |s| && (i < |s| <==> x in s)
  {
    if s == [] then 0 else if s[0] == x then 0 else 1 + Pos(s[1..], x)
  }

  lemma {:induction false} PosAppend<T>(s: seq<T>, t: seq<T>, x: T)
    ensures Pos(s + t, x) == if x in s then Pos(s, x) else |s| + Pos(t, x)
  {
    if s == [] {
      assert s + t == t;
    } else {
      assert (s + t)[1..] == s[1..] + t;
      PosAppend(s[1..], t, x);
    }
  }

  /** Taking something else out keeps the order. */
  lemma {:induction false} PosWithout<T>(s: seq<T>, y: T, a: T, b: T)
    requires a != y && Pos(s, a) < Pos(s, b)
    ensures Pos(Without(s, y), a) < Pos(Without(s, y), b) && Pos(Without(s, y), a) <= Pos(s, a)
  {
    if s[0] == y {
      if b == y {
        assert false;
      }
    } else if s[0] == a {
      assert Without(s, y)[0] == a;
    } else {
      PosWithout(s[1..], y, a, b);
      assert Without(s, y)[1..] == Without(s[1..], y);
    }
  }

  // Fast requests.

  /** r is waiting in the queue, and s is behind it or not waiting at all. */
  ghost predicate FastAhead(p: Pool, r: nat, s: nat) {
    Pos(p.wq, Work(r)) < Pos(p.wq, Work(s)) && s !in p.slowPending && s !in p.started
  }

  ghost predicate SlowAhead(p: Pool, r: nat, s: nat) {
    Pos(p.slowPending, r) < Pos(p.slowPending, s) && Work(s) !in p.wq && s !in p.started
  }

  /** The step does not take r back, and does not submit s once more. */
  predicate Leaves(step: Step, r: nat, s: nat) {
    step != Takes(r) && (step.Posts? ==> step.r != s)
  }

  lemma PosRest<T>(s: seq<T>, x: T)
    requires s != [] && s[0] != x
    ensures Pos(s, x) == 1 + Pos(s[1..], x)
  {
  }

  lemma {:induction false} WithoutFewer<T>(s: seq<T>, y: T, x: T)
    ensures x in Without(s, y) ==> x in s
    ensures x != y && x in s ==> x in Without(s, y)
  {
    if s != [] && s[0] != y {
      WithoutFewer(s[1..], y, x);
    }
  }

  lemma LookFast(p: Pool, i: nat, r: nat, s: nat)
    requires i < |p.workers| && p.workers[i] == Top && FastAhead(p, r, s) && r != s
    ensures FastAhead(Look(p, i), r, s) || (r in Look(p, i).started && s !in Look(p, i).started)
  {
    hide Pos, Threshold;
    var front := p.wq[0];
    FrontPos(p.wq, Work(r), Work(s));
    if front != Work(r) {
      PosAppend(p.wq[1..], [SlowMessage], Work(r));
      PosAppend(p.wq[1..], [SlowMessage], Work(s));
      assert p.wq[1..] + [] == p.wq[1..];
    }
  }

  /** The front of a queue is behind nothing. */
  lemma FrontPos<T>(q: seq<T>, a: T, b: T)
    requires Pos(q, a) < Pos(q, b)
    ensures q != [] && q[0] != b
    ensures q[0] != a ==> Pos(q[1..], a) < Pos(q[1..], b) && Pos(q[1..], a) + 1 == Pos(q, a)
  {
  }

  lemma FastStep(p: Pool, step: Step, r: nat, s: nat)
    requires Enabled(p, step) && Leaves(step, r, s) && FastAhead(p, r, s) && r != s
    ensures FastAhead(Apply(p, step), r, s) || (r in Apply(p, step).started && s !in Apply(p, step).started)
  {
    hide Pos, Without, Threshold, Messages, Look;
    match step {
      case Looks(i) =>
        LookFast(p, i, r, s);
      case Posts(x, slow) =>
        PosAppend(p.wq, [Work(x)], Work(r));
        PosAppend(p.wq, [Work(x)], Work(s));
        PosAppend(p.wq, [SlowMessage], Work(r));
        PosAppend(p.wq, [SlowMessage], Work(s));
      case Exits =>
        PosAppend(p.wq, [ExitMessage], Work(r));
        PosAppend(p.wq, [ExitMessage], Work(s));
      case Takes(x) =>
        if Work(x) in p.wq {
          PosWithout(p.wq, Work(x), Work(r), Work(s));
        }
        WithoutFewer(p.slowPending, x, s);
      case _ =>
    }
  }

  // Slow requests.

  lemma LookSlowOrder(p: Pool, i: nat, r: nat, s: nat)
    requires i < |p.workers| && p.workers[i] == Top && SlowAhead(p, r, s) && r != s
    ensures SlowAhead(Look(p, i), r, s) || (r in Look(p, i).started && s !in Look(p, i).started)
  {
    hide Pos, Threshold;
    FrontPos(p.slowPending, r, s);
  }

  lemma SlowStep(p: Pool, step: Step, r: nat, s: nat)
    requires Enabled(p, step) && Leaves(step, r, s) && SlowAhead(p, r, s) && r != s
    ensures SlowAhead(Apply(p, step), r, s) || (r in Apply(p, step).started && s !in Apply(p, step).started)
  {
    hide Pos, Without, Threshold, Messages, Look;
    match step {
      case Looks(i) =>
        LookSlowOrder(p, i, r, s);
      case Posts(x, slow) =>
        PosAppend(p.slowPending, [x], r);
        PosAppend(p.slowPending, [x], s);
      case Takes(x) =>
        if x in p.slowPending {
          PosWithout(p.slowPending, x, r, s);
        }
        WithoutFewer(p.wq, Work(x), Work(s));
      case _ =>
    }
  }

  // Runs.

  ghost predicate Ahead(p: Pool, r: nat, s: nat, slow: bool) {
    if slow then SlowAhead(p, r, s) else FastAhead(p, r, s)
  }

  predicate Queued(p: Pool, r: nat, slow: bool) {
    if slow then r in p.slowPending else Work(r) in p.wq
  }

  /** r was started in one of the states up to k, and s in none before that. */
  ghost predicate StartedFirst(states: seq<Pool>, from: nat, k: nat, r: nat, s: nat)
    requires k < |states|
  {
    exists m :: from <= m <= k && r in states[m].started && forall l :: from <= l <= m ==> s !in states[l].started
  }

  /** Whoever is ahead is started first. */
  lemma {:induction false} AheadRun(states: seq<Pool>, steps: seq<Step>, j: nat, k: nat, r: nat, s: nat, slow: bool)
    requires IsRun(states, steps) && j <= k < |states| && r != s && Ahead(states[j], r, s, slow)
    requires forall m :: j <= m < k ==> Leaves(steps[m], r, s)
    ensures (Ahead(states[k], r, s, slow) && forall l :: j <= l <= k ==> s !in states[l].started)
            || StartedFirst(states, j, k, r, s)
  {
    hide Apply, Enabled, Leaves, Pos;
    if j < k {
      AheadRun(states, steps, j, k - 1, r, s, slow);
      if !StartedFirst(states, j, k - 1, r, s) {
        if slow {
          SlowStep(states[k - 1], steps[k - 1], r, s);
        } else {
          FastStep(states[k - 1], steps[k - 1], r, s);
        }
      } else {
        var m :| j <= m <= k - 1 && r in states[m].started && forall l :: j <= l <= m ==> s !in states[l].started;
        assert StartedFirst(states, j, k, r, s);
      }
    }
  }

  /** A request that is waiting goes on waiting until it is started or taken back. */
  lemma QueuedStep(p: Pool, step: Step, r: nat, slow: bool)
    requires Enabled(p, step) && step != Takes(r) && Queued(p, r, slow)
    ensures Queued(Apply(p, step), r, slow) || r in Apply(p, step).started
  {
    hide Without, Threshold, Messages;
    if step.Takes? {
      WithoutFewer(p.wq, Work(step.r), Work(r));
      WithoutFewer(p.slowPending, step.r, r);
    }
  }

  lemma {:induction false} QueuedRun(states: seq<Pool>, steps: seq<Step>, j: nat, k: nat, r: nat, slow: bool)
    requires IsRun(states, steps) && j <= k < |states| && Queued(states[j], r, slow)
    requires forall m :: j <= m < k ==> steps[m] != Takes(r)
    ensures Queued(states[k], r, slow) || exists m :: j < m <= k && r in states[m].started
  {
    hide Apply, Enabled, Queued;
    if j < k {
      QueuedRun(states, steps, j, k - 1, r, slow);
      if Queued(states[k - 1], r, slow) {
        QueuedStep(states[k - 1], steps[k - 1], r, slow);
      }
    }
  }

  /** A request that is not outstanding is nowhere. */
  lemma Nowhere(p: Pool, s: nat)
    requires Inv(p) && s !in p.outstanding
    ensures Work(s) !in p.wq && s !in p.slowPending && s !in p.started
  {
    hide Requests, Held, SlowCount, WaitCount, Messages;
    OnePlace(p, s);
    InQueue(p.wq, s);
  }

  lemma PostedAhead(p: Pool, r: nat, s: nat, slow: bool)
    requires Inv(p) && Queued(p, r, slow) && s !in p.outstanding && r != s
    ensures Ahead(Post(p, s, slow), r, s, slow)
  {
    hide Inv, Messages, Pos;
    Nowhere(p, s);
    PosAppend(p.wq, [Work(s)], Work(r));
    PosAppend(p.wq, [Work(s)], Work(s));
    PosAppend(p.slowPending, [s], r);
    PosAppend(p.slowPending, [s], s);
    PosIn(p.wq, Work(r));
    PosIn(p.slowPending, r);
  }

  lemma PosIn<T>(s: seq<T>, x: T)
    ensures x in s ==> Pos(s, x) < |s|
  {
  }

  lemma PostQueues(p: Pool, r: nat, slow: bool)
    ensures Queued(Post(p, r, slow), r, slow)
  {
  }

  /** First come, first started: of two requests of the same kind the one submitted first is
      started first, unless it is taken back. */
  lemma FirstComeFirstStarted(threads: nat, states: seq<Pool>, steps: seq<Step>, i: nat, j: nat, k: nat,
                              r: nat, s: nat, slow: bool)
    requires threads > 0 && IsRun(states, steps) && states[0] == Initial(threads)
    requires i < j < k < |states| && r != s && steps[i] == Posts(r, slow) && steps[j] == Posts(s, slow)
    requires forall m :: i < m < k ==> steps[m] != Takes(r)
    requires forall m :: j < m < k && steps[m].Posts? ==> steps[m].r != s
    requires s in states[k].started
    ensures exists m :: i < m < k && r in states[m].started && forall l :: j < l <= m ==> s !in states[l].started
  {
    hide Apply, Enabled, Inv, Initial, Queued, Pos;
    RunInv(threads, states, steps, j);
    PostQueued(states, steps, i, r, slow);
    QueuedRun(states, steps, i + 1, j, r, slow);
    if Queued(states[j], r, slow) {
      PostAhead(states, steps, j, r, s, slow);
      AheadRun(states, steps, j + 1, k, r, s, slow);
      var m :| j + 1 <= m <= k && r in states[m].started && forall l :: j + 1 <= l <= m ==> s !in states[l].started;
      assert m < k;
    }
  }

  lemma PostQueued(states: seq<Pool>, steps: seq<Step>, i: nat, r: nat, slow: bool)
    requires IsRun(states, steps) && i < |steps| && steps[i] == Posts(r, slow)
    ensures Queued(states[i + 1], r, slow)
  {
    hide Queued, Post;
    PostQueues(states[i], r, slow);
  }

  lemma PostAhead(states: seq<Pool>, steps: seq<Step>, j: nat, r: nat, s: nat, slow: bool)
    requires IsRun(states, steps) && j < |steps| && steps[j] == Posts(s, slow) && r != s
    requires Inv(states[j]) && Queued(states[j], r, slow)
    ensures Ahead(states[j + 1], r, s, slow)
  {
    hide Queued, Post, Inv, Ahead;
    PostedAhead(states[j], r, s, slow);
  }

  // The reports.

  /** The step hands r to the loop, run or cancelled. */
  predicate Hands(p: Pool, step: Step, r: nat) {
    || step == Delivers(r)
    || (step.Finishes? && step.i < |p.workers| && p.workers[step.i].Running? && p.workers[step.i].r == r)
  }

  /** The step leaves r with the loop. */
  predicate Keeps(p: Pool, step: Step, r: nat) {
    step != Collects && (step == Takes(r) ==> !Cancellable(p, r))
  }

  /** Both are with the loop, r first. */
  ghost predicate DoneAhead(p: Pool, r: nat, s: nat) {
    Pos(p.loopQueue, r) < Pos(p.loopQueue, s) < |p.loopQueue|
  }

  lemma DoneStays(p: Pool, step: Step, r: nat)
    requires Enabled(p, step) && Keeps(p, step, r) && r in p.loopQueue
    ensures r in Apply(p, step).loopQueue
  {
    hide Without, Threshold, Messages;
    if step.Takes? {
      WithoutFewer(p.loopQueue, step.r, r);
    }
  }

  lemma DoneStep(p: Pool, step: Step, r: nat, s: nat)
    requires Enabled(p, step) && Keeps(p, step, r) && Keeps(p, step, s) && DoneAhead(p, r, s) && r != s
    ensures DoneAhead(Apply(p, step), r, s)
  {
    hide Pos, Without, Threshold, Messages, Look, Post;
    match step {
      case Finishes(i) =>
        PosAppend(p.loopQueue, [p.workers[i].r], r);
        PosAppend(p.loopQueue, [p.workers[i].r], s);
      case Delivers(x) =>
        PosAppend(p.loopQueue, [x], r);
        PosAppend(p.loopQueue, [x], s);
      case Takes(x) =>
        DoneStays(p, step, s);
        if Cancellable(p, x) {
          PosWithout(p.loopQueue, x, r, s);
        }
      case Looks(i) =>
        LookKeepsReports(p, i);
      case Posts(x, slow) =>
        PostKeepsReports(p, x, slow);
      case _ =>
    }
  }

  lemma LookKeepsReports(p: Pool, i: nat)
    requires i < |p.workers| && p.workers[i] == Top
    ensures Look(p, i).loopQueue == p.loopQueue
  {
  }

  lemma PostKeepsReports(p: Pool, r: nat, slow: bool)
    ensures Post(p, r, slow).loopQueue == p.loopQueue
  {
  }

  /** A request that is handed over is not with the loop yet, and goes to the end. */
  lemma HandedOver(p: Pool, step: Step, r: nat, s: nat)
    requires Inv(p) && Enabled(p, step) && Hands(p, step, s) && r != s && r in p.loopQueue
    ensures DoneAhead(Apply(p, step), r, s)
  {
    hide Pos, Requests, Held, SlowCount, WaitCount, Messages, Without;
    OnePlace(p, s);
    if step.Finishes? {
      HeldBySome(p.workers, step.i);
    }
    PosAppend(p.loopQueue, [s], r);
    PosAppend(p.loopQueue, [s], s);
    PosIn([s], s);
  }

  lemma HandedIn(p: Pool, step: Step, r: nat)
    requires Enabled(p, step) && Hands(p, step, r)
    ensures r in Apply(p, step).loopQueue
  {
  }

  lemma {:induction false} StaysRun(states: seq<Pool>, steps: seq<Step>, i: nat, j: nat, r: nat)
    requires IsRun(states, steps) && i <= j < |states| && r in states[i].loopQueue
    requires forall m :: i <= m < j ==> Keeps(states[m], steps[m], r)
    ensures r in states[j].loopQueue
  {
    hide Apply, Enabled, Keeps;
    if i < j {
      StaysRun(states, steps, i, j - 1, r);
      DoneStays(states[j - 1], steps[j - 1], r);
    }
  }

  lemma {:induction false} DoneRun(states: seq<Pool>, steps: seq<Step>, j: nat, k: nat, r: nat, s: nat)
    requires IsRun(states, steps) && j <= k < |states| && DoneAhead(states[j], r, s) && r != s
    requires forall m :: j <= m < k ==> Keeps(states[m], steps[m], r) && Keeps(states[m], steps[m], s)
    ensures DoneAhead(states[k], r, s)
  {
    hide Apply, Enabled, Keeps, DoneAhead;
    if j < k {
      DoneRun(states, steps, j, k - 1, r, s);
      DoneStep(states[k - 1], steps[k - 1], r, s);
    }
  }

  /** First finished, first reported: of two requests that the workers or cancellations hand
      to the loop, the earlier one is in front of the other when the loop collects them. */
  lemma FirstFinishedFirstReported(threads: nat, states: seq<Pool>, steps: seq<Step>, i: nat, j: nat, k: nat,
                                   r: nat, s: nat)
    requires threads > 0 && IsRun(states, steps) && states[0] == Initial(threads)
    requires i < j < k < |states| && r != s && Hands(states[i], steps[i], r) && Hands(states[j], steps[j], s)
    requires forall m :: i < m < k ==> Keeps(states[m], steps[m], r)
    requires forall m :: j < m < k ==> Keeps(states[m], steps[m], s)
    ensures exists a: nat, b: nat :: a < b < |states[k].loopQueue| && states[k].loopQueue[a] == r
                                     && states[k].loopQueue[b] == s
  {
    hide Apply, Enabled, Inv, Initial, Keeps, Hands;
    HandedIn(states[i], steps[i], r);
    StaysRun(states, steps, i + 1, j, r);
    RunInv(threads, states, steps, j);
    HandedOver(states[j], steps[j], r, s);
    DoneRun(states, steps, j + 1, k, r, s);
    PosIs(states[k].loopQueue, r);
    PosIs(states[k].loopQueue, s);
  }

  lemma {:induction false} PosIs<T>(s: seq<T>, x: T)
    requires x in s
    ensures s[Pos(s, x)] == x
  {
    if s[0] != x {
      PosIs(s[1..], x);
    }
  }

  // How long a fast request waits.

  /** The message that ends the workers is not in front of the request. */
  ghost predicate Free(p: Pool, r: nat) {
    Pos(p.wq, Work(r)) < Pos(p.wq, ExitMessage)
  }

  /** A look brings the request forward by one, and nothing puts it back. */
  ghost predicate Forward(p: Pool, q: Pool, step: Step, r: nat) {
    && Free(q, r) && Pos(q.wq, Work(r)) <= Pos(p.wq, Work(r))
    && (step.Looks? ==> Pos(q.wq, Work(r)) + 1 == Pos(p.wq, Work(r)))
  }

  lemma FreeLook(p: Pool, i: nat, r: nat)
    requires i < |p.workers| && p.workers[i] == Top && Free(p, r)
    ensures r in Look(p, i).started || Forward(p, Look(p, i), Looks(i), r)
  {
    hide Pos, Threshold;
    FrontPos(p.wq, Work(r), ExitMessage);
    if p.wq[0] != Work(r) {
      PosAppend(p.wq[1..], [SlowMessage], Work(r));
      PosAppend(p.wq[1..], [SlowMessage], ExitMessage);
      assert p.wq[1..] + [] == p.wq[1..];
    }
  }

  lemma FreeStep(p: Pool, step: Step, r: nat)
    requires Enabled(p, step) && step != Takes(r) && Free(p, r)
    ensures r in Apply(p, step).started || Forward(p, Apply(p, step), step, r)
  {
    hide Pos, Without, Threshold, Messages, Look;
    match step {
      case Looks(i) =>
        FreeLook(p, i, r);
      case Posts(x, slow) =>
        PosAppend(p.wq, [Work(x)], Work(r));
        PosAppend(p.wq, [Work(x)], ExitMessage);
        PosAppend(p.wq, [SlowMessage], Work(r));
        PosAppend(p.wq, [SlowMessage], ExitMessage);
      case Exits =>
        PosAppend(p.wq, [ExitMessage], Work(r));
        PosAppend(p.wq, [ExitMessage], ExitMessage);
      case Takes(x) =>
        if Work(x) in p.wq {
          PosWithout(p.wq, Work(x), Work(r), ExitMessage);
        }
      case _ =>
    }
  }

  function CountLooks(steps: seq<Step>): nat {
    if steps == [] then 0
    else CountLooks(steps[..|steps| - 1]) + (if steps[|steps| - 1].Looks? then 1 else 0)
  }

  lemma {:induction false} FreeRun(states: seq<Pool>, steps: seq<Step>, k: nat, r: nat)
    requires IsRun(states, steps) && k < |states| && Free(states[0], r)
    requires forall m :: 0 <= m < k ==> steps[m] != Takes(r)
    ensures (Free(states[k], r) && Pos(states[k].wq, Work(r)) + CountLooks(steps[..k]) <= Pos(states[0].wq, Work(r)))
            || exists m :: 0 < m <= k && r in states[m].started
  {
    hide Apply, Enabled, Pos, Free;
    if k > 0 {
      FreeRun(states, steps, k - 1, r);
      assert steps[..k][..k - 1] == steps[..k - 1] && steps[..k][k - 1] == steps[k - 1];
      if Free(states[k - 1], r) {
        FreeStep(states[k - 1], steps[k - 1], r);
      }
    } else {
      assert steps[..0] == [];
    }
  }

  /** A fast request is started at the latest with as many looks at the queue as there are
      entries up to it, unless it is taken back or the pool was told to end before. */
  lemma StartedSoon(states: seq<Pool>, steps: seq<Step>, n: nat, r: nat)
    requires IsRun(states, steps) && n < |states[0].wq| && states[0].wq[n] == Work(r)
    requires ExitMessage !in states[0].wq[..n] && Takes(r) !in steps
    requires CountLooks(steps) > n
    ensures exists m :: 0 < m < |states| && r in states[m].started
  {
    hide Apply, Enabled;
    var wq := states[0].wq;
    PosAt(wq, n);
    assert wq == wq[..n] + wq[n..];
    PosAppend(wq[..n], wq[n..], ExitMessage);
    assert wq[n..][0] == Work(r);
    FreeRun(states, steps, |steps|, r);
    assert steps[..|steps|] == steps;
  }

  lemma {:induction false} PosAt<T>(s: seq<T>, n: nat)
    requires n < |s|
    ensures Pos(s, s[n]) <= n
  {
    if n > 0 && s[0] != s[n] {
      PosAt(s[1..], n - 1);
    }
  }

  // How long a slow request waits.

  /** A worker comes to the message that slow work is waiting, and at most half of the
      workers would be busy with slow work. */
  predicate SlowTurn(p: Pool, step: Step) {
    step.Looks? && p.wq != [] && p.wq[0] == SlowMessage && p.slowRunning < (|p.workers| + 1) / 2
  }

  function CountTurns(states: seq<Pool>, steps: seq<Step>): nat
    requires |steps| <= |states|
  {
    if steps == [] then 0
    else
      var n := |steps| - 1;
      CountTurns(states, steps[..n]) + (if SlowTurn(states[n], steps[n]) then 1 else 0)
  }

  /** A turn of slow work brings the request forward by one, and nothing puts it back. */
  ghost predicate SlowForward(p: Pool, q: Pool, step: Step, r: nat) {
    && r in q.slowPending && Pos(q.slowPending, r) <= Pos(p.slowPending, r)
    && (SlowTurn(p, step) ==> Pos(q.slowPending, r) + 1 == Pos(p.slowPending, r))
  }

  lemma SlowLook(p: Pool, i: nat, r: nat)
    requires i < |p.workers| && p.workers[i] == Top && r in p.slowPending
    ensures r in Look(p, i).started || SlowForward(p, Look(p, i), Looks(i), r)
  {
    hide Pos;
    var q := p.slowPending;
    if q[0] != r {
      PosRest(q, r);
      PosIn(q, r);
    }
  }

  lemma SlowForwardStep(p: Pool, step: Step, r: nat)
    requires Enabled(p, step) && step != Takes(r) && r in p.slowPending
    ensures r in Apply(p, step).started || SlowForward(p, Apply(p, step), step, r)
  {
    hide Pos, Without, Threshold, Messages, Look;
    match step {
      case Looks(i) =>
        SlowLook(p, i, r);
      case Posts(x, slow) =>
        PosAppend(p.slowPending, [x], r);
      case Takes(x) =>
        WithoutFewer(p.slowPending, x, r);
        WithoutForward(p.slowPending, x, r);
      case _ =>
    }
  }

  lemma {:induction false} WithoutForward<T>(s: seq<T>, y: T, a: T)
    requires a != y && a in s
    ensures Pos(Without(s, y), a) <= Pos(s, a)
  {
    if s[0] != y && s[0] != a {
      WithoutForward(s[1..], y, a);
      assert Without(s, y)[1..] == Without(s[1..], y);
    }
  }

  lemma {:induction false} SlowRun(states: seq<Pool>, steps: seq<Step>, k: nat, r: nat)
    requires IsRun(states, steps) && k < |states| && r in states[0].slowPending
    requires forall m :: 0 <= m < k ==> steps[m] != Takes(r)
    ensures (r in states[k].slowPending
             && Pos(states[k].slowPending, r) + CountTurns(states, steps[..k]) <= Pos(states[0].slowPending, r))
            || exists m :: 0 < m <= k && r in states[m].started
  {
    hide Apply, Enabled, Pos, SlowTurn;
    if k > 0 {
      SlowRun(states, steps, k - 1, r);
      assert steps[..k][..k - 1] == steps[..k - 1] && steps[..k][k - 1] == steps[k - 1];
      if r in states[k - 1].slowPending {
        SlowForwardStep(states[k - 1], steps[k - 1], r);
      }
    } else {
      assert steps[..0] == [];
    }
  }

  /** A slow request is started at the latest at as many turns of slow work as there are slow
      requests up to it, unless it is taken back before. */
  lemma SlowStartedSoon(states: seq<Pool>, steps: seq<Step>, n: nat, r: nat)
    requires IsRun(states, steps) && n < |states[0].slowPending| && states[0].slowPending[n] == r
    requires Takes(r) !in steps && CountTurns(states, steps) > n
    ensures exists m :: 0 < m < |states| && r in states[m].started
  {
    hide Apply, Enabled;
    PosAt(states[0].slowPending, n);
    SlowRun(states, steps, |steps|, r);
    assert steps[..|steps|] == steps;
  }

  /** A worker goes to sleep exactly when there is no fast work and no message to end, and
      the message that slow work is waiting is not there or half of the workers have some. */
  lemma SleepsWithoutWork(p: Pool, i: nat)
    requires Inv(p) && i < |p.workers| && p.workers[i] == Top
    ensures Look(p, i).workers[i] == Waiting
            <==> (forall x :: x in p.wq ==> x == SlowMessage) && (p.wq != [] ==> p.slowRunning >= (|p.workers| + 1) / 2)
  {
    hide Requests, Held, SlowCount, WaitCount, Places;
    if p.wq != [] && forall x :: x in p.wq ==> x == SlowMessage {
      if |p.wq| > 1 {
        assert p.wq[0] in p.wq && p.wq[1] in p.wq;
        TwoMessages(p.wq);
      }
      assert p.wq == [p.wq[0]] && p.wq[0] in p.wq;
    }
  }

  lemma TwoMessages(s: seq<Item>)
    requires |s| >= 2 && s[0] == SlowMessage && s[1] == SlowMessage
    ensures Messages(s) >= 2
  {
    assert s[1..][0] == SlowMessage;
    assert Messages(s) == 1 + Messages(s[1..]);
  }
}
