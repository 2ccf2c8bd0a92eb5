// Timers on top of the heap: starting, stopping and repeating them, and the runner that
// collects the due ones before it calls any of them back.

module Timers {
  import opened Arith
  import opened TimerHeap

  const INT_MAX: nat := 0x7FFF_FFFF

  /** What a callback may do: to timers, or have the loop read the clock, which then says
      now. A callback is named by a number, 0 is none. */
  datatype Action =
    | Start(h: Handle, callback: nat, timeout: nat, repeatTime: nat)
    | Stop(h: Handle)
    | Again(h: Handle)
    | Close(h: Handle)
    | SetRepeat(h: Handle, repeatTime: nat)
    | UpdateTime(now: nat)

  /** The action is on that timer. */
  predicate On(a: Action, h: Handle) {
    !a.UpdateTime? && a.h == h
  }

  /** What a timer is set to. */
  datatype TimerState = TimerState(active: bool, timeout: nat, startId: nat, repeatTime: nat, callback: nat,
                                   closing: bool)

  ghost function StateOf(h: Handle): TimerState
    reads h`active, h`timeout, h`startId, h`repeatTime, h`callback, h`closing
  {
    TimerState(h.active, h.timeout, h.startId, h.repeatTime, h.callback, h.closing)
  }

  /** When a timer with this timeout is due: 64-bit time saturates. */
  function Due(time: nat, timeout: nat): nat {
    if time + timeout < TWO64 then time + timeout else TWO64 - 1
  }

  lemma DueMeans(time: nat, timeout: nat)
    ensures time + timeout < 0x1_0000_0000_0000_0000 ==> Due(time, timeout) == time + timeout
    ensures time + timeout >= 0x1_0000_0000_0000_0000 ==> Due(time, timeout) == 0xFFFF_FFFF_FFFF_FFFF
  {
  }

  /** Repeating timers are armed again, unless they are closing; others stay as they are. */
  ghost predicate AfterAgain(was: TimerState, now: TimerState, time: nat) {
    if was.callback == 0 || was.repeatTime == 0 then now == was
    else if was.closing then now == was.(active := false)
    else now == was.(active := true, timeout := Due(time, was.repeatTime), startId := now.startId)
  }

  /** What an action does to its timer. */
  ghost predicate AfterAction(a: Action, was: TimerState, now: TimerState, time: nat) {
    match a
    case Start(h, callback, timeout, repeatTime) =>
      if was.closing || callback == 0 then now == was
      else now == TimerState(true, Due(time, timeout), now.startId, repeatTime, callback, false)
    case Stop(h) => now == was.(active := false)
    case Again(h) => AfterAgain(was, now, time)
    case Close(h) => now == was.(active := false, closing := true)
    case SetRepeat(h, repeatTime) => now == was.(repeatTime := repeatTime)
    case UpdateTime(clock) => now == was
  }

  /** The time of the loop after a script. */
  function TimeAfter(script: seq<Action>, time: nat): nat {
    if script == [] then time
    else
      var n := |script| - 1;
      if script[n].UpdateTime? then script[n].now else TimeAfter(script[..n], time)
  }

  /** The time of the loop before callback number j. */
  function TimeBefore(acts: seq<seq<Action>>, j: nat, time: nat): nat {
    if j == 0 then time else TimeAfter(Acts(acts, j - 1), TimeBefore(acts, j - 1, time))
  }

  lemma StartTime(acts: seq<seq<Action>>, time: nat)
    ensures TimeBefore(acts, 0, time) == time
  {
  }

  lemma NextTime(acts: seq<seq<Action>>, j: nat, time: nat)
    ensures TimeBefore(acts, j + 1, time) == TimeAfter(Acts(acts, j), TimeBefore(acts, j, time))
  {
  }

  lemma TimeNext(script: seq<Action>, i: nat, time: nat)
    requires i < |script|
    ensures TimeAfter(script[..i + 1], time)
            == if script[i].UpdateTime? then script[i].now else TimeAfter(script[..i], time)
  {
    assert script[..i + 1][..i] == script[..i];
  }

  lemma TimeNone(script: seq<Action>, time: nat)
    ensures TimeAfter(script[..0], time) == time
  {
  }

  /** The script gives the timer another repeat time. */
  ghost predicate SetIn(script: seq<Action>, h: Handle) {
    exists a :: a in script && a.SetRepeat? && a.h == h
  }

  /** No callback names the timer. */
  ghost predicate Unnamed(acts: seq<seq<Action>>, h: Handle) {
    forall j: nat :: !Names(Acts(acts, j), h)
  }

  /** s without the members of out. */
  ghost function Kept(s: seq<Handle>, out: set<Handle>): (r: seq<Handle>)
    ensures forall x :: x in r ==> x in s && x !in out
    ensures forall x :: x in s && x !in out ==> x in r
  {
    if s == [] then []
    else if s[0] in out then Kept(s[1..], out)
    else [s[0]] + Kept(s[1..], out)
  }

  lemma {:induction false} KeptSplit(s: seq<Handle>, t: seq<Handle>, out: set<Handle>)
    ensures Kept(s + t, out) == Kept(s, out) + Kept(t, out)
  {
    if s == [] {
      assert s + t == t;
    } else {
      assert (s + t)[1..] == s[1..] + t;
      KeptSplit(s[1..], t, out);
    }
  }

  /** Taking out more that s does not have changes nothing. */
  lemma {:induction false} KeptOthers(s: seq<Handle>, out: set<Handle>, more: set<Handle>)
    requires forall x :: x in s ==> x !in more
    ensures Kept(s, out + more) == Kept(s, out)
  {
    if s != [] {
      assert forall x :: x in s[1..] ==> x in s;
      KeptOthers(s[1..], out, more);
    }
  }

  /** Taking out some after others. */
  lemma {:induction false} KeptTwice(s: seq<Handle>, out: set<Handle>, more: set<Handle>)
    ensures Kept(s, out + more) == Kept(Kept(s, out), more)
    ensures |Kept(s, out + more)| <= |Kept(s, out)|
  {
    if s != [] {
      KeptTwice(s[1..], out, more);
      if s[0] !in out {
        assert ([s[0]] + Kept(s[1..], out))[1..] == Kept(s[1..], out);
      }
    }
  }

  lemma {:induction false} KeptDistinct(s: seq<Handle>, out: set<Handle>)
    requires Distinct(s)
    ensures Distinct(Kept(s, out))
  {
    if s != [] {
      KeptDistinct(s[1..], out);
      assert s[0] !in s[1..];
    }
  }

  /** The first that is kept, and its position in s. */
  lemma {:induction false} KeptHead(s: seq<Handle>, out: set<Handle>) returns (i: nat)
    requires Kept(s, out) != []
    ensures i < |s| && s[i] == Kept(s, out)[0] && s[i] !in out
    ensures Kept(s[..i], out) == [] && Kept(s[i + 1..], out) == Kept(s, out)[1..]
  {
    if s[0] in out {
      var k := KeptHead(s[1..], out);
      i := k + 1;
      assert s[..i] == [s[0]] + s[1..][..k];
      assert s[..i][1..] == s[1..][..k];
      assert s[1..][k + 1..] == s[i + 1..];
    } else {
      i := 0;
    }
  }

  /** Distinct members of a set are at most as many as the set. */
  lemma {:induction false} FewerThan(s: seq<Handle>, all: set<Handle>)
    requires Distinct(s) && forall k :: 0 <= k < |s| ==> s[k] in all
    ensures |s| <= |all|
  {
    if s != [] {
      var n := |s| - 1;
      FewerThan(s[..n], all - {s[n]});
    }
  }

  /** No two armed timers were started at the same count. */
  ghost predicate OwnIds(s: seq<Handle>)
    reads s`startId
  {
    forall a, b :: a in s && b in s && a != b ==> a.startId != b.startId
  }

  lemma OwnMore(s: seq<Handle>, t: seq<Handle>, h: Handle)
    requires OwnIds(s) && forall x :: x in t <==> x in s || x == h
    requires forall x :: x in s ==> x.startId < h.startId
    ensures OwnIds(t)
  {
  }

  // The order of the callbacks. moved are the due timers in order, skipped those that a
  // callback took off the queue before their turn, and callback number j does acts[j].

  /** How many callbacks run before the turn of the timer at position k. */
  ghost function Turn(moved: seq<Handle>, skipped: set<Handle>, k: nat): nat
    requires k <= |moved|
  {
    |Kept(moved[..k], skipped)|
  }

  function Acts(acts: seq<seq<Action>>, j: nat): seq<Action> {
    if j < |acts| then acts[j] else []
  }

  ghost predicate Names(script: seq<Action>, h: Handle) {
    exists a :: a in script && On(a, h)
  }

  /** One of the first callbacks names the timer. */
  ghost predicate Blamed(acts: seq<seq<Action>>, bound: nat, h: Handle) {
    exists j: nat :: j < bound && Names(Acts(acts, j), h)
  }

  /** A timer is skipped only when a callback that runs before its turn names it, and
      always when such a callback takes it off the queue. The last are timers that
      repeat throughout. */
  ghost predicate Justified(moved: seq<Handle>, skipped: set<Handle>, acts: seq<seq<Action>>, bound: nat,
                            repeating: set<Handle>)
  {
    && (forall k: nat :: k < |moved| && moved[k] in skipped ==>
          Blamed(acts, bound, moved[k]) && Blamed(acts, Turn(moved, skipped, k), moved[k]))
    && (forall k: nat, j: nat ::
          k < |moved| && j < bound && j < Turn(moved, skipped, k) && TakesOff(Acts(acts, j), moved[k], repeating) ==>
            moved[k] in skipped)
  }

  /** Stopping and closing take a ready timer off the queue, and so does starting it, or
      repeating it if it repeats. */
  predicate Takes(a: Action, repeats: bool) {
    match a
    case Start(h, callback, timeout, repeatTime) => callback != 0
    case Stop(h) => true
    case Again(h) => repeats
    case Close(h) => true
    case SetRepeat(h, repeatTime) => false
    case UpdateTime(now) => false
  }

  predicate Repeats(w: TimerState) {
    w.callback != 0 && w.repeatTime != 0
  }

  ghost predicate TakesOff(script: seq<Action>, h: Handle, repeating: set<Handle>) {
    exists a :: a in script && On(a, h) && Takes(a, h in repeating)
  }

  /** A callback gives the timer another repeat time. */
  ghost predicate Reset(acts: seq<seq<Action>>, h: Handle) {
    exists j: nat :: SetIn(Acts(acts, j), h)
  }

  lemma TurnMono(moved: seq<Handle>, skipped: set<Handle>, a: nat, b: nat)
    requires a <= b <= |moved|
    ensures Turn(moved, skipped, a) <= Turn(moved, skipped, b)
  {
    assert moved[..b] == moved[..a] + moved[a..b];
    KeptSplit(moved[..a], moved[a..b], skipped);
  }

  /** What one more callback does to the record: out are the ready timers it takes off. */
  lemma OneMoreCallback(moved: seq<Handle>, skipped: set<Handle>, acts: seq<seq<Action>>, n: nat, i: nat,
                        out: set<Handle>, repeating: set<Handle>)
    requires Distinct(moved) && i <= |moved| && Turn(moved, skipped, i) == n + 1
    requires forall k: nat :: k < i ==> Turn(moved, skipped, k) <= n
    requires Justified(moved, skipped, acts, n, repeating)
    requires forall x :: x in out ==> x in moved[i..] && Names(Acts(acts, n), x)
    requires forall x :: x in Kept(moved[i..], skipped) && TakesOff(Acts(acts, n), x, repeating) ==> x in out
    ensures Justified(moved, skipped + out, acts, n + 1, repeating)
  {
    var all := skipped + out;
    forall k: nat | k <= |moved|
      ensures Turn(moved, all, k) <= Turn(moved, skipped, k) && (k >= i ==> Turn(moved, all, k) >= n + 1)
      ensures k <= i ==> Turn(moved, all, k) == Turn(moved, skipped, k)
    {
      KeptTwice(moved[..k], skipped, out);
      if k <= i {
        assert forall x :: x in moved[..k] ==> x !in out;
        KeptOthers(moved[..k], skipped, out);
      } else {
        assert forall x :: x in moved[..i] ==> x !in out;
        KeptOthers(moved[..i], skipped, out);
        TurnMono(moved, all, i, k);
      }
    }
    forall k: nat | k < |moved| && moved[k] in all
      ensures Blamed(acts, n + 1, moved[k]) && Blamed(acts, Turn(moved, all, k), moved[k])
    {
      if moved[k] in out {
        assert k >= i;
        assert Names(Acts(acts, n), moved[k]);
      } else {
        Earlier(acts, n, moved[k]);
      }
    }
    forall k: nat, j: nat | k < |moved| && j < n + 1 && j < Turn(moved, all, k)
                            && TakesOff(Acts(acts, j), moved[k], repeating)
      ensures moved[k] in all
    {
      if j == n {
        assert k >= i;
        assert moved[k] in moved[i..];
      }
    }
  }

  lemma Earlier(acts: seq<seq<Action>>, n: nat, h: Handle)
    requires Blamed(acts, n, h)
    ensures forall m: nat :: n <= m ==> Blamed(acts, m, h)
  {
    var j: nat :| j < n && Names(Acts(acts, j), h);
    forall m: nat | n <= m
      ensures Blamed(acts, m, h)
    {
      assert j < m && Names(Acts(acts, j), h);
    }
  }

  lemma OneMoreAction(queue: seq<Handle>, out: set<Handle>, one: set<Handle>, all: set<Handle>)
    requires all == out + set x | x in one && x in queue
    ensures Kept(Kept(queue, out), one) == Kept(queue, all)
  {
    KeptTwice(queue, out, one);
    var inQueue := set x | x in one && x in queue;
    KeptTwice(queue, out, inQueue);
    var rest := one - inQueue;
    assert out + one == (out + inQueue) + rest;
    KeptOthers(queue, out + inQueue, rest);
  }

  lemma TakesOffNext(script: seq<Action>, i: nat, repeating: set<Handle>)
    requires i < |script|
    ensures forall x :: TakesOff(script[..i + 1], x, repeating) ==>
              TakesOff(script[..i], x, repeating) || (On(script[i], x) && Takes(script[i], x in repeating))
  {
    assert script[..i + 1] == script[..i] + [script[i]];
  }

  lemma NothingSkipped(moved: seq<Handle>, acts: seq<seq<Action>>, repeating: set<Handle>)
    ensures Justified(moved, {}, acts, 0, repeating)
  {
  }

  /** The next timer on the queue has the next turn. */
  lemma NextTurn(moved: seq<Handle>, skipped: set<Handle>, i: nat) returns (next: nat)
    requires Distinct(moved) && i <= |moved| && Kept(moved[i..], skipped) != []
    ensures i < next <= |moved| && moved[next - 1] == Kept(moved[i..], skipped)[0]
    ensures Kept(moved[next..], skipped) == Kept(moved[i..], skipped)[1..]
    ensures Kept(moved[..next], skipped) == Kept(moved[..i], skipped) + [moved[next - 1]]
    ensures moved[next - 1] !in Kept(moved[next..], skipped)
  {
    hide Kept, Distinct;
    var t := moved[i..];
    var j := KeptHead(t, skipped);
    next := i + j + 1;
    assert t[j + 1..] == moved[next..];
    assert moved[..next] == moved[..i] + (t[..j] + [t[j]]);
    KeptSplit(moved[..i], t[..j] + [t[j]], skipped);
    KeptSplit(t[..j], [t[j]], skipped);
    KeptOne(t[j], skipped);
    OnlyThere(moved, next - 1);
  }

  lemma KeptOne(h: Handle, out: set<Handle>)
    requires h !in out
    ensures Kept([h], out) == [h]
  {
  }

  lemma OnlyThere(s: seq<Handle>, i: nat)
    requires Distinct(s) && i < |s|
    ensures s[i] !in s[i + 1..] && s[i] !in s[..i]
  {
  }

  lemma TurnsBefore(moved: seq<Handle>, skipped: set<Handle>, i: nat)
    requires 0 < i <= |moved| && moved[i - 1] !in skipped
    ensures forall k: nat :: k < i ==> Turn(moved, skipped, k) < Turn(moved, skipped, i)
  {
    assert moved[..i] == moved[..i - 1] + [moved[i - 1]];
    KeptSplit(moved[..i - 1], [moved[i - 1]], skipped);
    forall k: nat | k < i
      ensures Turn(moved, skipped, k) < Turn(moved, skipped, i)
    {
      TurnMono(moved, skipped, k, i - 1);
    }
  }

  lemma ApartFrom(moved: seq<Handle>, i: nat, out: set<Handle>)
    requires Distinct(moved) && i <= |moved| && forall x :: x in out ==> x in moved[i..]
    ensures forall x :: x in moved[..i] ==> x !in out
  {
  }

  /** The head of a queue is not in the rest of it. */
  lemma FirstOut(s: seq<Handle>)
    requires Distinct(s) && s != []
    ensures Distinct(s[1..]) && s[0] !in s[1..] && s[0] in s && forall x :: x in s[1..] ==> x in s
  {
  }

  lemma NoneLeft(moved: seq<Handle>, i: nat, skipped: set<Handle>)
    requires i <= |moved| && Kept(moved[i..], skipped) == []
    ensures Kept(moved, skipped) == Kept(moved[..i], skipped)
  {
    assert moved == moved[..i] + moved[i..];
    KeptSplit(moved[..i], moved[i..], skipped);
  }

  ghost predicate Before(s: seq<Handle>, a: Handle, b: Handle) {
    exists i, j :: 0 <= i < j < |s| && s[i] == a && s[j] == b
  }

  /** Earlier timers come first. */
  ghost predicate Ascending(s: seq<Handle>)
    reads s`timeout, s`startId
  {
    forall i, j :: 0 <= i < j < |s| ==> Less(s[i], s[j])
  }

  lemma AscendingMeans(s: seq<Handle>)
    requires Ascending(s)
    ensures forall i, j :: 0 <= i < j < |s| ==>
              s[i].timeout < s[j].timeout || (s[i].timeout == s[j].timeout && s[i].startId < s[j].startId)
  {
    hide Less;
    forall i, j | 0 <= i < j < |s|
      ensures s[i].timeout < s[j].timeout || (s[i].timeout == s[j].timeout && s[i].startId < s[j].startId)
    {
      LessMeans(s[i], s[j]);
    }
  }

  lemma LessMeans(a: Handle, b: Handle)
    ensures Less(a, b) <==> a.timeout < b.timeout || (a.timeout == b.timeout && a.startId < b.startId)
  {
  }

  /** Who is before whom in a queue in order. */
  lemma CallOrder(s: seq<Handle>)
    requires forall i, j :: 0 <= i < j < |s| ==>
               s[i].timeout < s[j].timeout || (s[i].timeout == s[j].timeout && s[i].startId < s[j].startId)
    ensures forall a, b :: a in s && b in s ==>
              (Before(s, a, b) <==> a.timeout < b.timeout || (a.timeout == b.timeout && a.startId < b.startId))
  {
    forall a, b | a in s && b in s
      ensures Before(s, a, b) <==> a.timeout < b.timeout || (a.timeout == b.timeout && a.startId < b.startId)
    {
      var i :| 0 <= i < |s| && s[i] == a;
      var j :| 0 <= j < |s| && s[j] == b;
      if i < j {
        assert Before(s, s[i], s[j]);
      }
    }
  }

  /** Leaving some out does not change the order of the others. */
  lemma {:induction false} KeptOrder(s: seq<Handle>, out: set<Handle>)
    requires Distinct(s)
    ensures forall a, b :: a in Kept(s, out) && b in Kept(s, out) ==>
              (Before(Kept(s, out), a, b) <==> Before(s, a, b))
  {
    hide Before;
    if s != [] {
      FirstOut(s);
      KeptOrder(s[1..], out);
      var r := Kept(s[1..], out);
      forall a, b | a in Kept(s, out) && b in Kept(s, out)
        ensures Before(Kept(s, out), a, b) <==> Before(s, a, b)
      {
        BeforeCons(s[0], s[1..], a, b);
        assert s == [s[0]] + s[1..];
        BeforeCons(s[0], r, a, b);
      }
    }
  }

  lemma BeforeCons(x: Handle, s: seq<Handle>, a: Handle, b: Handle)
    requires x !in s
    ensures Before([x] + s, a, b) <==> (a == x && b in s) || Before(s, a, b)
    ensures Before(s, a, b) ==> a in s && b in s
  {
    var t := [x] + s;
    if Before(t, a, b) {
      var i, j :| 0 <= i < j < |t| && t[i] == a && t[j] == b;
      if i > 0 {
        assert s[i - 1] == a && s[j - 1] == b;
      }
    }
    if a == x && b in s {
      var j :| 0 <= j < |s| && s[j] == b;
      assert t[0] == a && t[j + 1] == b;
    }
    if Before(s, a, b) {
      var i, j :| 0 <= i < j < |s| && s[i] == a && s[j] == b;
      assert t[i + 1] == a && t[j + 1] == b;
    }
  }

  ghost predicate AllBefore(s: seq<Handle>, t: seq<Handle>)
    reads s`timeout, s`startId, t`timeout, t`startId
  {
    forall a, b :: a in s && b in t ==> Less(a, b)
  }

  /** With no two equal start counts, a least timer is before all others. */
  lemma StrictlyFirst(s: seq<Handle>, least: Handle)
    requires OwnIds(s) && least in s && forall i :: 0 <= i < |s| ==> !Less(s[i], least)
    ensures forall x :: x in s && x != least ==> Less(least, x)
  {
  }

  lemma AppendAscending(s: seq<Handle>, x: Handle)
    requires Ascending(s) && forall a :: a in s ==> Less(a, x)
    ensures Ascending(s + [x])
  {
  }

  lemma AppendDistinct(s: seq<Handle>, x: Handle)
    requires Distinct(s) && x !in s
    ensures Distinct(s + [x])
  {
  }

  lemma LaterThan(s: seq<Handle>, least: Handle)
    requires forall i :: 0 <= i < |s| ==> !Less(s[i], least)
    ensures forall x :: x in s ==> x.timeout >= least.timeout
  {
  }

  class Loop {
    const heap: Heap
    var time: nat
    var timerCounter: nat
    var ready: seq<Handle>
    ghost var handles: set<Handle>

    ghost predicate Valid()
      reads this, heap, handles
    {
      && (forall x :: x in heap.nodes ==> x in handles)
      && heap.Valid() && OwnIds(heap.nodes)
      && (forall h :: h in handles ==> (h.active <==> h in heap.nodes))
      && (forall h :: h in handles && h.active ==> h.startId < timerCounter)
      && Distinct(ready) && (forall x :: x in ready ==> x in handles && !x.active)
      && (forall h :: h in handles ==> h.repeatTime < TWO64)
      && (forall h :: h in handles && h.closing ==> !h.active && h !in ready)
      && |handles| < TWO32 - 1 && time < TWO64
    }

    constructor (handles: set<Handle>)
      requires |handles| < TWO32 - 1 && forall h :: h in handles ==> !h.active && h.repeatTime < TWO64
      ensures Valid() && this.handles == handles && heap.nodes == [] && ready == [] && fresh(heap)
    {
      heap := new Heap();
      time, timerCounter, ready := 0, 0, [];
      this.handles := handles;
    }

    /** Disarms a timer, or takes it off the ready queue. */
    method TimerStop(h: Handle)
      requires Valid() && h in handles
      modifies this`ready, heap, handles`left, handles`right, handles`parent, h`active
      ensures Valid() && !h.active
      ensures forall x :: x in heap.nodes <==> x in old(heap.nodes) && x != h
      ensures multiset(heap.nodes) == multiset(old(heap.nodes)) - multiset{h}
      ensures ready == Kept(old(ready), {h})
    {
      hide Heap.Valid, Distinct, Kept;
      KeptDistinct(ready, {h});
      if h.active {
        KeptAbsent(ready, h);
        heap.Remove(h);
        h.active := false;
      } else {
        ready := Without(ready, h);
        assert h !in multiset(heap.nodes);
      }
    }

    /** Arms a timer, from scratch if it is armed or ready already. */
    method TimerStart(h: Handle, callback: nat, timeout: nat, repeatTime: nat) returns (ok: bool)
      requires Valid() && h in handles && timeout < TWO64 && repeatTime < TWO64
      modifies this`ready, this`timerCounter, heap, handles`left, handles`right, handles`parent
      modifies h`active, h`timeout, h`startId, h`repeatTime, h`callback
      ensures Valid() && ok == (!old(h.closing) && callback != 0)
      ensures ok ==> h.active && h.timeout == Due(time, timeout) && h.repeatTime == repeatTime && h.callback == callback
      ensures ok && time + timeout < 0x1_0000_0000_0000_0000 ==> h.timeout == time + timeout
      ensures ok && time + timeout >= 0x1_0000_0000_0000_0000 ==> h.timeout == 0xFFFF_FFFF_FFFF_FFFF
      ensures ok ==> h.startId == old(timerCounter)
      ensures ok ==> forall x :: x in heap.nodes <==> x in old(heap.nodes) || x == h
      ensures ok ==> ready == Kept(old(ready), {h})
      ensures !ok ==> heap.nodes == old(heap.nodes) && ready == old(ready) && timerCounter == old(timerCounter)
      ensures !ok ==> unchanged(h)
    {
      if h.closing || callback == 0 {
        return false;
      }
      TimerStop(h);
      var clamped := U64(time + timeout);
      if clamped < timeout {
        clamped := TWO64 - 1;
      }
      Arm(h, callback, clamped, repeatTime);
      DueMeans(time, timeout);
      ok := true;
    }

    /** Puts a timer that is neither armed nor ready into the heap. */
    method Arm(h: Handle, callback: nat, clamped: nat, repeatTime: nat)
      requires Valid() && h in handles && !h.active && !h.closing && h !in ready && repeatTime < TWO64
      modifies this`timerCounter, heap, handles`left, handles`right, handles`parent
      modifies h`active, h`timeout, h`startId, h`repeatTime, h`callback
      ensures Valid() && h.active
      ensures h.timeout == clamped && h.repeatTime == repeatTime && h.callback == callback
      ensures h.startId == old(timerCounter)
      ensures forall x :: x in heap.nodes <==> x in old(heap.nodes) || x == h
    {
      Configure(h, callback, clamped, repeatTime);
      Enter(h);
    }

    method Configure(h: Handle, callback: nat, clamped: nat, repeatTime: nat)
      requires Valid() && h in handles && !h.active && repeatTime < TWO64
      modifies this`timerCounter, h`timeout, h`startId, h`repeatTime, h`callback
      ensures Valid() && timerCounter == old(timerCounter) + 1
      ensures h.timeout == clamped && h.repeatTime == repeatTime && h.callback == callback
      ensures h.startId == old(timerCounter)
    {
      hide Heap.Valid, Distinct, OwnIds;
      h.callback, h.timeout, h.repeatTime, h.startId := callback, clamped, repeatTime, timerCounter;
      timerCounter := timerCounter + 1;
    }

    method Enter(h: Handle)
      requires Valid() && h in handles && !h.active && !h.closing && h !in ready && h.startId == timerCounter - 1
      requires forall x :: x in heap.nodes ==> x.startId < h.startId
      modifies heap, handles`left, handles`right, handles`parent, h`active
      ensures Valid() && h.active
      ensures forall x :: x in heap.nodes <==> x in old(heap.nodes) || x == h
    {
      hide Heap.Valid, Distinct, OwnIds;
      ghost var nodes := heap.nodes;
      RoomForOne(heap, handles, h);
      heap.Insert(h);
      h.active := true;
      OwnMore(nodes, heap.nodes, h);
    }

    /** Restarts a repeating timer. */
    method TimerAgain(h: Handle) returns (ok: bool)
      requires Valid() && h in handles
      modifies this`ready, this`timerCounter, heap, handles`left, handles`right, handles`parent
      modifies h`active, h`timeout, h`startId, h`repeatTime, h`callback
      ensures Valid() && ok == (old(h.callback) != 0)
      ensures AfterAgain(old(StateOf(h)), StateOf(h), time)
      ensures ready == if Repeats(old(StateOf(h))) then Kept(old(ready), {h}) else old(ready)
      ensures forall x :: x in heap.nodes && x != h <==> x in old(heap.nodes) && x != h
    {
      if h.callback == 0 {
        return false;
      }
      if h.repeatTime != 0 {
        KeptTwice(ready, {h}, {h});
        assert {h} + {h} == {h};
        TimerStop(h);
        var started := TimerStart(h, h.callback, h.repeatTime, h.repeatTime);
      }
      ok := true;
    }

    ghost predicate Sane(a: Action)
      reads this`handles
    {
      if a.UpdateTime? then a.now < TWO64
      else
        && a.h in handles && (a.Start? ==> a.timeout < TWO64)
        && (a.Start? || a.SetRepeat? ==> a.repeatTime < TWO64)
    }

    /** Closes a timer for good. That it is closing is noted by the caller of the source's
        function, before. */
    method TimerClose(h: Handle)
      requires Valid() && h in handles
      modifies this`ready, heap, handles`left, handles`right, handles`parent, h`active, h`closing
      ensures Valid() && !h.active && h.closing && ready == Kept(old(ready), {h})
    {
      TimerStop(h);
      h.closing := true;
    }

    /** Another repeat time, from the next repetition on. */
    method TimerSetRepeat(h: Handle, repeatTime: nat)
      requires Valid() && h in handles && repeatTime < TWO64
      modifies h`repeatTime
      ensures Valid() && h.repeatTime == repeatTime
    {
      hide Heap.Valid, OwnIds, Distinct;
      h.repeatTime := repeatTime;
    }

    /** One thing a callback does. It has its effect on its timer and on no other. A ready
        timer leaves the queue, or stays as it is but for its repeat time; nothing is put on
        the queue. */
    method Perform(a: Action) returns (ghost out: set<Handle>)
      requires Valid() && Sane(a)
      modifies this`ready, this`timerCounter, this`time, heap, handles
      ensures Valid() && handles == old(handles)
      ensures time == if a.UpdateTime? then a.now else old(time)
      ensures ready == Kept(old(ready), out) && forall x :: x in out ==> On(a, x)
      ensures forall x :: x in old(ready) && On(a, x) ==> (x in out <==> Takes(a, Repeats(old(StateOf(x)))))
      ensures forall x :: x in ready && On(a, x) && !a.SetRepeat? ==> StateOf(x) == old(StateOf(x))
      ensures forall x :: x in handles && On(a, x) ==> AfterAction(a, old(StateOf(x)), StateOf(x), time)
      ensures forall x :: x in handles && !On(a, x) ==> StateOf(x) == old(StateOf(x))
    {
      hide Heap.Valid, OwnIds, Distinct, Kept, Due;
      KeptNone(ready);
      out := if a.UpdateTime? then {} else {a.h};
      match a {
        case Start(h, callback, timeout, repeatTime) =>
          var ok := TimerStart(h, callback, timeout, repeatTime);
          if !ok {
            out := {};
          }
        case Stop(h) =>
          TimerStop(h);
        case Again(h) =>
          if !Repeats(StateOf(h)) {
            out := {};
          }
          var ok := TimerAgain(h);
        case Close(h) =>
          TimerClose(h);
        case SetRepeat(h, repeatTime) =>
          out := {};
          TimerSetRepeat(h, repeatTime);
        case UpdateTime(now) =>
          time := now;
      }
    }

    /** Moves the timers that are due from the heap to the ready queue, earliest first. */
    method CollectReady()
      requires Valid() && ready == []
      modifies this`ready, heap, handles`left, handles`right, handles`parent, handles`active
      ensures Valid() && Ascending(ready)
      ensures forall i, j :: 0 <= i < j < |ready| ==>
                || ready[i].timeout < ready[j].timeout
                || (ready[i].timeout == ready[j].timeout && ready[i].startId < ready[j].startId)
      ensures forall x :: x in ready <==> x in old(heap.nodes) && x.timeout <= time
      ensures forall x :: x in heap.nodes <==> x in old(heap.nodes) && x.timeout > time
    {
      hide Heap.Valid, OwnIds, Distinct, Less;
      ghost var nodes := heap.nodes;
      while true
        invariant Valid() && Ascending(ready) && AllBefore(ready, heap.nodes)
        invariant forall x :: x in nodes <==> x in ready || x in heap.nodes
        invariant forall x :: x in ready ==> x.timeout <= time
        decreases |heap.nodes|
      {
        var least := heap.Min();
        if least == null {
          break;
        }
        if least.timeout > time {
          LaterThan(heap.nodes, least);
          break;
        }
        MoveToReady(least);
      }
      AscendingMeans(ready);
    }

    /** Moves the least timer of the heap to the end of the ready queue. */
    method MoveToReady(least: Handle)
      requires Valid() && Ascending(ready) && AllBefore(ready, heap.nodes)
      requires least in heap.nodes && forall i :: 0 <= i < |heap.nodes| ==> !Less(heap.nodes[i], least)
      modifies this`ready, heap, handles`left, handles`right, handles`parent, least`active
      ensures Valid() && Ascending(ready) && AllBefore(ready, heap.nodes)
      ensures ready == old(ready) + [least] && |heap.nodes| < |old(heap.nodes)|
      ensures forall x :: x in heap.nodes <==> x in old(heap.nodes) && x != least
    {
      hide Heap.Valid, OwnIds, Distinct, Less, Kept, Ascending;
      ghost var nodes := heap.nodes;
      StrictlyFirst(nodes, least);
      KeptAbsent(ready, least);
      TimerStop(least);
      assert least in multiset(nodes);
      assert |multiset(heap.nodes)| == |multiset(nodes)| - 1;
      PutLast(least);
    }

    method PutLast(h: Handle)
      requires Valid() && h in handles && !h.active && !h.closing && h !in ready
      requires Ascending(ready) && forall x :: x in ready ==> Less(x, h)
      modifies this`ready
      ensures Valid() && Ascending(ready) && ready == old(ready) + [h]
    {
      hide Heap.Valid, OwnIds, Distinct, Less, Ascending;
      AppendDistinct(ready, h);
      AppendAscending(ready, h);
      ready := ready + [h];
    }

    ghost predicate SaneScript(script: seq<Action>)
      reads this`handles
    {
      forall a :: a in script ==> Sane(a)
    }

    /** What a callback does, one thing after the other. The last are timers that repeat, and
        go on to. */
    method RunScript(script: seq<Action>, ghost steady: set<Handle>) returns (ghost out: set<Handle>)
      requires Valid() && SaneScript(script)
      requires forall x :: x in ready && x in steady ==> Repeats(StateOf(x)) && !SetIn(script, x)
      modifies this`ready, this`timerCounter, this`time, heap, handles
      ensures Valid() && handles == old(handles) && time == TimeAfter(script, old(time))
      ensures ready == Kept(old(ready), out)
      ensures forall x :: x in out ==> x in old(ready) && Names(script, x)
      ensures forall x :: x in old(ready) && TakesOff(script, x, steady) ==> x in out
      ensures forall x :: x in ready && !SetIn(script, x) ==> StateOf(x) == old(StateOf(x))
      ensures forall x :: x in handles && old(x.closing) ==> x.closing
      ensures forall x :: x in handles && !Names(script, x) ==> StateOf(x) == old(StateOf(x))
    {
      hide Heap.Valid, OwnIds, Distinct, Kept, Repeats, TimeAfter;
      ghost var queue := ready;
      KeptNone(ready);
      out := {};
      TimeNone(script, time);
      for i := 0 to |script|
        invariant Valid() && handles == old(handles) && ready == Kept(queue, out)
        invariant time == TimeAfter(script[..i], old(time))
        invariant forall x :: x in out ==> x in queue && Names(script, x)
        invariant forall x :: x in queue && TakesOff(script[..i], x, steady) ==> x in out
        invariant forall x :: x in ready && !SetIn(script, x) ==> StateOf(x) == old(StateOf(x))
        invariant forall x :: x in handles && old(x.closing) ==> x.closing
        invariant forall x :: x in handles && !Names(script, x) ==> StateOf(x) == old(StateOf(x))
      {
        ghost var one := Perform(script[i]);
        assert script[i] in script;
        ghost var before := out;
        out := out + set x | x in one && x in queue;
        OneMoreAction(queue, before, one, out);
        TakesOffNext(script, i, steady);
        TimeNext(script, i, old(time));
      }
      assert script[..|script|] == script;
    }

    /** Runs one callback: a repeating timer is armed again first, then the callback does
        what it likes. The result is what it took off the ready queue. */
    method RunCallback(h: Handle, script: seq<Action>, ghost steady: set<Handle>) returns (ghost out: set<Handle>)
      requires Valid() && h in handles && h !in ready && SaneScript(script)
      requires forall x :: x in ready && x in steady ==> Repeats(StateOf(x)) && !SetIn(script, x)
      modifies this`ready, this`timerCounter, this`time, heap, handles
      ensures Valid() && handles == old(handles) && time == TimeAfter(script, old(time))
      ensures ready == Kept(old(ready), out)
      ensures forall x :: x in out ==> x in old(ready) && Names(script, x)
      ensures forall x :: x in old(ready) && TakesOff(script, x, steady) ==> x in out
      ensures forall x :: x in ready && !SetIn(script, x) ==> StateOf(x) == old(StateOf(x))
      ensures forall x :: x in handles && old(x.closing) ==> x.closing
      ensures forall x :: x in handles && x != h && !Names(script, x) ==> StateOf(x) == old(StateOf(x))
      ensures !Names(script, h) ==> AfterAgain(old(StateOf(h)), StateOf(h), old(time))
    {
      hide Heap.Valid, OwnIds, Distinct, Kept, Repeats, TakesOff;
      KeptNone(ready);
      KeptAbsent(ready, h);
      var again := TimerAgain(h);
      out := RunScript(script, steady);
    }

    /** The state between two callbacks: position i of the due timers is next. */
    ghost predicate Running(moved: seq<Handle>, skipped: set<Handle>, i: nat, acts: seq<seq<Action>>, ran: seq<Handle>,
                            repeating: set<Handle>)
      reads this`ready
    {
      && Distinct(moved) && i <= |moved| && (forall x :: x in skipped ==> x in moved)
      && ready == Kept(moved[i..], skipped) && ran == Kept(moved[..i], skipped)
      && Justified(moved, skipped, acts, |ran|, repeating)
    }

    /** Takes the next timer off the ready queue and calls it back. */
    method RunNext(acts: seq<seq<Action>>, ran: seq<Handle>, ghost moved: seq<Handle>, ghost skipped: set<Handle>,
                   ghost i: nat, ghost steady: set<Handle>)
      returns (nowRan: seq<Handle>, ghost nowSkipped: set<Handle>, ghost next: nat)
      requires Valid() && ready != [] && Running(moved, skipped, i, acts, ran, steady)
      requires forall x :: x in ready && x in steady ==> Repeats(StateOf(x)) && !Reset(acts, x)
      requires forall j :: 0 <= j < |acts| ==> SaneScript(acts[j])
      modifies this`ready, this`timerCounter, this`time, heap, handles
      ensures Valid() && handles == old(handles) && |ready| < |old(ready)|
      ensures time == TimeAfter(Acts(acts, |ran|), old(time))
      ensures Running(moved, nowSkipped, next, acts, nowRan, steady)
      ensures forall x :: x in ready && x in steady ==> Repeats(StateOf(x)) && !Reset(acts, x)
      ensures forall x :: x in handles && old(x.closing) ==> x.closing
      ensures nowRan == ran + [old(ready[0])] && old(ready[0]) in handles && old(ready[0]) !in ran
      ensures forall x :: x in handles && x != old(ready[0]) && Unnamed(acts, x) ==> StateOf(x) == old(StateOf(x))
      ensures Unnamed(acts, old(ready[0])) ==> AfterAgain(old(StateOf(ready[0])), StateOf(old(ready[0])), old(time))
    {
      hide Heap.Valid, OwnIds, Less, Justified, Names, TakesOff, SetIn, TimeAfter, Distinct, Kept;
      var h := ready[0];
      next := NextTurn(moved, skipped, i);
      ghost var queue := ready[1..];
      FirstOut(ready);
      ready := ready[1..];
      ghost var out := RunCallback(h, Acts(acts, |ran|), steady);
      NotYet(moved, skipped, i, next);
      TurnsBefore(moved, skipped, next);
      OneMoreCallback(moved, skipped, acts, |ran|, next, out, steady);
      KeptTwice(moved[next..], skipped, out);
      ApartFrom(moved, next, out);
      KeptOthers(moved[..next], skipped, out);
      nowRan := ran + [h];
      nowSkipped := skipped + out;
    }

    /** Timers that repeat, and that no callback gives another repeat time. */
    ghost function Steady(acts: seq<seq<Action>>): set<Handle>
      reads this`handles, handles
    {
      set h | h in handles && Repeats(StateOf(h)) && !Reset(acts, h)
    }

    /** Calls the ready timers back, one after the other. */
    method RunReady(acts: seq<seq<Action>>) returns (ghost skipped: set<Handle>, ran: seq<Handle>)
      requires Valid() && forall j :: 0 <= j < |acts| ==> SaneScript(acts[j])
      modifies this`ready, this`timerCounter, this`time, heap, handles
      ensures Valid() && ready == [] && handles == old(handles) && time == TimeBefore(acts, |ran|, old(time))
      ensures ran == Kept(old(ready), skipped) && forall x :: x in skipped ==> x in old(ready)
      ensures Justified(old(ready), skipped, acts, |ran|, old(Steady(acts)))
      ensures forall x :: x in handles && old(x.closing) ==> x.closing
      ensures forall j: nat :: j < |ran| && Unnamed(acts, ran[j]) ==>
                && ran[j] in handles
                && AfterAgain(old(StateOf(ran[j])), StateOf(ran[j]), TimeBefore(acts, j, old(time)))
      ensures forall x :: x in handles && Unnamed(acts, x) ==>
                if x in old(ready) then x in ran else StateOf(x) == old(StateOf(x))
    {
      hide Heap.Valid, OwnIds, Less, Justified, Kept, Distinct, Takes, Unnamed, Reset, TimeAfter;
      hide TimeBefore, AfterAgain;
      StartTime(acts, time);
      ghost var moved, i, steady := ready, 0, Steady(acts);
      skipped, ran := {}, [];
      assert moved[0..] == moved && moved[..0] == [];
      KeptNone(moved);
      KeptNone([]);
      NothingSkipped(moved, acts, steady);
      while ready != []
        invariant Valid() && handles == old(handles) && 0 <= i && Running(moved, skipped, i, acts, ran, steady)
        invariant time == TimeBefore(acts, |ran|, old(time))
        invariant forall x :: x in ready && x in steady ==> Repeats(StateOf(x)) && !Reset(acts, x)
        invariant forall x :: x in handles && old(x.closing) ==> x.closing
        invariant forall j: nat :: j < |ran| && Unnamed(acts, ran[j]) ==>
                    && ran[j] in handles
                    && AfterAgain(old(StateOf(ran[j])), StateOf(ran[j]), TimeBefore(acts, j, old(time)))
        invariant forall x :: x in handles && Unnamed(acts, x) && x !in ran ==> StateOf(x) == old(StateOf(x))
        decreases |ready|
      {
        NextTime(acts, |ran|, old(time));
        ran, skipped, i := RunNext(acts, ran, moved, skipped, i, steady);
      }
      NoneLeft(moved, i, skipped);
      OnlyNamed(moved, skipped, acts, |ran|, steady);
    }

    /** Runs the timers that are due: first all of them leave the heap, earliest first, then
        their callbacks run in that order, skipping those that an earlier callback took
        off. */
    method RunTimers(acts: seq<seq<Action>>)
      returns (ghost moved: seq<Handle>, ghost skipped: set<Handle>, ran: seq<Handle>)
      requires Valid() && ready == []
      requires forall j :: 0 <= j < |acts| ==> SaneScript(acts[j])
      modifies this`ready, this`timerCounter, this`time, heap, handles
      ensures Valid() && ready == [] && handles == old(handles) && time == TimeBefore(acts, |ran|, old(time))
      ensures forall x :: x in moved <==> x in old(heap.nodes) && old(x.timeout <= time)
      ensures Distinct(moved)
      ensures forall a, b :: a in moved && b in moved ==>
                (Before(moved, a, b)
                 <==> old(a.timeout) < old(b.timeout)
                      || (old(a.timeout) == old(b.timeout) && old(a.startId) < old(b.startId)))
      ensures forall a, b :: a in ran && b in ran ==> (Before(ran, a, b) <==> Before(moved, a, b))
      ensures ran == Kept(moved, skipped) && forall x :: x in skipped ==> x in moved
      ensures Justified(moved, skipped, acts, |ran|, old(Steady(acts)))
      ensures forall x :: x in handles && old(x.closing) ==> x.closing && !x.active
      ensures forall x :: x in handles && Unnamed(acts, x) ==>
                if x in moved then x in ran else StateOf(x) == old(StateOf(x))
      ensures forall j: nat :: j < |ran| && Unnamed(acts, ran[j]) ==>
                && ran[j] in handles
                && AfterAgain(old(StateOf(ran[j])).(active := false), StateOf(ran[j]), TimeBefore(acts, j, old(time)))
    {
      hide Heap.Valid, OwnIds, Less, Justified, Kept, Distinct, Takes, Unnamed, Reset, TimeBefore, Before;
      CollectReady();
      moved := ready;
      CallOrder(moved);
      assert Steady(acts) == old(Steady(acts));
      skipped, ran := RunReady(acts);
      KeptOrder(moved, skipped);
    }

    /** Two timers that are started one after the other to be due at the same time: the one
        started first is called first, whatever happens to their heap in between. */
    method CalledInOrder(a: Handle, b: Handle, callback: nat, timeout: nat, now: nat, acts: seq<seq<Action>>)
      returns (ghost moved: seq<Handle>, ghost skipped: set<Handle>, ran: seq<Handle>)
      requires Valid() && ready == [] && a in handles && b in handles && a != b
      requires !a.closing && !b.closing && callback != 0
      requires time + timeout <= now < TWO64 && forall j :: 0 <= j < |acts| ==> SaneScript(acts[j])
      modifies this`ready, this`timerCounter, this`time, heap, handles
      ensures Before(moved, a, b) && !Before(moved, b, a)
      ensures ran == Kept(moved, skipped) && (a in ran && b in ran ==> Before(ran, a, b))
    {
      hide Heap.Valid, OwnIds, Distinct, Kept, Justified, Before;
      KeptNil({a});
      KeptNil({b});
      var first := TimerStart(a, callback, timeout, 0);
      var second := TimerStart(b, callback, timeout, 0);
      time := now;
      moved, skipped, ran := RunTimers(acts);
    }

    /** A timer that nothing touches runs as soon as the loop's time has come to the time it
        was started for, not before; afterwards it is off, or armed again for its repeat time
        from then on. Times end at the last 64-bit number. */
    method DueThen(a: Handle, callback: nat, timeout: nat, repeatTime: nat, now: nat)
      returns (ghost moved: seq<Handle>, ghost skipped: set<Handle>, ran: seq<Handle>)
      requires Valid() && ready == [] && a in handles && !a.closing && callback != 0
      requires timeout < TWO64 && repeatTime < TWO64 && now < TWO64
      modifies this`ready, this`timerCounter, this`time, heap, handles
      ensures a in ran <==> now >= old(time) + timeout || now == 0xFFFF_FFFF_FFFF_FFFF
      ensures a.active <==> a !in ran || repeatTime != 0
      ensures a in ran && 0 < repeatTime && now + repeatTime <= 0xFFFF_FFFF_FFFF_FFFF ==> a.timeout == now + repeatTime
      ensures a in ran && 0 < repeatTime && now + repeatTime > 0xFFFF_FFFF_FFFF_FFFF
              ==> a.timeout == 0xFFFF_FFFF_FFFF_FFFF
      ensures a.callback == callback && a.repeatTime == repeatTime && !a.closing
    {
      hide Heap.Valid, OwnIds, Distinct, Justified, Before;
      KeptNil({a});
      var started := TimerStart(a, callback, timeout, repeatTime);
      time := now;
      NothingNamed(a);
      moved, skipped, ran := RunTimers([]);
      if a in ran {
        var j :| 0 <= j < |ran| && ran[j] == a;
        NoTimePasses(j, now);
      }
    }

    /** How long to wait for the next timer: -1 for ever, 0 not at all, and never longer
        than the poll call can express. */
    method NextTimeout() returns (wait: int)
      requires Valid()
      ensures wait == -1 <==> heap.nodes == []
      ensures wait == 0 <==> exists h :: h in heap.nodes && h.timeout <= time
      ensures wait > 0 ==> forall h :: h in heap.nodes ==> time + wait <= h.timeout
      ensures wait > 0 && wait < INT_MAX ==> exists h :: h in heap.nodes && h.timeout == time + wait
      ensures -1 <= wait <= INT_MAX
    {
      var least := heap.Min();
      if least == null {
        return -1;
      }
      if least.timeout <= time {
        return 0;
      }
      var diff := least.timeout - time;
      if diff > INT_MAX {
        diff := INT_MAX;
      }
      wait := diff;
    }
  }

  /** The next timer has not run yet. */
  lemma NotYet(moved: seq<Handle>, skipped: set<Handle>, i: nat, next: nat)
    requires Distinct(moved) && i < next <= |moved|
    ensures moved[next - 1] !in Kept(moved[..i], skipped)
  {
    OnlyThere(moved, next - 1);
    assert moved[..i] == moved[..next - 1][..i];
  }

  /** A timer that no callback names is not skipped. */
  lemma OnlyNamed(moved: seq<Handle>, skipped: set<Handle>, acts: seq<seq<Action>>, bound: nat, repeating: set<Handle>)
    requires Justified(moved, skipped, acts, bound, repeating)
    ensures forall x :: x in moved && Unnamed(acts, x) ==> x in Kept(moved, skipped)
  {
    forall x | x in moved && Unnamed(acts, x)
      ensures x !in skipped
    {
      var k: nat :| k < |moved| && moved[k] == x;
      assert x in skipped ==> Blamed(acts, bound, moved[k]);
    }
  }

  lemma NothingNamed(h: Handle)
    ensures Unnamed([], h)
  {
  }

  lemma {:induction false} NoTimePasses(j: nat, time: nat)
    ensures TimeBefore([], j, time) == time
  {
    if j > 0 {
      NoTimePasses(j - 1, time);
    }
  }

  lemma KeptNil(out: set<Handle>)
    ensures Kept([], out) == []
  {
  }

  lemma KeptAbsent(s: seq<Handle>, x: Handle)
    requires x !in s
    ensures Kept(s, {x}) == s
  {
    KeptNone(s);
    KeptOthers(s, {}, {x});
    assert {} + {x} == {x};
  }

  lemma {:induction false} KeptNone(s: seq<Handle>)
    ensures Kept(s, {}) == s
  {
    if s != [] {
      KeptNone(s[1..]);
    }
  }

  /** A handle that is not armed leaves room in the heap. */
  lemma RoomForOne(heap: Heap, all: set<Handle>, h: Handle)
    requires heap.Valid() && h !in heap.nodes && |all| < TWO32 - 1 && forall x :: x in heap.nodes ==> x in all
    ensures |heap.nodes| + 1 < TWO32
  {
    FewerThan(heap.nodes, all);
  }

  /** Takes a handle off a queue. */
  method Without(s: seq<Handle>, h: Handle) returns (r: seq<Handle>)
    ensures r == Kept(s, {h})
  {
    r := [];
    for i := 0 to |s|
      invariant r == Kept(s[..i], {h})
    {
      KeptSplit(s[..i], [s[i]], {h});
      assert s[..i] + [s[i]] == s[..i + 1];
      if s[i] != h {
        r := r + [s[i]];
      }
    }
    assert s[..|s|] == s;
  }
}
