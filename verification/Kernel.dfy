/** synch.cc, thread.cc, scheduler.cc: semaphores and the ready list, as classes and as the step
    system those classes implement. Every step runs with interrupts off, so it is atomic. A thread that
    V takes off a semaphore's queue has not yet passed P: it tests the value again when it next runs. */
module Kernel {
  import opened Common

  type Tid = nat
  datatype Status = JustCreated | Running | Ready | Blocked

  // ---------------------------------------------------------------- what the operations do

  datatype Sem = Sem(value: nat, queue: seq<Tid>)

  /** V: the first waiter, if any, leaves the queue, and the value goes up by one. */
  function AfterV(s: Sem): Sem {
    Sem(s.value + 1, if s.queue == [] then [] else s.queue[1..])
  }

  function Woken(s: Sem): seq<Tid> {
    if s.queue == [] then [] else [s.queue[0]]
  }

  /** One pass of the loop in P by thread t: take a unit, or join the queue and sleep. */
  function AfterP(s: Sem, t: Tid): Sem {
    if s.value == 0 then Sem(0, s.queue + [t]) else Sem(s.value - 1, s.queue)
  }

  class Scheduler {
    var currentThread: Tid
    var readyList: seq<Tid>
    var status: map<Tid, Status>

    constructor (main: Tid)
      ensures currentThread == main && readyList == [] && status == map[main := Running]
    {
      currentThread, readyList, status := main, [], map[main := Running];
    }

    method ReadyToRun(thread: Tid)
      modifies this`readyList, this`status
      ensures readyList == old(readyList) + [thread]
      ensures status == old(status)[thread := Ready]
    {
      status := status[thread := Ready];
      readyList := readyList + [thread];
    }

    method FindNextToRun() returns (next: Option<Tid>)
      modifies this`readyList
      ensures next == if old(readyList) == [] then None else Some(old(readyList)[0])
      ensures readyList == if old(readyList) == [] then [] else old(readyList)[1..]
    {
      if readyList == [] {
        return None;
      }
      next := Some(readyList[0]);
      readyList := readyList[1..];
    }

    method Run(nextThread: Tid)
      modifies this`currentThread, this`status
      ensures currentThread == nextThread && status == old(status)[nextThread := Running]
    {
      currentThread := nextThread;
      status := status[nextThread := Running];
    }

    /** Thread::Fork: the new thread goes to the end of the ready list. */
    method Fork(thread: Tid)
      modifies this`readyList, this`status
      ensures readyList == old(readyList) + [thread] && status == old(status)[thread := Ready]
    {
      ReadyToRun(thread);
    }

    /** Thread::Yield: the first ready thread runs and the caller goes to the end of the list;
        with nobody ready the caller keeps running. */
    method Yield()
      modifies this
      ensures old(readyList) == [] ==> unchanged(this)
      ensures old(readyList) != [] ==> currentThread == old(readyList)[0]
      ensures old(readyList) != [] ==> readyList == old(readyList)[1..] + [old(currentThread)]
      ensures old(readyList) != [] ==> status == old(status)[old(currentThread) := Ready][currentThread := Running]
    {
      var nextThread := FindNextToRun();
      if nextThread.Some? {
        ReadyToRun(currentThread);
        Run(nextThread.value);
      }
    }

    /** One turn of the loop in Thread::Sleep (the caller has given up the processor): the first ready
        thread runs, or there is none and the machine idles until an interrupt. */
    method Sleep() returns (dispatched: bool)
      modifies this
      ensures dispatched == (old(readyList) != [])
      ensures !dispatched ==> currentThread == old(currentThread) && readyList == []
      ensures !dispatched ==> status == old(status)[currentThread := Blocked]
      ensures dispatched ==> currentThread == old(readyList)[0] && readyList == old(readyList)[1..]
      ensures dispatched ==> status == old(status)[old(currentThread) := Blocked][currentThread := Running]
    {
      status := status[currentThread := Blocked];
      var nextThread := FindNextToRun();
      if nextThread.Some? {
        Run(nextThread.value);
        return true;
      }
      return false;
    }
  }

  class Semaphore {
    var value: nat
    var queue: seq<Tid>

    ghost function Abs(): Sem reads this {
      Sem(value, queue)
    }

    constructor (initialValue: nat)
      ensures Abs() == Sem(initialValue, [])
    {
      value, queue := initialValue, [];
    }

    method V(scheduler: Scheduler)
      modifies this, scheduler`readyList, scheduler`status
      ensures Abs() == AfterV(old(Abs()))
      ensures scheduler.readyList == old(scheduler.readyList) + Woken(old(Abs()))
      ensures scheduler.status ==
        if old(queue) == [] then old(scheduler.status) else old(scheduler.status)[old(queue)[0] := Ready]
    {
      if queue != [] {
        var thread := queue[0];
        queue := queue[1..];
        scheduler.ReadyToRun(thread);
      }
      value := value + 1;
    }

    /** One pass of P's loop by the running thread: it goes through, or it queues up and sleeps. */
    method P(scheduler: Scheduler) returns (passed: bool, dispatched: bool)
      modifies this, scheduler
      ensures Abs() == AfterP(old(Abs()), old(scheduler.currentThread))
      ensures passed == (old(value) > 0)
      ensures passed ==> !dispatched && unchanged(scheduler)
      ensures !passed ==> dispatched == (old(scheduler.readyList) != [])
      ensures !passed && dispatched ==>
        scheduler.currentThread == old(scheduler.readyList)[0] && scheduler.readyList == old(scheduler.readyList)[1..]
      ensures !passed && dispatched ==>
        scheduler.status ==
          old(scheduler.status)[old(scheduler.currentThread) := Blocked][scheduler.currentThread := Running]
      ensures !passed && !dispatched ==> scheduler.readyList == []
      ensures !passed && !dispatched ==> scheduler.currentThread == old(scheduler.currentThread)
      ensures !passed && !dispatched ==> scheduler.status == old(scheduler.status)[scheduler.currentThread := Blocked]
    {
      dispatched := false;
      if value == 0 {
        queue := queue + [scheduler.currentThread];
        dispatched := scheduler.Sleep();
        return false, dispatched;
      }
      value := value - 1;
      return true, dispatched;
    }
  }

  // ---------------------------------------------------------------- the step system

  /** current: the running thread, None while the machine idles inside Sleep. retest: the threads V has
      removed from a queue that have not tested that semaphore's value since. vs, ps: completed calls. */
  datatype KState = KState(
    current: Option<Tid>, ready: seq<Tid>, sems: seq<Sem>,
    retest: map<Tid, nat>, live: set<Tid>, initial: seq<nat>, vs: seq<nat>, ps: seq<nat>)

  /** HandlerV: an interrupt handler calls V, on behalf of no thread. Wake: the loop in Sleep finds a thread. */
  datatype Act = P(s: nat) | V(s: nat) | HandlerV(s: nat) | Yield | Fork(t: Tid) | Finish | Wake

  /** A thread that must test again can do nothing else, and no interrupt is taken before it does. */
  predicate Enabled(k: KState, a: Act) {
    match a
    case P(s) => k.current.Some? && s < |k.sems| && (k.current.value in k.retest ==> k.retest[k.current.value] == s)
    case V(s) => k.current.Some? && s < |k.sems| && k.current.value !in k.retest
    case HandlerV(s) => s < |k.sems| && (k.current.Some? ==> k.current.value !in k.retest)
    case Yield => k.current.Some? && k.current.value !in k.retest
    case Fork(t) => k.current.Some? && k.current.value !in k.retest && t !in k.live
    case Finish => k.current.Some? && k.current.value !in k.retest
    case Wake => k.current.None? && k.ready != []
  }

  function Dispatch(k: KState): KState {
    if k.ready == [] then k.(current := None) else k.(current := Some(k.ready[0]), ready := k.ready[1..])
  }

  function StepV(k: KState, s: nat): KState
    requires s < |k.sems| == |k.vs|
  {
    k.(sems := k.sems[s := AfterV(k.sems[s])],
       ready := k.ready + Woken(k.sems[s]),
       retest := if k.sems[s].queue == [] then k.retest else k.retest[k.sems[s].queue[0] := s],
       vs := k.vs[s := k.vs[s] + 1])
  }

  function Step(k: KState, a: Act): KState
    requires Enabled(k, a) && |k.vs| == |k.ps| == |k.sems|
  {
    match a
    case P(s) =>
      var t := k.current.value;
      var k1 := k.(sems := k.sems[s := AfterP(k.sems[s], t)], retest := k.retest - {t});
      if k.sems[s].value == 0 then Dispatch(k1) else k1.(ps := k.ps[s := k.ps[s] + 1])
    case V(s) => StepV(k, s)
    case HandlerV(s) => StepV(k, s)
    case Yield =>
      if k.ready == [] then k
      else k.(current := Some(k.ready[0]), ready := k.ready[1..] + [k.current.value])
    case Fork(t) => k.(ready := k.ready + [t], live := k.live + {t})
    case Finish => Dispatch(k.(live := k.live - {k.current.value}))
    case Wake => Dispatch(k)
  }

  // ---------------------------------------------------------------- the invariant

  function Queues(sems: seq<Sem>): multiset<Tid> {
    if sems == [] then multiset{} else Queues(sems[..|sems| - 1]) + multiset(sems[|sems| - 1].queue)
  }

  /** Where threads are: running, on the ready list, or on a semaphore's queue, with repetitions. */
  function Places(k: KState): multiset<Tid> {
    (if k.current.Some? then multiset{k.current.value} else multiset{}) + multiset(k.ready) + Queues(k.sems)
  }

  /** The threads that owe semaphore s a test. */
  function Retesting(k: KState, s: nat): set<Tid> {
    set t | t in k.retest && k.retest[t] == s
  }

  predicate Sized(k: KState) {
    |k.initial| == |k.vs| == |k.ps| == |k.sems|
  }

  /** Every live thread is in exactly one place, and nobody else is anywhere. */
  ghost predicate OnePlace(k: KState) {
    forall t :: Places(k)[t] == if t in k.live then 1 else 0
  }

  /** A thread that owes a test is running or ready. */
  predicate TestersCanRun(k: KState) {
    forall t :: t in k.retest ==> k.current == Some(t) || t in k.ready
  }

  predicate Conserved(k: KState)
    requires Sized(k)
  {
    forall s :: 0 <= s < |k.sems| ==> k.sems[s].value + k.ps[s] == k.initial[s] + k.vs[s]
  }

  predicate NothingLost(k: KState) {
    forall s :: 0 <= s < |k.sems| ==> k.sems[s].queue != [] ==> k.sems[s].value <= |Retesting(k, s)|
  }

  ghost predicate KInv(k: KState) {
    Sized(k) && OnePlace(k) && TestersCanRun(k) && Conserved(k) && NothingLost(k)
  }

  lemma {:induction false} QueuesUpdate(sems: seq<Sem>, s: nat, x: Sem, t: Tid)
    requires s < |sems|
    ensures Queues(sems[s := x])[t] + multiset(sems[s].queue)[t] == Queues(sems)[t] + multiset(x.queue)[t]
  {
    var n := |sems| - 1;
    if s < n {
      assert sems[s := x][..n] == sems[..n][s := x] && sems[s := x][n] == sems[n];
      QueuesUpdate(sems[..n], s, x, t);
    } else {
      assert sems[s := x][..n] == sems[..n];
    }
  }

  lemma {:induction false} InQueues(sems: seq<Sem>, s: nat, t: Tid)
    requires s < |sems| && t in sems[s].queue
    ensures t in Queues(sems)
  {
    var n := |sems| - 1;
    if s < n { InQueues(sems[..n], s, t); }
  }

  lemma HeadOfReady(ready: seq<Tid>)
    requires ready != []
    ensures multiset(ready) == multiset{ready[0]} + multiset(ready[1..])
  {
    assert ready == [ready[0]] + ready[1..];
  }

  /** A thread waiting on a queue owes no test. */
  lemma WaiterOwesNothing(k: KState, s: nat, t: Tid)
    requires KInv(k) && s < |k.sems| && t in k.sems[s].queue
    ensures t !in k.retest
  {
    InQueues(k.sems, s, t);
    assert Places(k)[t] == 1;
    assert t !in multiset(k.ready);
  }

  // ---------------------------------------------------------------- every step keeps it

  lemma VKeepsPlaces(k: KState, s: nat)
    requires Sized(k) && s < |k.sems|
    ensures Places(StepV(k, s)) == Places(k)
  {
    var n := StepV(k, s);
    var q := k.sems[s].queue;
    if q != [] { HeadOfReady(q); }
    forall t ensures Places(n)[t] == Places(k)[t] {
      QueuesUpdate(k.sems, s, AfterV(k.sems[s]), t);
      assert multiset(n.ready)[t] == multiset(k.ready)[t] + multiset(Woken(k.sems[s]))[t];
    }
  }

  lemma VLosesNothing(k: KState, s: nat)
    requires KInv(k) && s < |k.sems|
    ensures NothingLost(StepV(k, s))
  {
    hide Places, Queues;
    var n := StepV(k, s);
    if k.sems[s].queue != [] {
      var h := k.sems[s].queue[0];
      WaiterOwesNothing(k, s, h);
      assert Retesting(n, s) == Retesting(k, s) + {h};
      assert forall r :: 0 <= r < |k.sems| && r != s ==> Retesting(n, r) == Retesting(k, r);
    } else {
      assert forall r :: 0 <= r < |k.sems| ==> Retesting(n, r) == Retesting(k, r);
    }
  }

  lemma VKeeps(k: KState, s: nat)
    requires KInv(k) && s < |k.sems|
    ensures KInv(StepV(k, s))
  {
    hide Places, Queues, NothingLost;
    VKeepsPlaces(k, s);
    VLosesNothing(k, s);
    assert OnePlace(StepV(k, s));
  }

  lemma ReadyAfterDispatch(k: KState, u: Tid)
    requires u in k.ready
    ensures Dispatch(k).current == Some(u) || u in Dispatch(k).ready
  {
  }

  /** The running thread t, still counted among the places of k, leaves the processor for good or for a queue. */
  lemma DispatchKeeps(k: KState, t: Tid)
    requires Sized(k) && Conserved(k) && NothingLost(k) && k.current == Some(t)
    requires forall u :: (Places(k) - multiset{t})[u] == if u in k.live then 1 else 0
    requires forall u :: u in k.retest ==> u in k.ready
    ensures KInv(Dispatch(k))
  {
    hide Places, Queues, Conserved;
    var n := Dispatch(k);
    DispatchPlaces(k, t);
    forall u | u in k.retest ensures n.current == Some(u) || u in n.ready {
      ReadyAfterDispatch(k, u);
    }
    assert forall s :: 0 <= s < |k.sems| ==> Retesting(n, s) == Retesting(k, s);
    DispatchConserves(k);
  }

  lemma DispatchPlaces(k: KState, t: Tid)
    requires k.current == Some(t)
    ensures Places(Dispatch(k)) == Places(k) - multiset{t}
  {
    hide Queues;
    if k.ready != [] { HeadOfReady(k.ready); }
  }

  lemma DispatchConserves(k: KState)
    requires Sized(k) && Conserved(k)
    ensures Sized(Dispatch(k)) && Conserved(Dispatch(k))
  {
  }

  lemma PLosesNothing(k: KState, k1: KState, s: nat)
    requires KInv(k) && Enabled(k, P(s)) && Sized(k1)
    requires k1.sems == k.sems[s := AfterP(k.sems[s], k.current.value)] && k1.retest == k.retest - {k.current.value}
    ensures NothingLost(k1)
  {
    hide Places, Queues;
    var t := k.current.value;
    assert forall r :: 0 <= r < |k.sems| ==> Retesting(k1, r) == Retesting(k, r) - {t};
    assert forall r :: 0 <= r < |k.sems| && r != s ==> t !in Retesting(k, r);
    assert |Retesting(k, s) - {t}| >= |Retesting(k, s)| - 1;
  }

  lemma PBlocks(k: KState, s: nat)
    requires KInv(k) && Enabled(k, P(s)) && k.sems[s].value == 0
    ensures KInv(Step(k, P(s)))
  {
    var t := k.current.value;
    var k1 := k.(sems := k.sems[s := AfterP(k.sems[s], t)], retest := k.retest - {t});
    PLosesNothing(k, k1, s);
    forall u ensures Places(k1)[u] == Places(k)[u] + multiset{t}[u] {
      QueuesUpdate(k.sems, s, AfterP(k.sems[s], t), u);
    }
    hide Places, NothingLost;
    DispatchKeeps(k1, t);
  }

  lemma PPasses(k: KState, s: nat)
    requires KInv(k) && Enabled(k, P(s)) && k.sems[s].value > 0
    ensures KInv(Step(k, P(s)))
  {
    var n := Step(k, P(s));
    PLosesNothing(k, n, s);
    forall u ensures Places(n)[u] == Places(k)[u] {
      QueuesUpdate(k.sems, s, AfterP(k.sems[s], k.current.value), u);
    }
    hide Places, NothingLost;
    assert OnePlace(n);
  }

  lemma SameRetests(k: KState, n: KState)
    requires NothingLost(k) && n.sems == k.sems && n.retest == k.retest
    ensures NothingLost(n)
  {
  }

  lemma YieldKeeps(k: KState)
    requires KInv(k) && Enabled(k, Yield)
    ensures KInv(Step(k, Yield))
  {
    var n := Step(k, Yield);
    SameRetests(k, n);
    if k.ready != [] {
      HeadOfReady(k.ready);
      assert Places(n) == Places(k);
      forall u | u in k.retest ensures n.current == Some(u) || u in n.ready {
        ReadyAfterDispatch(k, u);
      }
    }
  }

  lemma ForkKeeps(k: KState, t: Tid)
    requires KInv(k) && Enabled(k, Fork(t))
    ensures KInv(Step(k, Fork(t)))
  {
  }

  lemma FinishKeeps(k: KState)
    requires KInv(k) && Enabled(k, Finish)
    ensures KInv(Step(k, Finish))
  {
    var t := k.current.value;
    var k1 := k.(live := k.live - {t});
    SameRetests(k, k1);
    assert Places(k1) == Places(k) && t in Places(k);
    DispatchKeeps(k1, t);
  }

  lemma WakeKeeps(k: KState)
    requires KInv(k) && Enabled(k, Wake)
    ensures KInv(Step(k, Wake))
  {
    var n := Step(k, Wake);
    SameRetests(k, n);
    HeadOfReady(k.ready);
    assert Places(n) == Places(k);
    forall u | u in k.retest ensures n.current == Some(u) || u in n.ready {
      ReadyAfterDispatch(k, u);
    }
  }

  lemma StepKeeps(k: KState, a: Act)
    requires KInv(k) && Enabled(k, a)
    ensures KInv(Step(k, a))
  {
    match a
    case P(s) => if k.sems[s].value == 0 { PBlocks(k, s); } else { PPasses(k, s); }
    case V(s) => VKeeps(k, s);
    case HandlerV(s) => VKeeps(k, s);
    case Yield => YieldKeeps(k);
    case Fork(t) => ForkKeeps(k, t);
    case Finish => FinishKeeps(k);
    case Wake => WakeKeeps(k);
  }

  // ---------------------------------------------------------------- runs

  /** The machine just booted: one thread, running; every semaphore at its initial value. */
  function Boot(main: Tid, initial: seq<nat>): KState {
    KState(Some(main), [], seq(|initial|, s requires 0 <= s < |initial| => Sem(initial[s], [])),
           map[], {main}, initial, seq(|initial|, s => 0), seq(|initial|, s => 0))
  }

  lemma {:induction false} NobodyQueued(sems: seq<Sem>)
    requires forall s :: 0 <= s < |sems| ==> sems[s].queue == []
    ensures Queues(sems) == multiset{}
  {
    if sems != [] { NobodyQueued(sems[..|sems| - 1]); }
  }

  lemma BootKeeps(main: Tid, initial: seq<nat>)
    ensures KInv(Boot(main, initial))
  {
    NobodyQueued(Boot(main, initial).sems);
  }

  /** acts can be performed one after the other, from k to last. */
  ghost predicate IsRun(k: KState, acts: seq<Act>, last: KState)
    decreases |acts|
  {
    if acts == [] then k == last
    else |k.vs| == |k.ps| == |k.sems| && Enabled(k, acts[0]) && IsRun(Step(k, acts[0]), acts[1..], last)
  }

  lemma {:induction false} RunKeeps(k: KState, acts: seq<Act>, last: KState)
    requires KInv(k) && IsRun(k, acts, last)
    ensures KInv(last)
    decreases |acts|
  {
    if acts != [] {
      StepKeeps(k, acts[0]);
      RunKeeps(Step(k, acts[0]), acts[1..], last);
    }
  }

  /** On every run from boot: units are conserved, every unfinished thread is in exactly one place, and
      while somebody waits on a semaphore, every unit it has is matched by a thread on its way to test it. */
  lemma NoLostWakeup(main: Tid, initial: seq<nat>, acts: seq<Act>, k: KState, s: nat)
    requires IsRun(Boot(main, initial), acts, k) && s < |k.sems|
    ensures |k.initial| == |k.vs| == |k.ps| == |k.sems|
    ensures k.sems[s].value + k.ps[s] == k.initial[s] + k.vs[s]
    ensures k.sems[s].queue != [] ==> k.sems[s].value <= |Retesting(k, s)|
    ensures forall t :: t in Retesting(k, s) ==> k.current == Some(t) || t in k.ready
    ensures forall t :: t in k.live ==> Places(k)[t] == 1
    ensures forall t :: t !in k.live ==> t !in Places(k)
  {
    BootKeeps(main, initial);
    RunKeeps(Boot(main, initial), acts, k);
  }

  /** When no thread can run at all, every thread that waits is waiting for a semaphore whose value is
      zero: the machine never idles with a unit that somebody is queueing for. */
  lemma IdleMeansNoUnits(main: Tid, initial: seq<nat>, acts: seq<Act>, k: KState, s: nat)
    requires IsRun(Boot(main, initial), acts, k) && s < |k.sems|
    requires k.current == None && k.ready == [] && k.sems[s].queue != []
    ensures k.sems[s].value == 0
  {
    NoLostWakeup(main, initial, acts, k, s);
    assert Retesting(k, s) == {};
  }

  // ---------------------------------------------------------------- first in, first out

  predicate Dispatches(k: KState, a: Act) {
    match a
    case P(s) => s < |k.sems| && k.sems[s].value == 0 && k.ready != []
    case Yield => k.ready != []
    case Finish => k.ready != []
    case Wake => true
    case _ => false
  }

  function CountDispatches(k: KState, acts: seq<Act>): nat
    decreases |acts|
  {
    if acts == [] || |k.vs| != |k.sems| || |k.ps| != |k.sems| || !Enabled(k, acts[0]) then 0
    else (if Dispatches(k, acts[0]) then 1 else 0) + CountDispatches(Step(k, acts[0]), acts[1..])
  }

  /** A ready thread moves up by one place with each dispatch and never otherwise: from position p it is
      still waiting its turn after d <= p dispatches, at position p - d. */
  lemma {:induction false} ReadyListIsFifo(k: KState, acts: seq<Act>, last: KState, p: nat)
    requires IsRun(k, acts, last) && p < |k.ready| && CountDispatches(k, acts) <= p
    ensures p - CountDispatches(k, acts) < |last.ready|
    ensures last.ready[p - CountDispatches(k, acts)] == k.ready[p]
    decreases |acts|
  {
    if acts != [] {
      var n := Step(k, acts[0]);
      var q := if Dispatches(k, acts[0]) then p - 1 else p;
      assert n.ready[q] == k.ready[p];
      ReadyListIsFifo(n, acts[1..], last, q);
    }
  }

  /** The dispatch that follows p earlier ones runs the thread that was at position p. */
  lemma {:induction false} DispatchedInTurn(k: KState, acts: seq<Act>, before: KState, a: Act, p: nat)
    requires IsRun(k, acts, before) && p < |k.ready| && CountDispatches(k, acts) == p
    requires |before.vs| == |before.ps| == |before.sems| && Enabled(before, a) && Dispatches(before, a)
    ensures Step(before, a).current == Some(k.ready[p])
  {
    ReadyListIsFifo(k, acts, before, p);
  }

  /** A call of V on semaphore s, by a thread or an interrupt handler. */
  predicate SignalsTo(a: Act, s: nat) {
    (a.V? || a.HandlerV?) && a.s == s
  }

  function CountSignals(acts: seq<Act>, s: nat): nat {
    if acts == [] then 0 else (if SignalsTo(acts[0], s) then 1 else 0) + CountSignals(acts[1..], s)
  }

  lemma QueueStep(k: KState, a: Act, s: nat, p: nat)
    requires Enabled(k, a) && |k.vs| == |k.ps| == |k.sems| && s < |k.sems| && p < |k.sems[s].queue|
    ensures |Step(k, a).sems| == |k.sems|
    ensures var q := if SignalsTo(a, s) then p - 1 else p;
      q >= 0 ==> q < |Step(k, a).sems[s].queue| && Step(k, a).sems[s].queue[q] == k.sems[s].queue[p]
  {
  }

  /** Those who wait on a semaphore move up by one place with each V on it and never otherwise: the thread at
      position p of the queue is still there after v <= p calls of V, at position p - v. */
  lemma {:induction false} QueueIsFifo(k: KState, acts: seq<Act>, last: KState, s: nat, p: nat)
    requires IsRun(k, acts, last) && s < |k.sems| && p < |k.sems[s].queue| && CountSignals(acts, s) <= p
    ensures |last.sems| == |k.sems| && p - CountSignals(acts, s) < |last.sems[s].queue|
    ensures last.sems[s].queue[p - CountSignals(acts, s)] == k.sems[s].queue[p]
    decreases |acts|
  {
    hide Step, Enabled;
    if acts != [] {
      var n := Step(k, acts[0]);
      QueueStep(k, acts[0], s, p);
      QueueIsFifo(n, acts[1..], last, s, if SignalsTo(acts[0], s) then p - 1 else p);
    }
  }

  /** The V that follows p earlier ones wakes the thread that was at position p: it goes to the end of the
      ready list, and must test the value again. */
  lemma {:induction false} WokenInTurn(k: KState, acts: seq<Act>, before: KState, a: Act, s: nat, p: nat)
    requires IsRun(k, acts, before) && s < |k.sems| && p < |k.sems[s].queue| && CountSignals(acts, s) == p
    requires |before.vs| == |before.ps| == |before.sems| && Enabled(before, a) && SignalsTo(a, s)
    ensures |before.sems| == |k.sems|
    ensures var woken, after := k.sems[s].queue[p], Step(before, a);
      && before.sems[s].queue != [] && before.sems[s].queue[0] == woken
      && after.ready == before.ready + [woken] && after.sems[s].queue == before.sems[s].queue[1..]
      && woken in after.retest && after.retest[woken] == s
  {
    QueueIsFifo(k, acts, before, s, p);
  }
}
