/** synch.cc, thread.cc, scheduler.cc: the Scheduler and Semaphore objects follow the step system along
    any run, so what Kernel.dfy proves of runs is true of the objects; and a thread's status field
    always says where the thread is. */
module KernelRuns {
  import opened Common
  import opened Kernel

  /** The objects are in state k; idle: the thread that called Sleep has found nobody to run. */
  ghost predicate Shows(scheduler: Scheduler, sems: seq<Semaphore>, idle: bool, k: KState)
    reads scheduler, sems
  {
    && |sems| == |k.sems| && (forall r, s :: 0 <= r < s < |sems| ==> sems[r] != sems[s])
    && (forall s :: 0 <= s < |sems| ==> sems[s].Abs() == k.sems[s])
    && scheduler.readyList == k.ready
    && k.current == (if idle then None else Some(scheduler.currentThread))
    && StatusFits(k, scheduler.status)
  }

  /** Each thread's status is that of the place where it is. */
  ghost predicate StatusFits(k: KState, status: map<Tid, Status>) {
    && (forall t :: k.current == Some(t) ==> t in status && status[t] == Running)
    && (forall t :: t in k.ready ==> t in status && status[t] == Ready)
    && (forall s, t :: 0 <= s < |k.sems| && t in k.sems[s].queue ==> t in status && status[t] == Blocked)
  }

  // ---------------------------------------------------------------- a thread is in one place only

  /** Where else a thread is not. */
  lemma QueueCounts(sems: seq<Sem>, s: nat, t: Tid)
    requires s < |sems| && Queues(sems)[t] <= 1 && t in sems[s].queue
    ensures multiset(sems[s].queue)[t] == 1 && t in Queues(sems)
    ensures forall r :: 0 <= r < |sems| && r != s ==> t !in sems[r].queue
  {
    var emptied := sems[s := Sem(0, [])];
    QueuesUpdate(sems, s, Sem(0, []), t);
    InQueues(sems, s, t);
    forall r | 0 <= r < |sems| && r != s ensures t !in sems[r].queue {
      if t in sems[r].queue {
        assert emptied[r] == sems[r];
        InQueues(emptied, r, t);
      }
    }
  }

  lemma Waiting(k: KState, s: nat, t: Tid)
    requires OnePlace(k) && s < |k.sems| && t in k.sems[s].queue
    ensures k.current != Some(t) && t !in k.ready && multiset(k.sems[s].queue)[t] == 1
    ensures forall r :: 0 <= r < |k.sems| && r != s ==> t !in k.sems[r].queue
  {
    assert Places(k)[t] <= 1;
    QueueCounts(k.sems, s, t);
    assert t !in multiset(k.ready);
  }

  lemma RunningOrReady(k: KState, t: Tid)
    requires OnePlace(k)
    ensures k.current == Some(t) ==> t !in k.ready
    ensures t in k.ready ==> multiset(k.ready)[t] == 1
    ensures k.current == Some(t) || t in k.ready ==> forall s :: 0 <= s < |k.sems| ==> t !in k.sems[s].queue
  {
    hide Queues;
    assert Places(k)[t] <= 1;
    if t in k.ready { assert t in multiset(k.ready); }
    if k.current == Some(t) || t in k.ready {
      forall s | 0 <= s < |k.sems| ensures t !in k.sems[s].queue {
        if t in k.sems[s].queue { InQueues(k.sems, s, t); }
      }
    }
  }

  /** The first of a list without repetitions is not in the rest. */
  lemma FirstOnce(s: seq<Tid>)
    requires s != [] && multiset(s)[s[0]] == 1
    ensures s[0] !in s[1..]
  {
    HeadOfReady(s);
    assert s[0] !in multiset(s[1..]);
  }

  // ---------------------------------------------------------------- what a step does to the status fields

  /** The running thread gives up the processor with status given, and the first ready thread gets it. */
  function Switched(k: KState, status: map<Tid, Status>, given: Status): map<Tid, Status>
    requires k.current.Some?
  {
    var gone := status[k.current.value := given];
    if k.ready == [] then gone else gone[k.ready[0] := Running]
  }

  function NextStatus(k: KState, a: Act, status: map<Tid, Status>): map<Tid, Status>
    requires Enabled(k, a)
  {
    match a
    case P(s) => if k.sems[s].value > 0 then status else Switched(k, status, Blocked)
    case V(s) => if k.sems[s].queue == [] then status else status[k.sems[s].queue[0] := Ready]
    case HandlerV(s) => if k.sems[s].queue == [] then status else status[k.sems[s].queue[0] := Ready]
    case Yield => if k.ready == [] then status else Switched(k, status, Ready)
    case Fork(t) => status[t := Ready]
    case Finish => Switched(k, status, Blocked)
    case Wake => status[k.ready[0] := Running]
  }

  lemma VStatus(k: KState, s: nat, status: map<Tid, Status>)
    requires KInv(k) && s < |k.sems| && StatusFits(k, status)
    ensures StatusFits(StepV(k, s), if k.sems[s].queue == [] then status else status[k.sems[s].queue[0] := Ready])
  {
    hide Places, Queues, TestersCanRun, Conserved, NothingLost;
    var q := k.sems[s].queue;
    if q != [] {
      Waiting(k, s, q[0]);
      FirstOnce(q);
    }
  }

  lemma SwitchStatus(k: KState, status: map<Tid, Status>, given: Status, n: KState)
    requires KInv(k) && k.current.Some? && StatusFits(k, status)
    requires n.current == if k.ready == [] then None else Some(k.ready[0])
    requires forall t :: t in n.ready ==>
      (k.ready != [] && t in k.ready[1..]) || (t == k.current.value && given == Ready)
    requires forall s, t :: 0 <= s < |n.sems| && t in n.sems[s].queue ==>
      (s < |k.sems| && t in k.sems[s].queue) || (t == k.current.value && given == Blocked)
    ensures StatusFits(n, Switched(k, status, given))
  {
    hide Places, Queues, TestersCanRun, Conserved, NothingLost;
    RunningOrReady(k, k.current.value);
    if k.ready != [] {
      RunningOrReady(k, k.ready[0]);
      FirstOnce(k.ready);
    }
  }

  lemma StatusStep(k: KState, a: Act, status: map<Tid, Status>)
    requires KInv(k) && Enabled(k, a) && StatusFits(k, status)
    ensures StatusFits(Step(k, a), NextStatus(k, a, status))
  {
    hide Places, Queues, TestersCanRun, Conserved, NothingLost;
    match a {
      case P(s) =>
        if k.sems[s].value == 0 { SwitchStatus(k, status, Blocked, Step(k, a)); }
      case V(s) => VStatus(k, s, status);
      case HandlerV(s) => VStatus(k, s, status);
      case Yield =>
        if k.ready != [] { SwitchStatus(k, status, Ready, Step(k, a)); }
      case Fork(t) => ForkStatus(k, t, status);
      case Finish => SwitchStatus(k, status, Blocked, Step(k, a));
      case Wake =>
        RunningOrReady(k, k.ready[0]);
        FirstOnce(k.ready);
    }
  }

  lemma ForkStatus(k: KState, t: Tid, status: map<Tid, Status>)
    requires KInv(k) && Enabled(k, Fork(t)) && StatusFits(k, status)
    ensures StatusFits(Step(k, Fork(t)), status[t := Ready])
  {
    hide Queues, TestersCanRun, Conserved, NothingLost;
    assert Places(k)[t] == 0;
    forall s | 0 <= s < |k.sems| ensures t !in k.sems[s].queue {
      if t in k.sems[s].queue { InQueues(k.sems, s, t); }
    }
  }

  // ---------------------------------------------------------------- the objects

  /** P and V, by a thread or an interrupt handler. */
  method PerformOnSemaphore(scheduler: Scheduler, sems: seq<Semaphore>, idle: bool, a: Act, ghost k: KState)
    returns (idles: bool)
    requires Shows(scheduler, sems, idle, k) && KInv(k) && Enabled(k, a) && (a.P? || a.V? || a.HandlerV?)
    modifies scheduler, sems
    ensures Shows(scheduler, sems, idles, Step(k, a))
  {
    hide KInv, StatusFits;
    StatusStep(k, a, scheduler.status);
    idles := idle;
    if a.P? {
      var passed, dispatched := sems[a.s].P(scheduler);
      idles := !passed && !dispatched;
    } else {
      sems[a.s].V(scheduler);
    }
  }

  /** What concerns the ready list alone. */
  method PerformOnScheduler(scheduler: Scheduler, ghost sems: seq<Semaphore>, idle: bool, a: Act, ghost k: KState)
    returns (idles: bool)
    requires Shows(scheduler, sems, idle, k) && KInv(k) && Enabled(k, a) && !a.P? && !a.V? && !a.HandlerV?
    modifies scheduler
    ensures Shows(scheduler, sems, idles, Step(k, a))
  {
    hide KInv, StatusFits;
    StatusStep(k, a, scheduler.status);
    idles := idle;
    if a.Yield? {
      scheduler.Yield();
    } else if a.Fork? {
      scheduler.Fork(a.t);
    } else if a.Finish? {
      var dispatched := scheduler.Sleep();
      idles := !dispatched;
    } else {
      var next := scheduler.FindNextToRun();
      scheduler.Run(next.value);
      idles := false;
    }
  }

  /** One action, done by the objects. */
  method Perform(scheduler: Scheduler, sems: seq<Semaphore>, idle: bool, a: Act, ghost k: KState)
    returns (idles: bool)
    requires Shows(scheduler, sems, idle, k) && KInv(k) && Enabled(k, a)
    modifies scheduler, sems
    ensures Shows(scheduler, sems, idles, Step(k, a))
  {
    hide KInv, Shows, Enabled, Step;
    if a.P? || a.V? || a.HandlerV? {
      idles := PerformOnSemaphore(scheduler, sems, idle, a, k);
    } else {
      idles := PerformOnScheduler(scheduler, sems, idle, a, k);
    }
  }

  /** Any run of the step system, done by the objects. */
  method Session(scheduler: Scheduler, sems: seq<Semaphore>, acts: seq<Act>, ghost k: KState, ghost last: KState)
    returns (idles: bool)
    requires Shows(scheduler, sems, false, k) && KInv(k) && IsRun(k, acts, last)
    modifies scheduler, sems
    ensures KInv(last) && Shows(scheduler, sems, idles, last)
  {
    hide Shows, KInv, Enabled, Step;
    idles := false;
    ghost var now := k;
    for i := 0 to |acts|
      invariant Shows(scheduler, sems, idles, now) && KInv(now) && IsRun(now, acts[i..], last)
    {
      assert acts[i..][0] == acts[i] && acts[i..][1..] == acts[i + 1..];
      idles := Perform(scheduler, sems, idles, acts[i], now);
      StepKeeps(now, acts[i]);
      now := Step(now, acts[i]);
    }
  }

  /** The objects as Nachos starts. */
  method Start(main: Tid, initial: seq<nat>) returns (scheduler: Scheduler, sems: seq<Semaphore>)
    ensures Shows(scheduler, sems, false, Boot(main, initial))
    ensures fresh(scheduler) && fresh(sems)
  {
    scheduler := new Scheduler(main);
    sems := [];
    for i := 0 to |initial|
      invariant |sems| == i && fresh(scheduler) && fresh(sems)
      invariant forall r, s :: 0 <= r < s < i ==> sems[r] != sems[s]
      invariant forall s :: 0 <= s < i ==> sems[s].Abs() == Sem(initial[s], [])
      invariant scheduler.readyList == [] && scheduler.currentThread == main
      invariant scheduler.status == map[main := Running]
    {
      var sem := new Semaphore(initial[i]);
      sems := sems + [sem];
    }
  }

  /** From the start, whatever is done: the objects' values balance the calls of P and V that have
      completed, and a unit that somebody queues for is matched by a thread on its way to it. */
  method FromStart(main: Tid, initial: seq<nat>, acts: seq<Act>, ghost last: KState)
    returns (scheduler: Scheduler, sems: seq<Semaphore>, idles: bool)
    requires IsRun(Boot(main, initial), acts, last)
    ensures Shows(scheduler, sems, idles, last) && |sems| == |last.initial| == |last.vs| == |last.ps|
    ensures forall s :: 0 <= s < |sems| ==> sems[s].value + last.ps[s] == last.initial[s] + last.vs[s]
    ensures forall s :: 0 <= s < |sems| ==> sems[s].queue != [] ==> sems[s].value <= |Retesting(last, s)|
    ensures idles && scheduler.readyList == [] ==>
      forall s :: 0 <= s < |sems| && sems[s].queue != [] ==> sems[s].value == 0
  {
    BootKeeps(main, initial);
    scheduler, sems := Start(main, initial);
    idles := Session(scheduler, sems, acts, Boot(main, initial), last);
    assert KInv(last);
    forall s | 0 <= s < |sems| && idles && scheduler.readyList == [] && sems[s].queue != [] ensures sems[s].value == 0 {
      assert sems[s].Abs() == last.sems[s];
      IdleMeansNoUnits(main, initial, acts, last, s);
    }
    forall s | 0 <= s < |sems|
      ensures sems[s].value + last.ps[s] == last.initial[s] + last.vs[s]
      ensures sems[s].queue != [] ==> sems[s].value <= |Retesting(last, s)|
    {
      assert sems[s].Abs() == last.sems[s];
    }
  }
}
