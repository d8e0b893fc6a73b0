/** threadtest.cc: how far `mutex` locks. GetSticks goes around its loop without taking mutex again, and
    every turn that finds the philosopher still hungry ends in a V; so the lock holds up to the first
    such turn and no longer. */
module DiningMutex {
  import opened Counting
  import opened Dining

  /** Between mutex->P and mutex->V. */
  predicate HoldsMutex(pc: PC) {
    pc.Check? || pc.GrantSelf? || pc.PutLeft? || pc.PutRight? || pc.PutDown?
  }

  /** What a lock promises: one philosopher inside at most, and none while mutex is up. */
  predicate LockHolds(s: DState)
    requires WellFormed(s)
  {
    && s.mutex <= 1
    && (forall i, j :: 0 <= i < j < P(s) ==> !(HoldsMutex(s.pc[i]) && HoldsMutex(s.pc[j])))
    && (s.mutex > 0 ==> forall i :: 0 <= i < P(s) ==> !HoldsMutex(s.pc[i]))
  }

  /** Philosopher i starts another turn of the loop in GetSticks. */
  predicate GoesAround(s: DState, i: nat)
    requires WellFormed(s) && i < P(s)
  {
    s.pc[i].Recheck? && s.phil[i] == ISHUNGRY
  }

  /** How often that happens in a run. */
  ghost function Rounds(s: DState, turns: seq<(nat, nat)>): nat
    decreases |turns|
  {
    if turns == [] || !WellFormed(s) || turns[0].0 >= P(s) || !CanStep(s, turns[0].0) then 0
    else
      (if GoesAround(s, turns[0].0) then 1 else 0) + Rounds(Step(s, turns[0].0, turns[0].1), turns[1..])
  }

  lemma TryMutex(s: DState, i: nat)
    requires WellFormed(s) && i < P(s) && s.phil[i] == ISHUNGRY
    ensures var t := TrySticks(s, i);
      |t.pc| == |s.pc| && t.mutex + One(HoldsMutex(t.pc[i])) == s.mutex + 1
  {
    hide SticksFree, Left, Right;
  }

  lemma SticksMutex(s: DState, i: nat)
    requires WellFormed(s) && i < P(s) && CanStep(s, i) && TakingSticks(s.pc[i])
    ensures var t := SticksStep(s, i);
      && |t.pc| == |s.pc|
      && t.mutex + One(HoldsMutex(t.pc[i])) == s.mutex + One(HoldsMutex(s.pc[i])) + One(GoesAround(s, i))
  {
    hide TrySticks, Left, Right, SticksFree;
    if s.pc[i].Check? {
      TryMutex(s.(phil := s.phil[i := ISHUNGRY]), i);
    } else if s.pc[i].Recheck? && s.phil[i] == ISHUNGRY {
      TryMutex(s, i);
    }
  }

  lemma PutMutex(s: DState, i: nat, n: nat)
    requires WellFormed(s) && i < P(s) && CanStep(s, i) && PuttingDown(s.pc[i])
    ensures var t := PutStep(s, i, n);
      |t.pc| == |s.pc| && t.mutex + One(HoldsMutex(t.pc[i])) == s.mutex + One(HoldsMutex(s.pc[i]))
  {
    hide Grant, Left, Right;
  }

  lemma OtherMutex(s: DState, i: nat, n: nat)
    requires WellFormed(s) && i < P(s) && CanStep(s, i) && !TakingSticks(s.pc[i]) && !PuttingDown(s.pc[i])
    ensures var t := Step(s, i, n);
      && |t.pc| == |s.pc| && t.mutex == s.mutex
      && !HoldsMutex(t.pc[i]) && !HoldsMutex(s.pc[i]) && !GoesAround(s, i)
  {
    hide SticksStep, PutStep, Left, Right;
  }

  /** A step of philosopher i moves mutex against its own holding of it, but for the extra V. */
  lemma OwnMutex(s: DState, i: nat, n: nat)
    requires WellFormed(s) && i < P(s) && CanStep(s, i)
    ensures var t := Step(s, i, n);
      && |t.pc| == |s.pc|
      && t.mutex + One(HoldsMutex(t.pc[i])) == s.mutex + One(HoldsMutex(s.pc[i])) + One(GoesAround(s, i))
  {
    hide SticksStep, PutStep, DoorStep, MealStep, LeaveStep, CanStep;
    if TakingSticks(s.pc[i]) {
      SticksMutex(s, i);
    } else if PuttingDown(s.pc[i]) {
      PutMutex(s, i, n);
    } else {
      OtherMutex(s, i, n);
    }
  }

  /** A step changes the balance of mutex by one V too many, or not at all. */
  lemma MutexLedgerStep(s: DState, i: nat, n: nat)
    requires WellFormed(s) && i < P(s) && CanStep(s, i) && Exclusive(s)
    ensures var t := Step(s, i, n);
      WellFormed(t) && t.mutex + Count(t.pc, HoldsMutex) == s.mutex + Count(s.pc, HoldsMutex) + One(GoesAround(s, i))
  {
    hide Step, Exclusive, Honest, SticksFree;
    ExclusiveHonest(s, i);
    OwnMutex(s, i, n);
    OwnState(s, i, n);
    CountUpdate(s.pc, i, Step(s, i, n).pc[i], HoldsMutex);
  }

  lemma ExclusiveHonest(s: DState, i: nat)
    requires WellFormed(s) && i < P(s) && Exclusive(s)
    ensures Honest(s.pc[i], s.phil[i])
  {
  }

  lemma {:induction false} MutexLedger(s: DState, turns: seq<(nat, nat)>, last: DState)
    requires WellFormed(s) && Exclusive(s) && IsRun(s, turns, last)
    ensures WellFormed(last)
    ensures last.mutex + Count(last.pc, HoldsMutex) == s.mutex + Count(s.pc, HoldsMutex) + Rounds(s, turns)
    decreases |turns|
  {
    hide Exclusive, Step, CanStep, Count;
    if turns != [] {
      var t := Step(s, turns[0].0, turns[0].1);
      ExclusiveStep(s, turns[0].0, turns[0].1);
      MutexLedgerStep(s, turns[0].0, turns[0].1);
      MutexLedger(t, turns[1..], last);
    }
  }

  lemma LockIsOne(s: DState)
    requires WellFormed(s) && s.mutex + Count(s.pc, HoldsMutex) >= 1
    ensures LockHolds(s) <==> s.mutex + Count(s.pc, HoldsMutex) == 1
  {
    hide Count;
    CountExtremes(s.pc, HoldsMutex);
    forall i, j | 0 <= i < j < P(s)
      ensures HoldsMutex(s.pc[i]) && HoldsMutex(s.pc[j]) ==> Count(s.pc, HoldsMutex) >= 2
    {
      CountTwo(s.pc, i, j, HoldsMutex);
    }
    if Count(s.pc, HoldsMutex) >= 2 { FindTwo(s.pc, HoldsMutex); }
  }

  lemma {:induction false} FindTwo<T>(xs: seq<T>, p: T -> bool)
    requires Count(xs, p) >= 2
    ensures exists i, j :: 0 <= i < j < |xs| && p(xs[i]) && p(xs[j])
  {
    var n := |xs| - 1;
    if Count(xs[..n], p) >= 2 {
      FindTwo(xs[..n], p);
      var i, j :| 0 <= i < j < n && p(xs[..n][i]) && p(xs[..n][j]);
      assert p(xs[i]) && p(xs[j]);
    } else {
      CountExtremes(xs[..n], p);
      var i :| 0 <= i < n && p(xs[..n][i]);
      assert p(xs[i]) && p(xs[n]);
    }
  }

  /** On every run mutex and those inside it add up to one more than the extra turns of GetSticks, so the
      lock holds exactly as long as there has been none. */
  lemma MutexLocksUntil(n: nat, m: nat, turns: seq<(nat, nat)>, s: DState)
    requires n >= 2 && IsRun(Init(n, m), turns, s)
    ensures WellFormed(s)
    ensures s.mutex + Count(s.pc, HoldsMutex) == 1 + Rounds(Init(n, m), turns)
    ensures LockHolds(s) <==> Rounds(Init(n, m), turns) == 0
  {
    hide Exclusive, Ledger, Count, LockHolds;
    InitHolds(n, m);
    CountExtremes(Init(n, m).pc, HoldsMutex);
    MutexLedger(Init(n, m), turns, s);
    LockIsOne(s);
  }

  // ---------------------------------------------------------------- a run that breaks the lock

  lemma {:induction false} RunOn(a: DState, turns: seq<(nat, nat)>, s: DState, i: nat)
    requires IsRun(a, turns, s) && WellFormed(s) && i < P(s) && CanStep(s, i)
    ensures IsRun(a, turns + [(i, 0)], Step(s, i, 0))
    decreases |turns|
  {
    hide WellFormed, CanStep, Step;
    var more := turns + [(i, 0)];
    if turns == [] {
      assert more[1..] == [];
    } else {
      assert more[1..] == turns[1..] + [(i, 0)];
      RunOn(Step(a, turns[0].0, turns[0].1), turns[1..], s, i);
    }
  }

  /** A state of two philosophers with one meal that some run reaches. */
  ghost predicate Reached(s: DState) {
    exists turns :: IsRun(Init(2, 1), turns, s)
  }

  lemma Go(s: DState, i: nat, t: DState)
    requires Reached(s) && WellFormed(s) && i < P(s) && CanStep(s, i) && t == Step(s, i, 0)
    ensures Reached(t)
  {
    hide Init, IsRun;
    var turns :| IsRun(Init(2, 1), turns, s);
    RunOn(Init(2, 1), turns, s, i);
  }

  lemma DoorGoes(s: DState, i: nat, t: DState)
    requires Reached(s) && WellFormed(s) && i < P(s) && CanStep(s, i) && AtDoor(s.pc[i]) && t == DoorStep(s, i)
    ensures Reached(t)
  {
    hide Reached, DoorStep, SticksStep, MealStep, PutStep, LeaveStep, CanStep;
    Go(s, i, t);
  }

  lemma SticksGoes(s: DState, i: nat, t: DState)
    requires Reached(s) && WellFormed(s) && i < P(s) && CanStep(s, i) && TakingSticks(s.pc[i]) && t == SticksStep(s, i)
    ensures Reached(t)
  {
    hide Reached, DoorStep, SticksStep, MealStep, PutStep, LeaveStep, CanStep;
    Go(s, i, t);
  }

  lemma MealGoes(s: DState, i: nat, t: DState)
    requires Reached(s) && WellFormed(s) && i < P(s) && CanStep(s, i) && EatingMeal(s.pc[i]) && t == MealStep(s, i, 0)
    ensures Reached(t)
  {
    hide Reached, DoorStep, SticksStep, MealStep, PutStep, LeaveStep, CanStep;
    Go(s, i, t);
  }

  lemma PutGoes(s: DState, i: nat, t: DState)
    requires Reached(s) && WellFormed(s) && i < P(s) && CanStep(s, i) && PuttingDown(s.pc[i]) && t == PutStep(s, i, 0)
    ensures Reached(t)
  {
    hide Reached, DoorStep, SticksStep, MealStep, PutStep, LeaveStep, CanStep;
    Go(s, i, t);
  }

  /** Two philosophers and one meal: their places, their states, and the counters that move. */
  function Two(p: PC, q: PC, a: PState, b: PState, notIn: int, mealLeft: int,
               enterMutex: nat, mutex: nat, mealMutex: nat, sit: nat, g: nat, h: nat): (s: DState)
    requires mealLeft <= 1
    ensures WellFormed(s) && P(s) == 2
  {
    DState([p, q], [a, b], [false, false], notIn, mealLeft, 1 - mealLeft, 0, 0, false,
           enterMutex, mutex, mealMutex, 1, sit, 0, [g, h])
  }

  lemma Scene0()
    ensures Reached(Two(AtEnter, AtEnter, THINKING, THINKING, 2, 1, 1, 1, 1, 0, 0, 0))
  {
    var s := Two(AtEnter, AtEnter, THINKING, THINKING, 2, 1, 1, 1, 1, 0, 0, 0);
    assert s.pc == Init(2, 1).pc && s.phil == Init(2, 1).phil;
    assert s.done == Init(2, 1).done && s.grant == Init(2, 1).grant;
    assert IsRun(Init(2, 1), [], s);
  }

  lemma Scene1()
    ensures Reached(Two(Entering, AtEnter, THINKING, THINKING, 2, 1, 0, 1, 1, 0, 0, 0))
  {
    hide Reached, Left, Right;
    Scene0();
    DoorGoes(Two(AtEnter, AtEnter, THINKING, THINKING, 2, 1, 1, 1, 1, 0, 0, 0), 0,
             Two(Entering, AtEnter, THINKING, THINKING, 2, 1, 0, 1, 1, 0, 0, 0));
  }

  lemma Scene2()
    ensures Reached(Two(AtSit, AtEnter, THINKING, THINKING, 1, 1, 1, 1, 1, 0, 0, 0))
  {
    hide Reached, Left, Right;
    Scene1();
    DoorGoes(Two(Entering, AtEnter, THINKING, THINKING, 2, 1, 0, 1, 1, 0, 0, 0), 0,
             Two(AtSit, AtEnter, THINKING, THINKING, 1, 1, 1, 1, 1, 0, 0, 0));
  }

  lemma Scene3()
    ensures Reached(Two(AtSit, Entering, THINKING, THINKING, 1, 1, 0, 1, 1, 0, 0, 0))
  {
    hide Reached, Left, Right;
    Scene2();
    DoorGoes(Two(AtSit, AtEnter, THINKING, THINKING, 1, 1, 1, 1, 1, 0, 0, 0), 1,
             Two(AtSit, Entering, THINKING, THINKING, 1, 1, 0, 1, 1, 0, 0, 0));
  }

  lemma Scene4()
    ensures Reached(Two(AtSit, SitGrants(0), THINKING, THINKING, 0, 1, 0, 1, 1, 0, 0, 0))
  {
    hide Reached, Left, Right;
    Scene3();
    DoorGoes(Two(AtSit, Entering, THINKING, THINKING, 1, 1, 0, 1, 1, 0, 0, 0), 1,
             Two(AtSit, SitGrants(0), THINKING, THINKING, 0, 1, 0, 1, 1, 0, 0, 0));
  }

  lemma Scene5()
    ensures Reached(Two(AtSit, SitGrants(1), THINKING, THINKING, 0, 1, 0, 1, 1, 1, 0, 0))
  {
    hide Reached, Left, Right;
    Scene4();
    DoorGoes(Two(AtSit, SitGrants(0), THINKING, THINKING, 0, 1, 0, 1, 1, 0, 0, 0), 1,
             Two(AtSit, SitGrants(1), THINKING, THINKING, 0, 1, 0, 1, 1, 1, 0, 0));
  }

  lemma Scene6()
    ensures Reached(Two(AtSit, SitGrants(2), THINKING, THINKING, 0, 1, 0, 1, 1, 2, 0, 0))
  {
    hide Reached, Left, Right;
    Scene5();
    DoorGoes(Two(AtSit, SitGrants(1), THINKING, THINKING, 0, 1, 0, 1, 1, 1, 0, 0), 1,
             Two(AtSit, SitGrants(2), THINKING, THINKING, 0, 1, 0, 1, 1, 2, 0, 0));
  }

  lemma Scene7()
    ensures Reached(Two(AtSit, AtSit, THINKING, THINKING, 0, 1, 1, 1, 1, 2, 0, 0))
  {
    hide Reached, Left, Right;
    Scene6();
    DoorGoes(Two(AtSit, SitGrants(2), THINKING, THINKING, 0, 1, 0, 1, 1, 2, 0, 0), 1,
             Two(AtSit, AtSit, THINKING, THINKING, 0, 1, 1, 1, 1, 2, 0, 0));
  }

  lemma Scene8()
    ensures Reached(Two(Top, AtSit, THINKING, THINKING, 0, 1, 1, 1, 1, 1, 0, 0))
  {
    hide Reached, Left, Right;
    Scene7();
    DoorGoes(Two(AtSit, AtSit, THINKING, THINKING, 0, 1, 1, 1, 1, 2, 0, 0), 0,
             Two(Top, AtSit, THINKING, THINKING, 0, 1, 1, 1, 1, 1, 0, 0));
  }

  lemma Scene9()
    ensures Reached(Two(Top, Top, THINKING, THINKING, 0, 1, 1, 1, 1, 0, 0, 0))
  {
    hide Reached, Left, Right;
    Scene8();
    DoorGoes(Two(Top, AtSit, THINKING, THINKING, 0, 1, 1, 1, 1, 1, 0, 0), 1,
             Two(Top, Top, THINKING, THINKING, 0, 1, 1, 1, 1, 0, 0, 0));
  }

  lemma Scene10()
    ensures Reached(Two(AtSticks, Top, THINKING, THINKING, 0, 1, 1, 1, 1, 0, 0, 0))
  {
    hide Reached, Left, Right;
    Scene9();
    DoorGoes(Two(Top, Top, THINKING, THINKING, 0, 1, 1, 1, 1, 0, 0, 0), 0,
             Two(AtSticks, Top, THINKING, THINKING, 0, 1, 1, 1, 1, 0, 0, 0));
  }

  lemma Scene11()
    ensures Reached(Two(AtSticks, AtSticks, THINKING, THINKING, 0, 1, 1, 1, 1, 0, 0, 0))
  {
    hide Reached, Left, Right;
    Scene10();
    DoorGoes(Two(AtSticks, Top, THINKING, THINKING, 0, 1, 1, 1, 1, 0, 0, 0), 1,
             Two(AtSticks, AtSticks, THINKING, THINKING, 0, 1, 1, 1, 1, 0, 0, 0));
  }

  lemma Scene12()
    ensures Reached(Two(Check, AtSticks, THINKING, THINKING, 0, 1, 1, 0, 1, 0, 0, 0))
  {
    hide Reached, Left, Right;
    Scene11();
    SticksGoes(Two(AtSticks, AtSticks, THINKING, THINKING, 0, 1, 1, 1, 1, 0, 0, 0), 0,
               Two(Check, AtSticks, THINKING, THINKING, 0, 1, 1, 0, 1, 0, 0, 0));
  }

  lemma Scene13()
    ensures Reached(Two(GrantSelf, AtSticks, ISEATING, THINKING, 0, 1, 1, 0, 1, 0, 1, 0))
  {
    hide Reached, Left, Right;
    Scene12();
    SticksGoes(Two(Check, AtSticks, THINKING, THINKING, 0, 1, 1, 0, 1, 0, 0, 0), 0,
               Two(GrantSelf, AtSticks, ISEATING, THINKING, 0, 1, 1, 0, 1, 0, 1, 0));
  }

  lemma Scene14()
    ensures Reached(Two(AtGrant, AtSticks, ISEATING, THINKING, 0, 1, 1, 1, 1, 0, 1, 0))
  {
    hide Reached, Left, Right;
    Scene13();
    SticksGoes(Two(GrantSelf, AtSticks, ISEATING, THINKING, 0, 1, 1, 0, 1, 0, 1, 0), 0,
               Two(AtGrant, AtSticks, ISEATING, THINKING, 0, 1, 1, 1, 1, 0, 1, 0));
  }

  lemma Scene15()
    ensures Reached(Two(AtGrant, Check, ISEATING, THINKING, 0, 1, 1, 0, 1, 0, 1, 0))
  {
    hide Reached, Left, Right;
    Scene14();
    SticksGoes(Two(AtGrant, AtSticks, ISEATING, THINKING, 0, 1, 1, 1, 1, 0, 1, 0), 1,
               Two(AtGrant, Check, ISEATING, THINKING, 0, 1, 1, 0, 1, 0, 1, 0));
  }

  lemma Scene16()
    ensures Reached(Two(AtGrant, AtGrant, ISEATING, ISHUNGRY, 0, 1, 1, 1, 1, 0, 1, 0))
  {
    hide Reached, Left, Right, TrySticks;
    Scene15();
    var s := Two(AtGrant, Check, ISEATING, THINKING, 0, 1, 1, 0, 1, 0, 1, 0);
    var hungry := s.(phil := [ISEATING, ISHUNGRY]);
    assert s.phil[1 := ISHUNGRY] == hungry.phil;
    TryEffect(hungry, 1);
    SticksGoes(s, 1, Two(AtGrant, AtGrant, ISEATING, ISHUNGRY, 0, 1, 1, 1, 1, 0, 1, 0));
  }

  lemma Scene17()
    ensures Reached(Two(Recheck, AtGrant, ISEATING, ISHUNGRY, 0, 1, 1, 1, 1, 0, 0, 0))
  {
    hide Reached, Left, Right;
    Scene16();
    SticksGoes(Two(AtGrant, AtGrant, ISEATING, ISHUNGRY, 0, 1, 1, 1, 1, 0, 1, 0), 0,
               Two(Recheck, AtGrant, ISEATING, ISHUNGRY, 0, 1, 1, 1, 1, 0, 0, 0));
  }

  lemma Scene18()
    ensures Reached(Two(AtMeal, AtGrant, ISEATING, ISHUNGRY, 0, 1, 1, 1, 1, 0, 0, 0))
  {
    hide Reached, Left, Right;
    Scene17();
    SticksGoes(Two(Recheck, AtGrant, ISEATING, ISHUNGRY, 0, 1, 1, 1, 1, 0, 0, 0), 0,
               Two(AtMeal, AtGrant, ISEATING, ISHUNGRY, 0, 1, 1, 1, 1, 0, 0, 0));
  }

  lemma Scene19()
    ensures Reached(Two(Meal, AtGrant, ISEATING, ISHUNGRY, 0, 1, 1, 1, 0, 0, 0, 0))
  {
    hide Reached;
    Scene18();
    MealGoes(Two(AtMeal, AtGrant, ISEATING, ISHUNGRY, 0, 1, 1, 1, 1, 0, 0, 0), 0,
             Two(Meal, AtGrant, ISEATING, ISHUNGRY, 0, 1, 1, 1, 0, 0, 0, 0));
  }

  lemma Scene20()
    ensures Reached(Two(EatYields(0), AtGrant, ISEATING, ISHUNGRY, 0, 0, 1, 1, 1, 0, 0, 0))
  {
    hide Reached;
    Scene19();
    MealGoes(Two(Meal, AtGrant, ISEATING, ISHUNGRY, 0, 1, 1, 1, 0, 0, 0, 0), 0,
             Two(EatYields(0), AtGrant, ISEATING, ISHUNGRY, 0, 0, 1, 1, 1, 0, 0, 0));
  }

  lemma Scene21()
    ensures Reached(Two(AtPut, AtGrant, ISEATING, ISHUNGRY, 0, 0, 1, 1, 1, 0, 0, 0))
  {
    hide Reached;
    Scene20();
    MealGoes(Two(EatYields(0), AtGrant, ISEATING, ISHUNGRY, 0, 0, 1, 1, 1, 0, 0, 0), 0,
             Two(AtPut, AtGrant, ISEATING, ISHUNGRY, 0, 0, 1, 1, 1, 0, 0, 0));
  }

  lemma Scene22()
    ensures Reached(Two(PutLeft, AtGrant, ISEATING, ISHUNGRY, 0, 0, 1, 0, 1, 0, 0, 0))
  {
    hide Reached, Left, Right;
    Scene21();
    PutGoes(Two(AtPut, AtGrant, ISEATING, ISHUNGRY, 0, 0, 1, 1, 1, 0, 0, 0), 0,
            Two(PutLeft, AtGrant, ISEATING, ISHUNGRY, 0, 0, 1, 0, 1, 0, 0, 0));
  }

  lemma Scene23()
    ensures Reached(Two(PutRight, AtGrant, ISEATING, ISHUNGRY, 0, 0, 1, 0, 1, 0, 0, 1))
  {
    hide Reached, Left, Right;
    Scene22();
    PutGoes(Two(PutLeft, AtGrant, ISEATING, ISHUNGRY, 0, 0, 1, 0, 1, 0, 0, 0), 0,
            Two(PutRight, AtGrant, ISEATING, ISHUNGRY, 0, 0, 1, 0, 1, 0, 0, 1));
  }

  lemma Scene24()
    ensures Reached(Two(PutDown, AtGrant, ISEATING, ISHUNGRY, 0, 0, 1, 0, 1, 0, 0, 1))
  {
    hide Reached, Left, Right;
    Scene23();
    PutGoes(Two(PutRight, AtGrant, ISEATING, ISHUNGRY, 0, 0, 1, 0, 1, 0, 0, 1), 0,
            Two(PutDown, AtGrant, ISEATING, ISHUNGRY, 0, 0, 1, 0, 1, 0, 0, 1));
  }

  lemma Scene25()
    ensures Reached(Two(Think(0), AtGrant, THINKING, ISHUNGRY, 0, 0, 1, 1, 1, 0, 0, 1))
  {
    hide Reached, Left, Right;
    Scene24();
    PutGoes(Two(PutDown, AtGrant, ISEATING, ISHUNGRY, 0, 0, 1, 0, 1, 0, 0, 1), 0,
            Two(Think(0), AtGrant, THINKING, ISHUNGRY, 0, 0, 1, 1, 1, 0, 0, 1));
  }

  lemma Scene26()
    ensures Reached(Two(Think(0), Recheck, THINKING, ISHUNGRY, 0, 0, 1, 1, 1, 0, 0, 0))
  {
    hide Reached, Left, Right;
    Scene25();
    SticksGoes(Two(Think(0), AtGrant, THINKING, ISHUNGRY, 0, 0, 1, 1, 1, 0, 0, 1), 1,
               Two(Think(0), Recheck, THINKING, ISHUNGRY, 0, 0, 1, 1, 1, 0, 0, 0));
  }

  lemma Scene27()
    ensures Reached(Two(Think(0), GrantSelf, THINKING, ISEATING, 0, 0, 1, 1, 1, 0, 0, 1))
  {
    hide Reached, Left, Right;
    Scene26();
    SticksGoes(Two(Think(0), Recheck, THINKING, ISHUNGRY, 0, 0, 1, 1, 1, 0, 0, 0), 1,
               Two(Think(0), GrantSelf, THINKING, ISEATING, 0, 0, 1, 1, 1, 0, 0, 1));
  }

  lemma Scene28()
    ensures Reached(Two(Think(0), AtGrant, THINKING, ISEATING, 0, 0, 1, 2, 1, 0, 0, 1))
  {
    hide Reached, Left, Right;
    Scene27();
    SticksGoes(Two(Think(0), GrantSelf, THINKING, ISEATING, 0, 0, 1, 1, 1, 0, 0, 1), 1,
               Two(Think(0), AtGrant, THINKING, ISEATING, 0, 0, 1, 2, 1, 0, 0, 1));
  }

  /** Two philosophers and one meal suffice: one eats while the other waits, is granted the sticks and goes
      around; and mutex is two. */
  lemma MutexReachesTwo()
    ensures exists turns, s :: IsRun(Init(2, 1), turns, s) && s.mutex == 2
  {
    hide IsRun, Init;
    Scene28();
    var turns :| IsRun(Init(2, 1), turns, Two(Think(0), AtGrant, THINKING, ISEATING, 0, 0, 1, 2, 1, 0, 0, 1));
  }
}
