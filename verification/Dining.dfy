/** threadtest.cc: dining philosophers with semaphores, as a step system. A step is a stretch of
    code up to and including its next P, V or Yield; the code leading to a P that may block is a step of
    its own. Kernel.dfy shows what the semaphores guarantee; here P(x) can be performed when x > 0. */
module Dining {
  import opened Counting

  /** Where a philosopher is: at a P, or with the code named ahead of it. */
  datatype PC =
    | AtEnter | Entering | SitGrants(j: nat) | AtSit          // DinPhilSemaphore, up to the table
    | Top                                                     // the test of done[i]
    | AtSticks | Check | GrantSelf | AtGrant | Recheck        // GetSticks
    | AtMeal | Meal | EatYields(n: nat)                       // Eat
    | AtPut | PutLeft | PutRight | PutDown | Think(n: nat)    // PutSticks and the wait after it
    | AtLeave | Leaving | LeaveGrants(j: nat) | AtLeaveTogether | AtLeaveAgain | LastWords   // LeaveRoom
    | Gone

  datatype PState = THINKING | ISEATING | ISHUNGRY

  datatype DState = DState(
    pc: seq<PC>, phil: seq<PState>, done: seq<bool>,
    notIn: int, mealLeft: int, eaten: nat, rdyLeave: int, grantLeave: int, leaveGrant: bool,
    enterMutex: nat, mutex: nat, mealMutex: nat, leaveMutex: nat, sit: nat, leave: nat, grant: seq<nat>)

  function P(s: DState): nat {
    |s.pc|
  }

  predicate WellFormed(s: DState) {
    P(s) >= 2 && |s.phil| == |s.done| == |s.grant| == P(s)
  }

  lemma ModSmall(x: int, m: int)
    requires 0 < m && 0 <= x < 2 * m
    ensures x % m == if x < m then x else x - m
  {
  }

  function Left(s: DState, i: nat): (l: nat)
    requires i < P(s)
    ensures l < P(s) && l == if i == 0 then P(s) - 1 else i - 1
  {
    ModSmall(i - 1 + P(s), P(s));
    (i - 1 + P(s)) % P(s)
  }

  function Right(s: DState, i: nat): (r: nat)
    requires i < P(s)
    ensures r < P(s) && r == if i == P(s) - 1 then 0 else i + 1
  {
    ModSmall(i + 1, P(s));
    (i + 1) % P(s)
  }

  /** The start, for n philosophers and m meals. */
  function Init(n: nat, m: nat): DState {
    DState(seq(n, i => AtEnter), seq(n, i => THINKING), seq(n, i => false),
           n, m, 0, 0, 0, false, 1, 1, 1, 1, 0, 0, seq(n, i => 0))
  }

  /** Philosopher i has not finished and is not stuck at a P. */
  predicate CanStep(s: DState, i: nat)
    requires WellFormed(s) && i < P(s)
  {
    match s.pc[i]
    case AtEnter => s.enterMutex > 0
    case AtSit => s.sit > 0
    case AtSticks => s.mutex > 0
    case AtGrant => s.grant[i] > 0
    case AtMeal => s.mealMutex > 0
    case AtPut => s.mutex > 0
    case AtLeave => s.leaveMutex > 0
    case AtLeaveTogether => s.leave > 0
    case AtLeaveAgain => s.leaveMutex > 0
    case Gone => false
    case _ => true
  }

  /** Both chopsticks are free: no neighbour eats. With two philosophers there is one neighbour. */
  predicate SticksFree(s: DState, i: nat)
    requires WellFormed(s) && i < P(s)
  {
    (P(s) > 2 && s.phil[Left(s, i)] != ISEATING && s.phil[Right(s, i)] != ISEATING) ||
    (P(s) == 2 && s.phil[Right(s, i)] != ISEATING)
  }

  /** The body of the loop in GetSticks up to its V's: taken first with the state just set to hungry,
      and again, without taking mutex again, after every grant. */
  function TrySticks(s: DState, i: nat): DState
    requires WellFormed(s) && i < P(s)
  {
    if s.phil[i] == ISHUNGRY && SticksFree(s, i) then
      s.(pc := s.pc[i := GrantSelf], phil := s.phil[i := ISEATING], grant := s.grant[i := s.grant[i] + 1])
    else
      s.(pc := s.pc[i := AtGrant], mutex := s.mutex + 1)
  }

  predicate AtDoor(pc: PC) { pc.AtEnter? || pc.Entering? || pc.SitGrants? || pc.AtSit? || pc.Top? }
  predicate TakingSticks(pc: PC) { pc.AtSticks? || pc.Check? || pc.GrantSelf? || pc.AtGrant? || pc.Recheck? }
  predicate EatingMeal(pc: PC) { pc.AtMeal? || pc.Meal? || pc.EatYields? }
  predicate PuttingDown(pc: PC) { pc.AtPut? || pc.PutLeft? || pc.PutRight? || pc.PutDown? || pc.Think? }

  function DoorStep(s: DState, i: nat): DState
    requires WellFormed(s) && i < P(s) && CanStep(s, i) && AtDoor(s.pc[i])
  {
    match s.pc[i]
    case AtEnter => s.(pc := s.pc[i := Entering], enterMutex := s.enterMutex - 1)
    case Entering =>
      if s.notIn - 1 == 0 then s.(pc := s.pc[i := SitGrants(0)], notIn := 0)
      else s.(pc := s.pc[i := AtSit], notIn := s.notIn - 1, enterMutex := s.enterMutex + 1)
    case SitGrants(j) =>
      if j < P(s) then s.(pc := s.pc[i := SitGrants(j + 1)], sit := s.sit + 1)
      else s.(pc := s.pc[i := AtSit], enterMutex := s.enterMutex + 1)
    case AtSit => s.(pc := s.pc[i := Top], sit := s.sit - 1)
    case Top => s.(pc := s.pc[i := if s.done[i] then AtLeave else AtSticks])
  }

  function SticksStep(s: DState, i: nat): DState
    requires WellFormed(s) && i < P(s) && CanStep(s, i) && TakingSticks(s.pc[i])
  {
    match s.pc[i]
    case AtSticks => s.(pc := s.pc[i := Check], mutex := s.mutex - 1)
    case Check => TrySticks(s.(phil := s.phil[i := ISHUNGRY]), i)
    case GrantSelf => s.(pc := s.pc[i := AtGrant], mutex := s.mutex + 1)
    case AtGrant => s.(pc := s.pc[i := Recheck], grant := s.grant[i := s.grant[i] - 1])
    case Recheck => if s.phil[i] == ISHUNGRY then TrySticks(s, i) else s.(pc := s.pc[i := AtMeal])
  }

  function MealStep(s: DState, i: nat, n: nat): DState
    requires WellFormed(s) && i < P(s) && CanStep(s, i) && EatingMeal(s.pc[i])
  {
    match s.pc[i]
    case AtMeal => s.(pc := s.pc[i := Meal], mealMutex := s.mealMutex - 1)
    case Meal =>
      if s.mealLeft != 0 then
        s.(pc := s.pc[i := EatYields(n)],
           mealLeft := s.mealLeft - 1, eaten := s.eaten + 1, mealMutex := s.mealMutex + 1)
      else
        s.(pc := s.pc[i := EatYields(n)], done := s.done[i := true], mealMutex := s.mealMutex + 1)
    case EatYields(k) => s.(pc := s.pc[i := if k == 0 then AtPut else EatYields(k - 1)])
  }

  function Grant(s: DState, j: nat): seq<nat>
    requires WellFormed(s) && j < P(s)
  {
    if s.phil[j] == ISHUNGRY then s.grant[j := s.grant[j] + 1] else s.grant
  }

  function PutStep(s: DState, i: nat, n: nat): DState
    requires WellFormed(s) && i < P(s) && CanStep(s, i) && PuttingDown(s.pc[i])
  {
    match s.pc[i]
    case AtPut => s.(pc := s.pc[i := PutLeft], mutex := s.mutex - 1)
    case PutLeft => s.(pc := s.pc[i := PutRight], grant := Grant(s, Left(s, i)))
    case PutRight => s.(pc := s.pc[i := PutDown], grant := if P(s) > 2 then Grant(s, Right(s, i)) else s.grant)
    case PutDown => s.(pc := s.pc[i := Think(n)], phil := s.phil[i := THINKING], mutex := s.mutex + 1)
    case Think(k) => s.(pc := s.pc[i := if k == 0 then Top else Think(k - 1)])
  }

  function LeaveStep(s: DState, i: nat): DState
    requires WellFormed(s) && i < P(s) && CanStep(s, i) && InLeaveRoom(s.pc[i])
  {
    match s.pc[i]
    case AtLeave => s.(pc := s.pc[i := Leaving], leaveMutex := s.leaveMutex - 1)
    case Leaving =>
      if s.rdyLeave + 1 == P(s) then s.(pc := s.pc[i := LeaveGrants(0)], rdyLeave := s.rdyLeave + 1)
      else s.(pc := s.pc[i := AtLeaveTogether], rdyLeave := s.rdyLeave + 1, leaveMutex := s.leaveMutex + 1)
    case LeaveGrants(j) =>
      if j < P(s) then s.(pc := s.pc[i := LeaveGrants(j + 1)], leave := s.leave + 1)
      else s.(pc := s.pc[i := AtLeaveTogether], leaveMutex := s.leaveMutex + 1)
    case AtLeaveTogether => s.(pc := s.pc[i := AtLeaveAgain], leave := s.leave - 1)
    case AtLeaveAgain => s.(pc := s.pc[i := LastWords], leaveMutex := s.leaveMutex - 1)
    case LastWords =>
      if s.grantLeave < P(s) - 1 then
        s.(pc := s.pc[i := Gone], grantLeave := s.grantLeave + 1, leaveMutex := s.leaveMutex + 1)
      else s.(pc := s.pc[i := Gone], leaveGrant := true)
  }

  /** What philosopher i does next; n is the random number of yields of a BusyWaitingLoop it starts. */
  function Step(s: DState, i: nat, n: nat): DState
    requires WellFormed(s) && i < P(s) && CanStep(s, i)
  {
    if AtDoor(s.pc[i]) then DoorStep(s, i)
    else if TakingSticks(s.pc[i]) then SticksStep(s, i)
    else if EatingMeal(s.pc[i]) then MealStep(s, i, n)
    else if PuttingDown(s.pc[i]) then PutStep(s, i, n)
    else LeaveStep(s, i)
  }

  // ---------------------------------------------------------------- counting philosophers

  predicate Outside(pc: PC) { pc.AtEnter? || pc.Entering? }
  predicate BeforeTable(pc: PC) { Outside(pc) || pc.SitGrants? || pc.AtSit? }
  predicate Seated(pc: PC) { !BeforeTable(pc) }
  predicate AfterReady(pc: PC) { pc.LeaveGrants? || pc.AtLeaveTogether? || Released(pc) }
  predicate Released(pc: PC) { pc.AtLeaveAgain? || pc.LastWords? || pc.Gone? }
  predicate IsGone(pc: PC) { pc.Gone? }
  predicate InLeaveRoom(pc: PC) { pc.AtLeave? || pc.Leaving? || AfterReady(pc) }

  // ---------------------------------------------------------------- safety, on every interleaving

  /** The chopstick state goes with the place in the code. */
  predicate Honest(pc: PC, st: PState) {
    match pc
    case GrantSelf => st == ISEATING
    case AtGrant => st != THINKING
    case Recheck => st != THINKING
    case AtMeal => st == ISEATING
    case Meal => st == ISEATING
    case EatYields(_) => st == ISEATING
    case AtPut => st == ISEATING
    case PutLeft => st == ISEATING
    case PutRight => st == ISEATING
    case PutDown => st == ISEATING
    case _ => st == THINKING
  }

  predicate Exclusive(s: DState)
    requires WellFormed(s)
  {
    && (forall i :: 0 <= i < P(s) ==> Honest(s.pc[i], s.phil[i]))
    && (forall i :: 0 <= i < P(s) ==> s.phil[i] == ISEATING ==> s.phil[Right(s, i)] != ISEATING)
  }

  /** Trying for the sticks either takes both, which needs both free, or waits for a grant. */
  lemma TryEffect(s: DState, i: nat)
    requires WellFormed(s) && i < P(s) && s.phil[i] == ISHUNGRY
    ensures var t := TrySticks(s, i);
      if SticksFree(s, i) then
        t == s.(pc := s.pc[i := GrantSelf], phil := s.phil[i := ISEATING], grant := s.grant[i := s.grant[i] + 1])
      else t == s.(pc := s.pc[i := AtGrant], mutex := s.mutex + 1)
  {
  }

  /** A step touches one philosopher's place and state, and picks up sticks only when both are free. */
  predicate Own(s: DState, t: DState, i: nat)
    requires WellFormed(s) && i < P(s)
  {
    && WellFormed(t) && P(t) == P(s)
    && t.pc == s.pc[i := t.pc[i]] && t.phil == s.phil[i := t.phil[i]]
    && Honest(t.pc[i], t.phil[i])
    && (t.phil[i] == ISEATING && s.phil[i] != ISEATING ==> SticksFree(s, i))
  }

  lemma OwnState(s: DState, i: nat, n: nat)
    requires WellFormed(s) && i < P(s) && CanStep(s, i) && Honest(s.pc[i], s.phil[i])
    ensures Own(s, Step(s, i, n), i)
  {
    hide Left, Right, TrySticks, SticksFree, Grant, SticksStep, Own;
    if TakingSticks(s.pc[i]) {
      OwnSticks(s, i);
    } else {
      OwnOther(s, i, n);
    }
  }

  lemma OwnOther(s: DState, i: nat, n: nat)
    requires WellFormed(s) && i < P(s) && CanStep(s, i) && Honest(s.pc[i], s.phil[i]) && !TakingSticks(s.pc[i])
    ensures Own(s, Step(s, i, n), i)
  {
    hide Left, Right, SticksStep, SticksFree, DoorStep, MealStep, LeaveStep, PutStep;
    assert s.phil[i := s.phil[i]] == s.phil;
    if AtDoor(s.pc[i]) {
      OwnDoor(s, i);
    } else if EatingMeal(s.pc[i]) {
      OwnMeal(s, i, n);
    } else if PuttingDown(s.pc[i]) {
      OwnPut(s, i, n);
    } else {
      OwnLeave(s, i);
    }
  }

  lemma OwnDoor(s: DState, i: nat)
    requires WellFormed(s) && i < P(s) && CanStep(s, i) && Honest(s.pc[i], s.phil[i]) && AtDoor(s.pc[i])
    ensures var t := DoorStep(s, i);
      WellFormed(t) && P(t) == P(s) && t.pc == s.pc[i := t.pc[i]] && t.phil == s.phil && Honest(t.pc[i], t.phil[i])
  {
  }

  lemma OwnMeal(s: DState, i: nat, n: nat)
    requires WellFormed(s) && i < P(s) && CanStep(s, i) && Honest(s.pc[i], s.phil[i]) && EatingMeal(s.pc[i])
    ensures var t := MealStep(s, i, n);
      WellFormed(t) && P(t) == P(s) && t.pc == s.pc[i := t.pc[i]] && t.phil == s.phil && Honest(t.pc[i], t.phil[i])
  {
  }

  lemma OwnPut(s: DState, i: nat, n: nat)
    requires WellFormed(s) && i < P(s) && CanStep(s, i) && Honest(s.pc[i], s.phil[i]) && PuttingDown(s.pc[i])
    ensures Own(s, PutStep(s, i, n), i)
  {
    hide Left, Right, SticksFree;
    assert s.phil[i := s.phil[i]] == s.phil;
  }

  lemma OwnLeave(s: DState, i: nat)
    requires WellFormed(s) && i < P(s) && CanStep(s, i) && Honest(s.pc[i], s.phil[i]) && InLeaveRoom(s.pc[i])
    ensures var t := LeaveStep(s, i);
      WellFormed(t) && P(t) == P(s) && t.pc == s.pc[i := t.pc[i]] && t.phil == s.phil && Honest(t.pc[i], t.phil[i])
  {
  }

  lemma OwnSticks(s: DState, i: nat)
    requires WellFormed(s) && i < P(s) && CanStep(s, i) && Honest(s.pc[i], s.phil[i]) && TakingSticks(s.pc[i])
    ensures Own(s, SticksStep(s, i), i)
  {
    hide Left, Right, TrySticks, SticksFree;
    assert s.phil[i := s.phil[i]] == s.phil;
    if s.pc[i].Check? {
      var hungry := s.(phil := s.phil[i := ISHUNGRY]);
      TryEffect(hungry, i);
      SticksOfOthers(s, hungry, i);
    } else if s.pc[i].Recheck? && s.phil[i] == ISHUNGRY {
      TryEffect(s, i);
    }
  }

  lemma SticksOfOthers(s: DState, t: DState, i: nat)
    requires WellFormed(s) && WellFormed(t) && P(s) == P(t) && i < P(s) && t.phil == s.phil[i := t.phil[i]]
    ensures SticksFree(t, i) == SticksFree(s, i)
  {
  }

  lemma ExclusiveStep(s: DState, i: nat, n: nat)
    requires WellFormed(s) && i < P(s) && CanStep(s, i) && Exclusive(s)
    ensures WellFormed(Step(s, i, n)) && Exclusive(Step(s, i, n))
  {
    hide Left, Right, Step;
    OwnState(s, i, n);
    var t := Step(s, i, n);
    forall j | 0 <= j < P(s)
      ensures Honest(t.pc[j], t.phil[j])
      ensures t.phil[j] == ISEATING ==> t.phil[Right(t, j)] != ISEATING
    {
      assert Right(t, j) == Right(s, j);
      assert Right(s, j) == i ==> j == Left(s, i);
      assert s.phil[j] == ISEATING ==> s.phil[Right(s, j)] != ISEATING;
    }
  }

  // ---------------------------------------------------------------- meals and barriers, on every interleaving

  /** m meals in all; the two counters at the doors count who has passed them; nobody sits before all
      are in, and nobody is let out before all are ready to leave, which is when no meal is left. */
  predicate Ledger(s: DState, m: nat)
    requires WellFormed(s)
  {
    && s.mealLeft >= 0 && s.eaten + s.mealLeft == m
    && s.notIn == Count(s.pc, Outside)
    && s.rdyLeave == Count(s.pc, AfterReady)
    && (s.sit > 0 ==> s.notIn == 0)
    && (s.leave > 0 ==> s.rdyLeave == P(s))
    && (forall i :: 0 <= i < P(s) ==> LocalLedger(s, i))
  }

  predicate LocalLedger(s: DState, i: nat)
    requires WellFormed(s) && i < P(s)
  {
    && (Seated(s.pc[i]) || s.pc[i].SitGrants? ==> s.notIn == 0)
    && (Released(s.pc[i]) || s.pc[i].LeaveGrants? ==> s.rdyLeave == P(s))
    && (s.done[i] ==> s.mealLeft == 0)
    && (InLeaveRoom(s.pc[i]) ==> s.done[i])
  }

  lemma Counts(s: DState, t: DState, i: nat)
    requires WellFormed(s) && WellFormed(t) && P(t) == P(s) && i < P(s) && t.pc == s.pc[i := t.pc[i]]
    ensures Count(t.pc, Outside) == Count(s.pc, Outside) - One(Outside(s.pc[i])) + One(Outside(t.pc[i]))
    ensures Count(t.pc, AfterReady) == Count(s.pc, AfterReady) - One(AfterReady(s.pc[i])) + One(AfterReady(t.pc[i]))
    ensures Outside(s.pc[i]) ==> Count(s.pc, Outside) > 0
    ensures !AfterReady(s.pc[i]) ==> Count(s.pc, AfterReady) < P(s)
  {
    CountUpdate(s.pc, i, t.pc[i], Outside);
    CountUpdate(s.pc, i, t.pc[i], AfterReady);
    CountExtremes(s.pc, Outside);
    CountExtremes(s.pc, AfterReady);
  }

  /** Taking sticks and putting them down touches only places, states, mutex and grants. */
  predicate Quiet(s: DState, t: DState, i: nat)
    requires WellFormed(s) && i < P(s)
  {
    && t == s.(pc := t.pc, phil := t.phil, mutex := t.mutex, grant := t.grant) && P(t) == P(s)
    && t.pc == s.pc[i := t.pc[i]] && |t.phil| == |s.phil| && |t.grant| == |s.grant|
    && (t.pc[i] == Top || TakingSticks(t.pc[i]) || PuttingDown(t.pc[i]) || EatingMeal(t.pc[i]))
  }

  lemma SticksFrame(s: DState, i: nat, n: nat)
    requires WellFormed(s) && i < P(s) && CanStep(s, i) && (TakingSticks(s.pc[i]) || PuttingDown(s.pc[i]))
    ensures Quiet(s, Step(s, i, n), i)
  {
    hide Left, Right, SticksFree, SticksStep, PutStep, DoorStep, MealStep, LeaveStep, Quiet, CanStep;
    if TakingSticks(s.pc[i]) {
      TakingFrame(s, i);
    } else {
      PuttingFrame(s, i, n);
    }
  }

  lemma TakingFrame(s: DState, i: nat)
    requires WellFormed(s) && i < P(s) && CanStep(s, i) && TakingSticks(s.pc[i])
    ensures Quiet(s, SticksStep(s, i), i)
  {
    hide Left, Right, SticksFree;
  }

  lemma PuttingFrame(s: DState, i: nat, n: nat)
    requires WellFormed(s) && i < P(s) && CanStep(s, i) && PuttingDown(s.pc[i])
    ensures Quiet(s, PutStep(s, i, n), i)
  {
    hide Left, Right;
  }

  lemma LedgerStep(s: DState, i: nat, n: nat, m: nat)
    requires WellFormed(s) && i < P(s) && CanStep(s, i) && Exclusive(s) && Ledger(s, m)
    ensures WellFormed(Step(s, i, n)) && Ledger(Step(s, i, n), m)
  {
    hide Count, LocalLedger, SticksStep, PutStep, DoorStep, MealStep, LeaveStep;
    OwnState(s, i, n);
    if AtDoor(s.pc[i]) {
      LedgerDoor(s, i, m);
    } else if InLeaveRoom(s.pc[i]) {
      LedgerLeave(s, i, m);
    } else if EatingMeal(s.pc[i]) {
      LedgerMeal(s, i, n, m);
    } else {
      SticksFrame(s, i, n);
      LedgerQuiet(s, Step(s, i, n), i, m);
    }
  }

  lemma QuietLocal(s: DState, t: DState, i: nat, j: nat)
    requires WellFormed(s) && i < P(s) && j < P(s) && LocalLedger(s, i) && LocalLedger(s, j)
    requires (TakingSticks(s.pc[i]) || PuttingDown(s.pc[i]))
    requires Quiet(s, t, i)
    ensures WellFormed(t) && LocalLedger(t, j)
  {
  }

  lemma LedgerQuiet(s: DState, t: DState, i: nat, m: nat)
    requires WellFormed(s) && i < P(s) && Ledger(s, m) && (TakingSticks(s.pc[i]) || PuttingDown(s.pc[i]))
    requires Quiet(s, t, i)
    ensures Ledger(t, m)
  {
    hide Count, LocalLedger;
    Counts(s, t, i);
    assert LocalLedger(s, i);
    forall j | 0 <= j < P(s) ensures LocalLedger(t, j) {
      assert LocalLedger(s, j);
      hide LocalLedger, Count;
      QuietLocal(s, t, i, j);
    }
  }

  lemma DoorLocal(s: DState, i: nat, j: nat)
    requires WellFormed(s) && i < P(s) && CanStep(s, i) && AtDoor(s.pc[i]) && j < P(s)
    requires LocalLedger(s, i) && LocalLedger(s, j) && (s.sit > 0 ==> s.notIn == 0)
    requires (Outside(s.pc[i]) ==> s.notIn > 0)
    ensures WellFormed(DoorStep(s, i)) && P(DoorStep(s, i)) == P(s) && LocalLedger(DoorStep(s, i), j)
  {
  }

  /** What a step at the door does to everything the ledger is about, but for the philosophers themselves. */
  lemma DoorFrame(s: DState, i: nat)
    requires WellFormed(s) && i < P(s) && CanStep(s, i) && AtDoor(s.pc[i])
    requires s.pc[i].SitGrants? ==> s.notIn == 0
    requires s.sit > 0 ==> s.notIn == 0
    ensures var t := DoorStep(s, i);
      && WellFormed(t) && P(t) == P(s) && t.pc == s.pc[i := t.pc[i]]
      && t.mealLeft == s.mealLeft && t.eaten == s.eaten && t.rdyLeave == s.rdyLeave && t.leave == s.leave
      && t.notIn == s.notIn - One(Outside(s.pc[i])) + One(Outside(t.pc[i]))
      && !AfterReady(s.pc[i]) && !AfterReady(t.pc[i])
      && (t.sit > 0 ==> t.notIn == 0 || Outside(s.pc[i]))
      && (Outside(s.pc[i]) ==> t.sit == s.sit)
  {
  }

  lemma LedgerDoor(s: DState, i: nat, m: nat)
    requires WellFormed(s) && i < P(s) && CanStep(s, i) && Ledger(s, m) && AtDoor(s.pc[i])
    ensures Ledger(DoorStep(s, i), m)
  {
    hide DoorStep, CanStep, Count, LocalLedger;
    LocalSitGrants(s, i);
    DoorFrame(s, i);
    var t := DoorStep(s, i);
    Counts(s, t, i);
    forall j | 0 <= j < P(s) ensures LocalLedger(t, j) {
      DoorLocal(s, i, j);
    }
  }

  lemma LocalSitGrants(s: DState, i: nat)
    requires WellFormed(s) && i < P(s) && LocalLedger(s, i)
    ensures s.pc[i].SitGrants? ==> s.notIn == 0
  {
  }

  lemma LeaveLocal(s: DState, i: nat, j: nat)
    requires WellFormed(s) && i < P(s) && CanStep(s, i) && InLeaveRoom(s.pc[i]) && j < P(s)
    requires LocalLedger(s, i) && LocalLedger(s, j) && (s.leave > 0 ==> s.rdyLeave == P(s))
    requires (!AfterReady(s.pc[i]) ==> s.rdyLeave < P(s))
    ensures WellFormed(LeaveStep(s, i)) && P(LeaveStep(s, i)) == P(s) && LocalLedger(LeaveStep(s, i), j)
  {
  }

  /** What a step in the leave room does to everything the ledger is about, but for the philosophers. */
  lemma LeaveFrame(s: DState, i: nat)
    requires WellFormed(s) && i < P(s) && CanStep(s, i) && InLeaveRoom(s.pc[i])
    requires s.pc[i].LeaveGrants? ==> s.rdyLeave == P(s)
    requires s.leave > 0 ==> s.rdyLeave == P(s)
    ensures var t := LeaveStep(s, i);
      && WellFormed(t) && P(t) == P(s) && t.pc == s.pc[i := t.pc[i]]
      && t.mealLeft == s.mealLeft && t.eaten == s.eaten && t.notIn == s.notIn && t.sit == s.sit
      && t.rdyLeave == s.rdyLeave - One(AfterReady(s.pc[i])) + One(AfterReady(t.pc[i]))
      && !Outside(s.pc[i]) && !Outside(t.pc[i])
      && (t.leave > 0 ==> t.rdyLeave == P(s) || !AfterReady(s.pc[i]))
      && (!AfterReady(s.pc[i]) ==> t.leave == s.leave)
  {
  }

  lemma LedgerLeave(s: DState, i: nat, m: nat)
    requires WellFormed(s) && i < P(s) && CanStep(s, i) && Ledger(s, m) && InLeaveRoom(s.pc[i])
    ensures Ledger(LeaveStep(s, i), m)
  {
    hide LeaveStep, CanStep, Count, LocalLedger;
    LocalLeaveGrants(s, i);
    LeaveFrame(s, i);
    var t := LeaveStep(s, i);
    Counts(s, t, i);
    forall j | 0 <= j < P(s) ensures LocalLedger(t, j) {
      LeaveLocal(s, i, j);
    }
  }

  lemma LocalLeaveGrants(s: DState, i: nat)
    requires WellFormed(s) && i < P(s) && LocalLedger(s, i)
    ensures s.pc[i].LeaveGrants? ==> s.rdyLeave == P(s)
  {
  }

  lemma LedgerMeal(s: DState, i: nat, n: nat, m: nat)
    requires WellFormed(s) && i < P(s) && CanStep(s, i) && Ledger(s, m) && EatingMeal(s.pc[i])
    ensures Ledger(MealStep(s, i, n), m)
  {
    hide Count;
    var t := MealStep(s, i, n);
    Counts(s, t, i);
    forall j | 0 <= j < P(s) ensures LocalLedger(t, j) {
      assert LocalLedger(s, j) && LocalLedger(s, i);
    }
  }

  // ---------------------------------------------------------------- every run

  /** Any interleaving: each turn is a philosopher that can step and the random number it would draw. */
  ghost predicate IsRun(s: DState, turns: seq<(nat, nat)>, last: DState)
    decreases |turns|
  {
    if turns == [] then s == last
    else
      && WellFormed(s) && turns[0].0 < P(s) && CanStep(s, turns[0].0)
      && IsRun(Step(s, turns[0].0, turns[0].1), turns[1..], last)
  }

  lemma InitHolds(n: nat, m: nat)
    requires n >= 2
    ensures WellFormed(Init(n, m)) && Exclusive(Init(n, m)) && Ledger(Init(n, m), m)
  {
    CountExtremes(Init(n, m).pc, Outside);
    CountExtremes(Init(n, m).pc, AfterReady);
  }

  lemma {:induction false} RunKeeps(s: DState, turns: seq<(nat, nat)>, last: DState, m: nat)
    requires WellFormed(s) && Exclusive(s) && Ledger(s, m) && IsRun(s, turns, last)
    ensures WellFormed(last) && Exclusive(last) && Ledger(last, m)
    decreases |turns|
  {
    hide Exclusive, Ledger, Step, CanStep;
    if turns != [] {
      ExclusiveStep(s, turns[0].0, turns[0].1);
      LedgerStep(s, turns[0].0, turns[0].1, m);
      RunKeeps(Step(s, turns[0].0, turns[0].1), turns[1..], last, m);
    }
  }

  /** With switches at every P, V and Yield, two neighbours never both eat. */
  lemma NeighboursNeverBothEat(n: nat, m: nat, turns: seq<(nat, nat)>, s: DState, i: nat)
    requires n >= 2 && IsRun(Init(n, m), turns, s) && i < P(s)
    ensures WellFormed(s)
    ensures !(s.phil[i] == ISEATING && s.phil[Right(s, i)] == ISEATING)
    ensures !(EatingMeal(s.pc[i]) && EatingMeal(s.pc[Right(s, i)]))
  {
    InitHolds(n, m);
    RunKeeps(Init(n, m), turns, s, m);
  }

  /** Exactly m meals are served; nobody sits before all are in; nobody is let go before every meal is
      eaten and everybody has put down the sticks for the last time. */
  lemma InTogetherOutTogether(n: nat, m: nat, turns: seq<(nat, nat)>, s: DState, i: nat, j: nat)
    requires n >= 2 && IsRun(Init(n, m), turns, s) && i < P(s) && j < P(s)
    ensures WellFormed(s) && s.eaten <= m
    ensures Seated(s.pc[i]) ==> !Outside(s.pc[j])
    ensures s.done[i] ==> s.eaten == m
    ensures Released(s.pc[i]) ==> s.eaten == m && AfterReady(s.pc[j]) && s.phil[j] == THINKING
  {
    InitHolds(n, m);
    RunKeeps(Init(n, m), turns, s, m);
    assert LocalLedger(s, i) && LocalLedger(s, j);
    assert Honest(s.pc[j], s.phil[j]);
    CountExtremes(s.pc, Outside);
    CountExtremes(s.pc, AfterReady);
  }
}
