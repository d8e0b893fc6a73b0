/** The philosophers of Dining.dfy when no timer takes the processor away: a thread gives it up only
    where it yields, blocks at a P, or ends. Then no run gets stuck before everybody has left. */
module DiningCooperative {
  import opened Counting
  import opened Dining

  /** Where philosopher c may lose the processor. */
  predicate MaySwitch(s: DState, c: nat)
    requires WellFormed(s) && c < P(s)
  {
    !CanStep(s, c) || (s.pc[c].EatYields? && s.pc[c].n > 0) || (s.pc[c].Think? && s.pc[c].n > 0)
  }

  /** Where a philosopher that is not running can be. */
  predicate Resting(pc: PC) {
    pc.AtEnter? || pc.AtSit? || pc.AtGrant? || (pc.EatYields? && pc.n > 0) || (pc.Think? && pc.n > 0) ||
    pc.AtLeaveTogether? || pc.Gone?
  }

  predicate Rest(s: DState, c: nat)
    requires WellFormed(s) && c < P(s)
  {
    forall j :: 0 <= j < P(s) && j != c ==> Resting(s.pc[j])
  }

  /** The running philosopher is the only one that can hold a mutex; GetSticks may leave mutex above one. */
  predicate Mutexes(s: DState, c: nat)
    requires WellFormed(s) && c < P(s)
  {
    var pc := s.pc[c];
    && s.enterMutex == (if pc.Entering? || pc.SitGrants? then 0 else 1)
    && s.mealMutex == (if pc.Meal? then 0 else 1)
    && (s.mutex >= 1 || pc.Check? || pc.GrantSelf? || pc.PutLeft? || pc.PutRight? || pc.PutDown?)
  }

  /** Seats handed out: none before the last one is in, then one each. */
  predicate SitUnits(s: DState, c: nat)
    requires WellFormed(s) && c < P(s)
  {
    var issued := if s.notIn > 0 then 0 else if s.pc[c].SitGrants? then s.pc[c].j else P(s);
    issued <= P(s) && s.sit + Count(s.pc, Seated) == issued
  }

  /** Leave to go: none before the last one is ready, then one each. */
  predicate LeaveUnits(s: DState, c: nat)
    requires WellFormed(s) && c < P(s)
  {
    var issued := if s.rdyLeave < P(s) then 0 else if s.pc[c].LeaveGrants? then s.pc[c].j else P(s);
    issued <= P(s) && s.leave + Count(s.pc, Released) == issued
  }

  /** All but the last one out are counted; the last one keeps the mutex, and says that all have left. */
  predicate LastOut(s: DState, c: nat)
    requires WellFormed(s) && c < P(s)
  {
    var gone := Count(s.pc, IsGone);
    && s.grantLeave == (if gone < P(s) then gone else P(s) - 1) && (s.leaveGrant <==> gone == P(s))
    && s.leaveMutex == (if InLeave(s.pc[c]) || gone == P(s) then 0 else 1)
  }

  /** Between the P and the V of leaveMutex. */
  predicate InLeave(pc: PC) {
    pc.Leaving? || pc.LeaveGrants? || pc.LastWords?
  }

  predicate HasGrant(s: DState, j: nat)
    requires WellFormed(s) && j < P(s)
  {
    s.phil[j] == ISHUNGRY ==> s.grant[j] > 0
  }

  /** An eater at its own grant can pass; a hungry one has a grant pending or a neighbour who eats. */
  predicate Fed(s: DState, j: nat)
    requires WellFormed(s) && j < P(s)
  {
    && (s.pc[j].GrantSelf? || (s.pc[j].AtGrant? && s.phil[j] == ISEATING) ==> s.grant[j] > 0)
    && (s.pc[j].AtGrant? && s.phil[j] == ISHUNGRY ==> s.grant[j] > 0 || !SticksFree(s, j))
  }

  predicate Grants(s: DState, c: nat)
    requires WellFormed(s) && c < P(s)
  {
    && (forall j :: 0 <= j < P(s) ==> Fed(s, j))
    && (s.pc[c].PutRight? || s.pc[c].PutDown? ==> HasGrant(s, Left(s, c)))
    && (s.pc[c].PutDown? ==> HasGrant(s, Right(s, c)))
  }

  predicate CoopInv(s: DState, c: nat, m: nat) {
    && WellFormed(s) && c < P(s) && Exclusive(s) && Ledger(s, m)
    && Rest(s, c) && Mutexes(s, c) && SitUnits(s, c) && LeaveUnits(s, c) && LastOut(s, c) && Grants(s, c)
  }

  // ---------------------------------------------------------------- a step of the running philosopher

  lemma MutexesStep(s: DState, c: nat, n: nat)
    requires WellFormed(s) && c < P(s) && CanStep(s, c) && Honest(s.pc[c], s.phil[c]) && Mutexes(s, c)
    ensures WellFormed(Step(s, c, n)) && Mutexes(Step(s, c, n), c)
  {
    hide Left, Right, SticksFree;
    OwnState(s, c, n);
  }

  lemma CountChange(s: DState, t: DState, c: nat, p: PC -> bool)
    requires WellFormed(s) && WellFormed(t) && P(t) == P(s) && c < P(s) && t.pc == s.pc[c := t.pc[c]]
    ensures Count(t.pc, p) == Count(s.pc, p) - (if p(s.pc[c]) then 1 else 0) + (if p(t.pc[c]) then 1 else 0)
    ensures !p(s.pc[c]) ==> Count(s.pc, p) < P(s)
  {
    CountUpdate(s.pc, c, t.pc[c], p);
    CountExtremes(s.pc, p);
  }

  lemma SeatedCount(s: DState, t: DState, c: nat)
    requires WellFormed(s) && WellFormed(t) && P(t) == P(s) && c < P(s) && t.pc == s.pc[c := t.pc[c]]
    ensures Count(t.pc, Seated) == Count(s.pc, Seated) - One(Seated(s.pc[c])) + One(Seated(t.pc[c]))
    ensures Count(t.pc, Released) == Count(s.pc, Released) - One(Released(s.pc[c])) + One(Released(t.pc[c]))
    ensures Count(t.pc, IsGone) == Count(s.pc, IsGone) - One(IsGone(s.pc[c])) + One(IsGone(t.pc[c]))
    ensures !Seated(s.pc[c]) ==> Count(s.pc, Seated) < P(s)
    ensures !Released(s.pc[c]) ==> Count(s.pc, Released) < P(s)
    ensures !IsGone(s.pc[c]) ==> Count(s.pc, IsGone) < P(s)
  {
    CountUpdate(s.pc, c, t.pc[c], Seated);
    CountUpdate(s.pc, c, t.pc[c], Released);
    CountUpdate(s.pc, c, t.pc[c], IsGone);
    CountExtremes(s.pc, Seated);
    CountExtremes(s.pc, Released);
    CountExtremes(s.pc, IsGone);
  }

  lemma SitDoor(s: DState, c: nat, m: nat)
    requires WellFormed(s) && c < P(s) && CanStep(s, c) && Exclusive(s) && Ledger(s, m) && SitUnits(s, c)
    requires AtDoor(s.pc[c])
    ensures WellFormed(DoorStep(s, c)) && SitUnits(DoorStep(s, c), c)
  {
    hide Left, Right, SticksFree, Count, Exclusive;
    SeatedCount(s, DoorStep(s, c), c);
    Counts(s, DoorStep(s, c), c);
    assert LocalLedger(s, c);
  }

  lemma LeaveDoor(s: DState, c: nat)
    requires WellFormed(s) && c < P(s) && CanStep(s, c) && LeaveUnits(s, c) && InLeaveRoom(s.pc[c])
    requires LocalLedger(s, c) && s.rdyLeave == Count(s.pc, AfterReady) && (s.leave > 0 ==> s.rdyLeave == P(s))
    ensures WellFormed(LeaveStep(s, c)) && LeaveUnits(LeaveStep(s, c), c)
  {
    hide Left, Right, SticksFree, Count, Seated, Outside, IsGone;
    CountChange(s, LeaveStep(s, c), c, Released);
    CountChange(s, LeaveStep(s, c), c, AfterReady);
  }

  lemma LastOutDoor(s: DState, c: nat)
    requires WellFormed(s) && c < P(s) && CanStep(s, c) && LastOut(s, c) && InLeaveRoom(s.pc[c])
    ensures WellFormed(LeaveStep(s, c)) && LastOut(LeaveStep(s, c), c)
  {
    hide Left, Right, SticksFree, Count, Seated, Outside;
    CountChange(s, LeaveStep(s, c), c, IsGone);
  }

  /** Away from a door, a step leaves that door's counter and units alone. */
  predicate AwayFromDoors(s: DState, t: DState, c: nat)
    requires WellFormed(s) && c < P(s)
  {
    && WellFormed(t) && P(t) == P(s) && t.pc == s.pc[c := t.pc[c]]
    && (!AtDoor(s.pc[c]) ==> t.notIn == s.notIn && t.sit == s.sit && Seated(s.pc[c]) && Seated(t.pc[c]))
    && (!InLeaveRoom(s.pc[c]) ==>
      && t.rdyLeave == s.rdyLeave && t.leave == s.leave && t.grantLeave == s.grantLeave && t.leaveMutex == s.leaveMutex
      && t.leaveGrant == s.leaveGrant
      && !Released(t.pc[c]) && !t.pc[c].LeaveGrants? && !t.pc[c].Leaving?)
  }

  lemma DoorsUntouched(s: DState, c: nat, n: nat)
    requires WellFormed(s) && c < P(s) && CanStep(s, c)
    ensures AwayFromDoors(s, Step(s, c, n), c)
  {
    hide AwayFromDoors, DoorStep, SticksStep, MealStep, PutStep, LeaveStep, CanStep, Quiet;
    if AtDoor(s.pc[c]) {
      AwayAtDoor(s, c);
    } else if TakingSticks(s.pc[c]) || PuttingDown(s.pc[c]) {
      SticksFrame(s, c, n);
      AwayQuiet(s, Step(s, c, n), c);
    } else if EatingMeal(s.pc[c]) {
      AwayAtMeal(s, c, n);
    } else {
      AwayLeaving(s, c);
    }
  }

  lemma AwayQuiet(s: DState, t: DState, c: nat)
    requires WellFormed(s) && c < P(s) && Quiet(s, t, c) && (TakingSticks(s.pc[c]) || PuttingDown(s.pc[c]))
    ensures AwayFromDoors(s, t, c)
  {
  }

  lemma AwayAtDoor(s: DState, c: nat)
    requires WellFormed(s) && c < P(s) && CanStep(s, c) && AtDoor(s.pc[c])
    ensures AwayFromDoors(s, DoorStep(s, c), c)
  {
  }

  lemma AwayAtMeal(s: DState, c: nat, n: nat)
    requires WellFormed(s) && c < P(s) && CanStep(s, c) && EatingMeal(s.pc[c])
    ensures AwayFromDoors(s, MealStep(s, c, n), c)
  {
  }

  lemma AwayLeaving(s: DState, c: nat)
    requires WellFormed(s) && c < P(s) && CanStep(s, c) && InLeaveRoom(s.pc[c])
    ensures AwayFromDoors(s, LeaveStep(s, c), c)
  {
  }

  lemma SitUnitsStep(s: DState, c: nat, n: nat, m: nat)
    requires WellFormed(s) && c < P(s) && CanStep(s, c) && Exclusive(s) && Ledger(s, m) && SitUnits(s, c)
    ensures WellFormed(Step(s, c, n)) && SitUnits(Step(s, c, n), c)
  {
    hide Left, Right, SticksFree, Count, SticksStep, MealStep, PutStep, LeaveStep, DoorStep;
    DoorsUntouched(s, c, n);
    if AtDoor(s.pc[c]) {
      SitDoor(s, c, m);
    } else {
      SeatedCount(s, Step(s, c, n), c);
    }
  }

  lemma LeaveUnitsStep(s: DState, c: nat, n: nat, m: nat)
    requires WellFormed(s) && c < P(s) && CanStep(s, c) && Exclusive(s) && Ledger(s, m) && LeaveUnits(s, c)
    requires LastOut(s, c)
    ensures WellFormed(Step(s, c, n)) && LeaveUnits(Step(s, c, n), c) && LastOut(Step(s, c, n), c)
  {
    hide Left, Right, SticksFree, Count, SticksStep, MealStep, PutStep, LeaveStep, DoorStep;
    DoorsUntouched(s, c, n);
    if InLeaveRoom(s.pc[c]) {
      LeaveDoor(s, c);
      LastOutDoor(s, c);
      hide LeaveUnits, LastOut;
    } else {
      SeatedCount(s, Step(s, c, n), c);
      hide Step;
    }
  }

  // ---------------------------------------------------------------- grants

  /** Taking sticks away from nobody: if j's neighbours eat no more after than before, free sticks stay free. */
  lemma StillBlocked(s: DState, t: DState, j: nat)
    requires WellFormed(s) && WellFormed(t) && P(s) == P(t) && j < P(s)
    requires forall i :: 0 <= i < P(s) ==> s.phil[i] == ISEATING ==> t.phil[i] == ISEATING
    ensures !SticksFree(s, j) ==> !SticksFree(t, j)
  {
  }

  lemma GrantsSticks(s: DState, c: nat)
    requires WellFormed(s) && c < P(s) && CanStep(s, c) && Exclusive(s) && Rest(s, c) && Grants(s, c)
    requires TakingSticks(s.pc[c])
    ensures Own(s, SticksStep(s, c), c) && Grants(SticksStep(s, c), c)
  {
    OwnSticks(s, c);
    var t := SticksStep(s, c);
    forall j | 0 <= j < P(s) ensures Fed(t, j) {
      assert Fed(s, j) && Fed(s, c);
      assert Honest(s.pc[c], s.phil[c]);
      StillBlocked(s, t, j);
      if j == c && s.pc[c].Check? { SticksOfOthers(s, s.(phil := s.phil[c := ISHUNGRY]), c); }
    }
  }

  /** Granting to j, whoever that is, spoils nothing. */
  lemma GrantsMore(s: DState, t: DState, c: nat, j: nat)
    requires WellFormed(s) && WellFormed(t) && P(t) == P(s) && c < P(s) && j < P(s)
    requires forall i :: 0 <= i < P(s) ==> Fed(s, i)
    requires t.phil == s.phil && t.pc == s.pc[c := t.pc[c]] && !t.pc[c].GrantSelf? && !t.pc[c].AtGrant?
    requires t.grant == Grant(s, j)
    ensures (forall i :: 0 <= i < P(s) ==> Fed(t, i)) && HasGrant(t, j)
    ensures forall i :: 0 <= i < P(s) ==> HasGrant(s, i) ==> HasGrant(t, i)
  {
    forall i | 0 <= i < P(s) ensures Fed(t, i) {
      assert Fed(s, i);
      StillBlocked(s, t, i);
    }
  }

  /** When both hungry neighbours hold a grant, c can stop eating. */
  lemma GrantsDown(s: DState, t: DState, c: nat)
    requires WellFormed(s) && WellFormed(t) && P(t) == P(s) && c < P(s) && Grants(s, c) && s.pc[c].PutDown?
    requires t.phil == s.phil[c := THINKING] && t.pc == s.pc[c := t.pc[c]] && t.pc[c].Think? && t.grant == s.grant
    ensures Grants(t, c)
  {
    forall j | 0 <= j < P(s) ensures Fed(t, j) {
      assert Fed(s, j);
      assert Left(t, j) == Left(s, j) && Right(t, j) == Right(s, j);
      assert Left(s, j) == c ==> j == Right(s, c);
      assert Right(s, j) == c ==> j == Left(s, c);
      hide Left, Right;
    }
  }

  lemma GrantsPut(s: DState, c: nat, n: nat)
    requires WellFormed(s) && c < P(s) && CanStep(s, c) && Grants(s, c) && PuttingDown(s.pc[c])
    ensures WellFormed(PutStep(s, c, n)) && Grants(PutStep(s, c, n), c)
  {
    hide Left, Right, SticksFree, Fed, HasGrant;
    var t := PutStep(s, c, n);
    match s.pc[c]
    case PutLeft => GrantsMore(s, t, c, Left(s, c));
    case PutRight =>
      if P(s) > 2 {
        GrantsMore(s, t, c, Right(s, c));
      } else {
        GrantsElsewhereFed(s, t, c);
        SameSides(s, c);
      }
    case PutDown => GrantsDown(s, t, c);
    case _ => GrantsElsewhereFed(s, t, c);
  }

  lemma SameSides(s: DState, c: nat)
    requires WellFormed(s) && c < P(s) && P(s) == 2
    ensures Left(s, c) == Right(s, c)
  {
  }

  lemma GrantsElsewhereFed(s: DState, t: DState, c: nat)
    requires WellFormed(s) && WellFormed(t) && P(t) == P(s) && c < P(s)
    requires forall i :: 0 <= i < P(s) ==> Fed(s, i)
    requires t.pc == s.pc[c := t.pc[c]] && t.phil == s.phil && t.grant == s.grant
    requires t.pc[c] == AtSticks || !TakingSticks(t.pc[c])
    ensures forall i :: 0 <= i < P(s) ==> Fed(t, i)
    ensures forall i :: 0 <= i < P(s) ==> HasGrant(s, i) ==> HasGrant(t, i)
  {
    forall j | 0 <= j < P(s) ensures Fed(t, j) {
      assert Fed(s, j);
      StillBlocked(s, t, j);
    }
  }

  lemma GrantsStep(s: DState, c: nat, n: nat)
    requires WellFormed(s) && c < P(s) && CanStep(s, c) && Exclusive(s) && Rest(s, c) && Grants(s, c)
    ensures WellFormed(Step(s, c, n)) && Grants(Step(s, c, n), c)
  {
    hide Left, Right, SticksFree, Fed, HasGrant, SticksStep, PutStep;
    if TakingSticks(s.pc[c]) {
      GrantsSticks(s, c);
    } else if PuttingDown(s.pc[c]) {
      GrantsPut(s, c, n);
    } else {
      QuietStep(s, c, n);
      GrantsElsewhereFed(s, Step(s, c, n), c);
    }
  }

  /** Away from the sticks no step touches a state or a grant. */
  lemma QuietStep(s: DState, c: nat, n: nat)
    requires WellFormed(s) && c < P(s) && CanStep(s, c) && !TakingSticks(s.pc[c]) && !PuttingDown(s.pc[c])
    ensures var t := Step(s, c, n);
      && WellFormed(t) && P(t) == P(s) && t.pc == s.pc[c := t.pc[c]] && t.phil == s.phil && t.grant == s.grant
      && (t.pc[c] == AtSticks || (!TakingSticks(t.pc[c]) && !t.pc[c].PutRight? && !t.pc[c].PutDown?))
  {
    hide Left, Right, SticksFree, SticksStep, PutStep;
  }

  // ---------------------------------------------------------------- every cooperative run

  lemma CoopStep(s: DState, c: nat, n: nat, m: nat)
    requires CoopInv(s, c, m) && CanStep(s, c)
    ensures CoopInv(Step(s, c, n), c, m)
  {
    ExclusiveStep(s, c, n);
    LedgerStep(s, c, n, m);
    MutexesStep(s, c, n);
    SitUnitsStep(s, c, n, m);
    LeaveUnitsStep(s, c, n, m);
    GrantsStep(s, c, n);
    DoorsUntouched(s, c, n);
    hide Step, Exclusive, Ledger, Mutexes, SitUnits, LeaveUnits, LastOut, Grants;
  }

  /** What stops the running philosopher where it may switch. */
  lemma SwitchPoint(s: DState, c: nat, m: nat)
    requires CoopInv(s, c, m) && MaySwitch(s, c)
    ensures Resting(s.pc[c])
  {
    CountExtremes(s.pc, IsGone);
  }

  lemma CoopSwitch(s: DState, c: nat, d: nat, m: nat)
    requires CoopInv(s, c, m) && MaySwitch(s, c) && d < P(s)
    ensures CoopInv(s, d, m)
  {
    hide Exclusive, Ledger, Count, Fed;
    SwitchPoint(s, c, m);
  }

  /** One event of a run: the running philosopher goes on, drawing n for a wait it may start, or the
      processor passes to d. */
  datatype Event = Goes(n: nat) | SwitchesTo(d: nat)

  ghost predicate IsCoopRun(s: DState, c: nat, events: seq<Event>, last: DState, lastC: nat)
    decreases |events|
  {
    if events == [] then s == last && c == lastC
    else
      && WellFormed(s) && c < P(s)
      && match events[0]
         case Goes(n) => CanStep(s, c) && IsCoopRun(Step(s, c, n), c, events[1..], last, lastC)
         case SwitchesTo(d) => MaySwitch(s, c) && d < P(s) && IsCoopRun(s, d, events[1..], last, lastC)
  }

  lemma CoopInit(n: nat, m: nat, c: nat)
    requires n >= 2 && c < n
    ensures CoopInv(Init(n, m), c, m)
  {
    var s := Init(n, m);
    InitHolds(n, m);
    CountExtremes(s.pc, Outside);
    CountExtremes(s.pc, Seated);
    CountExtremes(s.pc, Released);
    CountExtremes(s.pc, AfterReady);
    CountExtremes(s.pc, IsGone);
    hide Exclusive, Ledger, Count, SticksFree;
  }

  lemma {:induction false} CoopRunKeeps(s: DState, c: nat, events: seq<Event>, last: DState, lastC: nat, m: nat)
    requires CoopInv(s, c, m) && IsCoopRun(s, c, events, last, lastC)
    ensures CoopInv(last, lastC, m)
    decreases |events|
  {
    hide Exclusive, Ledger, Rest, Mutexes, SitUnits, LeaveUnits, LastOut, Grants, Step, CanStep, MaySwitch;
    if events != [] {
      match events[0]
      case Goes(n) =>
        CoopStep(s, c, n, m);
        CoopRunKeeps(Step(s, c, n), c, events[1..], last, lastC, m);
      case SwitchesTo(d) =>
        CoopSwitch(s, c, d, m);
        CoopRunKeeps(s, d, events[1..], last, lastC, m);
    }
  }

  // ---------------------------------------------------------------- nobody starves in front of free sticks

  /** In every cooperative run, a hungry philosopher that waits has a grant pending or a neighbour who eats. */
  lemma HungryIsRemembered(n: nat, m: nat, c: nat, events: seq<Event>, s: DState, lastC: nat, j: nat)
    requires n >= 2 && c < n && IsCoopRun(Init(n, m), c, events, s, lastC) && j < P(s)
    requires s.pc[j].AtGrant? && j < |s.phil| && s.phil[j] == ISHUNGRY
    ensures WellFormed(s)
    ensures s.grant[j] > 0 || s.phil[Left(s, j)] == ISEATING || s.phil[Right(s, j)] == ISEATING
  {
    CoopInit(n, m, c);
    CoopRunKeeps(Init(n, m), c, events, s, lastC, m);
    assert Fed(s, j);
  }

  // ---------------------------------------------------------------- no deadlock

  predicate AllBlocked(s: DState)
    requires WellFormed(s)
  {
    forall i :: 0 <= i < P(s) ==> !CanStep(s, i)
  }

  lemma BlockedPlaces(s: DState, c: nat, m: nat, i: nat)
    requires CoopInv(s, c, m) && AllBlocked(s) && i < P(s)
    ensures s.pc[i].AtSit? || s.pc[i].AtGrant? || s.pc[i].AtLeaveTogether? || s.pc[i].Gone?
  {
    hide Exclusive, Ledger, SitUnits, LeaveUnits, LastOut, Grants;
    assert !CanStep(s, c) && !CanStep(s, i);
    SwitchPoint(s, c, m);
  }

  lemma NobodyEats(s: DState, c: nat, m: nat, k: nat)
    requires CoopInv(s, c, m) && AllBlocked(s) && k < P(s)
    ensures s.phil[k] != ISEATING
  {
    hide Ledger, SitUnits, LeaveUnits, LastOut, Mutexes, Rest, Left, Right;
    assert !CanStep(s, k) && Fed(s, k) && Honest(s.pc[k], s.phil[k]);
    BlockedPlaces(s, c, m, k);
  }

  lemma NobodyAtGrant(s: DState, c: nat, m: nat, i: nat)
    requires CoopInv(s, c, m) && AllBlocked(s) && i < P(s)
    ensures !s.pc[i].AtGrant?
  {
    hide Ledger, SitUnits, LeaveUnits, LastOut, Mutexes, Rest, Left, Right;
    NobodyEats(s, c, m, i);
    NobodyEats(s, c, m, Left(s, i));
    NobodyEats(s, c, m, Right(s, i));
    assert !CanStep(s, i) && Fed(s, i) && Honest(s.pc[i], s.phil[i]);
  }

  lemma NobodyAtDoors(s: DState, c: nat, m: nat, i: nat)
    requires CoopInv(s, c, m) && AllBlocked(s) && i < P(s)
    ensures !s.pc[i].AtSit? && !s.pc[i].AtLeaveTogether?
  {
    hide Exclusive, Grants, Mutexes, Rest, Count;
    forall j | 0 <= j < P(s)
      ensures s.pc[j].AtSit? || s.pc[j].AtLeaveTogether? || s.pc[j].Gone?
    {
      BlockedPlaces(s, c, m, j);
      NobodyAtGrant(s, c, m, j);
    }
    assert !CanStep(s, i);
    CountExtremes(s.pc, Outside);
    CountExtremes(s.pc, Seated);
    assert !s.pc[i].AtSit?;
    forall j | 0 <= j < P(s) ensures AfterReady(s.pc[j]) {
      assert !CanStep(s, j);
    }
    CountExtremes(s.pc, AfterReady);
    CountExtremes(s.pc, Released);
  }

  /** When nobody can go on, everybody has left. */
  lemma BlockedMeansGone(s: DState, c: nat, m: nat)
    requires CoopInv(s, c, m) && AllBlocked(s)
    ensures forall i :: 0 <= i < P(s) ==> s.pc[i].Gone?
  {
    forall i | 0 <= i < P(s) ensures s.pc[i].Gone? {
      BlockedPlaces(s, c, m, i);
      NobodyAtGrant(s, c, m, i);
      NobodyAtDoors(s, c, m, i);
    }
  }

  /** No cooperative run deadlocks: if nobody can go on, all have left and every meal was eaten. */
  lemma NoDeadlock(n: nat, m: nat, c: nat, events: seq<Event>, s: DState, lastC: nat)
    requires n >= 2 && c < n && IsCoopRun(Init(n, m), c, events, s, lastC)
    ensures WellFormed(s)
    ensures (exists i :: 0 <= i < P(s) && CanStep(s, i)) ||
      (s.eaten == m && s.leaveGrant && forall i :: 0 <= i < P(s) ==> s.pc[i].Gone?)
  {
    hide Exclusive, Rest, Mutexes, SitUnits, LeaveUnits, Grants, Count;
    CoopInit(n, m, c);
    CoopRunKeeps(Init(n, m), c, events, s, lastC, m);
    if AllBlocked(s) {
      BlockedMeansGone(s, lastC, m);
      assert LocalLedger(s, 0);
      CountExtremes(s.pc, IsGone);
    }
  }
}
