/** The philosophers of Dining.dfy: every run comes to an end, whatever the interleaving, because every step
    uses up some of a stock of work that the meals and the philosophers bring along. So a cooperative run
    that goes on as long as it can ends with every meal eaten and everybody gone. */
module DiningEnds {
  import opened Counting
  import opened Dining
  import DiningCooperative

  // ---------------------------------------------------------------- the work ahead

  /** The steps from the test of done[i] to the end, at most, when that is true: the leave room with its
      grants for n philosophers. */
  function WayOut(n: nat): nat {
    n + 7
  }

  /** From Eat on, when there is nothing left to eat: the waits, of at most y yields each, and the way out. */
  function LastMeal(n: nat, y: nat): nat {
    WayOut(n) + 2 * y + 11
  }

  /** From the test of done[i] on, when that is false: two units of a grant come and go on the way to Eat. */
  function Lap(n: nat, y: nat): nat {
    LastMeal(n, y) + 10
  }

  /** What one philosopher has ahead, but for the meals that are left. */
  function Work(pc: PC, st: PState, done: bool, n: nat, y: nat): nat {
    var again := if done then WayOut(n) else Lap(n, y);
    match pc
    case AtEnter => Lap(n, y) + n + 4
    case Entering => Lap(n, y) + n + 3
    case SitGrants(j) => Lap(n, y) + 2 + if j < n then n - j else 0
    case AtSit => Lap(n, y) + 1
    case Top => again
    case AtSticks => LastMeal(n, y) + 9
    case Check => LastMeal(n, y) + 8
    case GrantSelf => LastMeal(n, y) + 4
    case AtGrant => LastMeal(n, y) + if st == ISHUNGRY then 7 else 3
    case Recheck => LastMeal(n, y) + if st == ISHUNGRY then 8 else 2
    case AtMeal => LastMeal(n, y) + 1
    case Meal => LastMeal(n, y)
    case EatYields(k) => again + y + 10 + k
    case AtPut => again + y + 9
    case PutLeft => again + y + 8
    case PutRight => again + y + 5
    case PutDown => again + y + 2
    case Think(k) => again + 1 + k
    case AtLeave => n + 6
    case Leaving => n + 5
    case LeaveGrants(j) => 4 + if j < n then n - j else 0
    case AtLeaveTogether => 3
    case AtLeaveAgain => 2
    case LastWords => 1
    case Gone => 0
  }

  /** The work of the first k philosophers. */
  function WorkOf(s: DState, y: nat, k: nat): nat
    requires WellFormed(s) && k <= P(s)
  {
    if k == 0 then 0 else WorkOf(s, y, k - 1) + Work(s.pc[k - 1], s.phil[k - 1], s.done[k - 1], P(s), y)
  }

  function Sum(xs: seq<nat>): nat {
    if xs == [] then 0 else Sum(xs[..|xs| - 1]) + xs[|xs| - 1]
  }

  /** All the work: a grant may send a philosopher round the loop in GetSticks, and a meal brings a lap. */
  function AllWork(s: DState, y: nat): int
    requires WellFormed(s)
  {
    WorkOf(s, y, P(s)) + 2 * Sum(s.grant) + (2 * y + 21) * s.mealLeft
  }

  lemma {:induction false} SumUpdate(xs: seq<nat>, i: nat, x: nat)
    requires i < |xs|
    ensures Sum(xs[i := x]) == Sum(xs) - xs[i] + x
  {
    var n := |xs| - 1;
    if i < n {
      assert xs[i := x][..n] == xs[..n][i := x] && xs[i := x][n] == xs[n];
      SumUpdate(xs[..n], i, x);
    } else {
      assert xs[i := x][..n] == xs[..n];
    }
  }

  lemma {:induction false} WorkUpdate(s: DState, t: DState, y: nat, i: nat, k: nat)
    requires WellFormed(s) && WellFormed(t) && P(t) == P(s) && i < P(s) && k <= P(s)
    requires t.pc == s.pc[i := t.pc[i]] && t.phil == s.phil[i := t.phil[i]] && t.done == s.done[i := t.done[i]]
    ensures WorkOf(t, y, k) == WorkOf(s, y, k) + if i < k then
      Work(t.pc[i], t.phil[i], t.done[i], P(s), y) - Work(s.pc[i], s.phil[i], s.done[i], P(s), y) else 0
    decreases k
  {
    hide Work;
    if k > 0 {
      WorkUpdate(s, t, y, i, k - 1);
    }
  }

  // ---------------------------------------------------------------- every step uses some up

  /** What a step does to the philosopher's own work, the grants and the meals left: it goes down by one
      at least. */
  predicate Downhill(s: DState, t: DState, i: nat, y: nat)
    requires WellFormed(s) && i < P(s)
  {
    && WellFormed(t) && P(t) == P(s)
    && t.pc == s.pc[i := t.pc[i]] && t.phil == s.phil[i := t.phil[i]] && t.done == s.done[i := t.done[i]]
    && Work(t.pc[i], t.phil[i], t.done[i], P(s), y) + 2 * Sum(t.grant) + (2 * y + 21) * t.mealLeft
       < Work(s.pc[i], s.phil[i], s.done[i], P(s), y) + 2 * Sum(s.grant) + (2 * y + 21) * s.mealLeft
  }

  lemma DownAtDoor(s: DState, i: nat, y: nat)
    requires WellFormed(s) && i < P(s) && CanStep(s, i) && AtDoor(s.pc[i])
    ensures Downhill(s, DoorStep(s, i), i, y)
  {
    hide Sum;
    assert s.phil[i := s.phil[i]] == s.phil && s.done[i := s.done[i]] == s.done;
  }

  lemma DownTrying(s: DState, i: nat, y: nat)
    requires WellFormed(s) && i < P(s) && s.phil[i] == ISHUNGRY
    ensures var t := TrySticks(s, i);
      && WellFormed(t) && P(t) == P(s) && t.pc == s.pc[i := t.pc[i]] && t.phil == s.phil[i := t.phil[i]]
      && t.done == s.done && t.mealLeft == s.mealLeft
      && Work(t.pc[i], t.phil[i], t.done[i], P(s), y) + 2 * Sum(t.grant) <= LastMeal(P(s), y) + 7 + 2 * Sum(s.grant)
  {
    hide SticksFree, Sum;
    SumUpdate(s.grant, i, s.grant[i] + 1);
    assert s.phil[i := s.phil[i]] == s.phil;
  }

  lemma DownTakingSticks(s: DState, i: nat, y: nat)
    requires WellFormed(s) && i < P(s) && CanStep(s, i) && TakingSticks(s.pc[i]) && Honest(s.pc[i], s.phil[i])
    ensures Downhill(s, SticksStep(s, i), i, y)
  {
    hide SticksFree, Sum, TrySticks;
    assert s.phil[i := s.phil[i]] == s.phil && s.done[i := s.done[i]] == s.done;
    match s.pc[i]
    case Check => DownTrying(s.(phil := s.phil[i := ISHUNGRY]), i, y);
    case AtGrant => SumUpdate(s.grant, i, s.grant[i] - 1);
    case Recheck => if s.phil[i] == ISHUNGRY { DownTrying(s, i, y); }
    case _ =>
  }

  lemma DownEating(s: DState, i: nat, n: nat, y: nat)
    requires WellFormed(s) && i < P(s) && CanStep(s, i) && EatingMeal(s.pc[i]) && n <= y
    ensures Downhill(s, MealStep(s, i, n), i, y)
  {
    hide Sum;
    assert s.phil[i := s.phil[i]] == s.phil && s.done[i := s.done[i]] == s.done;
    assert (2 * y + 21) * (s.mealLeft - 1) == (2 * y + 21) * s.mealLeft - (2 * y + 21);
  }

  lemma GrantAdds(s: DState, j: nat)
    requires WellFormed(s) && j < P(s)
    ensures |Grant(s, j)| == |s.grant| && Sum(Grant(s, j)) <= Sum(s.grant) + 1
  {
    hide Sum;
    SumUpdate(s.grant, j, s.grant[j] + 1);
  }

  lemma DownPutting(s: DState, i: nat, n: nat, y: nat)
    requires WellFormed(s) && i < P(s) && CanStep(s, i) && PuttingDown(s.pc[i]) && n <= y
    ensures Downhill(s, PutStep(s, i, n), i, y)
  {
    hide Sum, Grant, Left, Right;
    assert s.phil[i := s.phil[i]] == s.phil && s.done[i := s.done[i]] == s.done;
    GrantAdds(s, Left(s, i));
    GrantAdds(s, Right(s, i));
  }

  lemma LeavingKeeps(s: DState, i: nat)
    requires WellFormed(s) && i < P(s) && CanStep(s, i) && InLeaveRoom(s.pc[i])
    ensures var t := LeaveStep(s, i);
      && WellFormed(t) && P(t) == P(s) && t.pc == s.pc[i := t.pc[i]] && t.phil == s.phil && t.done == s.done
      && t.grant == s.grant && t.mealLeft == s.mealLeft
  {
  }

  lemma LeavingWorks(s: DState, i: nat, y: nat)
    requires WellFormed(s) && i < P(s) && CanStep(s, i) && InLeaveRoom(s.pc[i]) && P(LeaveStep(s, i)) == P(s)
    ensures Work(LeaveStep(s, i).pc[i], s.phil[i], s.done[i], P(s), y) < Work(s.pc[i], s.phil[i], s.done[i], P(s), y)
  {
  }

  lemma DownLeaving(s: DState, i: nat, y: nat)
    requires WellFormed(s) && i < P(s) && CanStep(s, i) && InLeaveRoom(s.pc[i])
    ensures Downhill(s, LeaveStep(s, i), i, y)
  {
    hide Sum, Work, LeaveStep, CanStep, InLeaveRoom;
    LeavingKeeps(s, i);
    LeavingWorks(s, i, y);
    assert s.phil[i := s.phil[i]] == s.phil && s.done[i := s.done[i]] == s.done;
  }

  lemma EveryStepWorks(s: DState, i: nat, n: nat, y: nat)
    requires WellFormed(s) && i < P(s) && CanStep(s, i) && Honest(s.pc[i], s.phil[i]) && n <= y
    ensures WellFormed(Step(s, i, n)) && AllWork(Step(s, i, n), y) < AllWork(s, y)
  {
    hide Downhill, DoorStep, SticksStep, MealStep, PutStep, LeaveStep, CanStep, Honest, Sum;
    if AtDoor(s.pc[i]) {
      DownAtDoor(s, i, y);
    } else if TakingSticks(s.pc[i]) {
      DownTakingSticks(s, i, y);
    } else if EatingMeal(s.pc[i]) {
      DownEating(s, i, n, y);
    } else if PuttingDown(s.pc[i]) {
      DownPutting(s, i, n, y);
    } else {
      DownLeaving(s, i, y);
    }
    DownhillWorks(s, Step(s, i, n), i, y);
  }

  lemma DownhillWorks(s: DState, t: DState, i: nat, y: nat)
    requires WellFormed(s) && i < P(s) && Downhill(s, t, i, y)
    ensures WellFormed(t) && AllWork(t, y) < AllWork(s, y)
  {
    hide Work, Sum;
    WorkUpdate(s, t, y, i, P(s));
  }

  // ---------------------------------------------------------------- every run ends

  /** No wait is longer than y yields. */
  predicate Draws(turns: seq<(nat, nat)>, y: nat) {
    forall k :: 0 <= k < |turns| ==> turns[k].1 <= y
  }

  lemma {:induction false} RunWorks(s: DState, turns: seq<(nat, nat)>, last: DState, m: nat, y: nat)
    requires WellFormed(s) && Exclusive(s) && Ledger(s, m) && IsRun(s, turns, last) && Draws(turns, y)
    ensures WellFormed(last) && |turns| + AllWork(last, y) <= AllWork(s, y)
    decreases |turns|
  {
    hide Exclusive, Ledger, Step, CanStep, AllWork;
    if turns != [] {
      var (i, n) := turns[0];
      ExclusiveStep(s, i, n);
      LedgerStep(s, i, n, m);
      HonestOne(s, i);
      EveryStepWorks(s, i, n, y);
      RunWorks(Step(s, i, n), turns[1..], last, m, y);
    }
  }

  lemma HonestOne(s: DState, i: nat)
    requires WellFormed(s) && Exclusive(s) && i < P(s)
    ensures Honest(s.pc[i], s.phil[i])
  {
  }

  lemma {:induction false} WorkAtFirst(n: nat, m: nat, y: nat, k: nat)
    requires n >= 2 && k <= n
    ensures WorkOf(Init(n, m), y, k) == k * (Lap(n, y) + n + 4)
  {
    if k > 0 {
      WorkAtFirst(n, m, y, k - 1);
      assert (k - 1) * (Lap(n, y) + n + 4) + (Lap(n, y) + n + 4) == k * (Lap(n, y) + n + 4);
    }
  }

  lemma {:induction false} NoGrants(xs: seq<nat>)
    requires forall i :: 0 <= i < |xs| ==> xs[i] == 0
    ensures Sum(xs) == 0
  {
    if xs != [] { NoGrants(xs[..|xs| - 1]); }
  }

  lemma WorkLeft(s: DState, m: nat, y: nat)
    requires WellFormed(s) && Ledger(s, m)
    ensures AllWork(s, y) >= 0
  {
    assert (2 * y + 21) * s.mealLeft >= 0;
  }

  /** Every run of n philosophers with m meals, on every interleaving, has a bounded number of steps; y is
      the longest wait. */
  lemma EveryRunEnds(n: nat, m: nat, turns: seq<(nat, nat)>, s: DState, y: nat)
    requires n >= 2 && IsRun(Init(n, m), turns, s) && Draws(turns, y)
    ensures |turns| <= n * (2 * n + 2 * y + 32) + m * (2 * y + 21)
  {
    hide WorkOf, Work, Ledger, Exclusive, Sum;
    var s0 := Init(n, m);
    InitHolds(n, m);
    RunWorks(s0, turns, s, m, y);
    RunKeeps(s0, turns, s, m);
    WorkLeft(s, m, y);
    WorkAtFirst(n, m, y, n);
    NoGrants(s0.grant);
    assert n * (Lap(n, y) + n + 4) == n * (2 * n + 2 * y + 32);
  }

  // ---------------------------------------------------------------- cooperative runs end well

  function Moves(events: seq<DiningCooperative.Event>): nat {
    if events == [] then 0 else (if events[0].Goes? then 1 else 0) + Moves(events[1..])
  }

  predicate CoopDraws(events: seq<DiningCooperative.Event>, y: nat) {
    forall k :: 0 <= k < |events| ==> events[k].Goes? ==> events[k].n <= y
  }

  lemma {:induction false} CoopRunWorks(s: DState, c: nat, events: seq<DiningCooperative.Event>, last: DState,
                                        lastC: nat, m: nat, y: nat)
    requires DiningCooperative.CoopInv(s, c, m) && DiningCooperative.IsCoopRun(s, c, events, last, lastC)
    requires CoopDraws(events, y)
    ensures WellFormed(last) && Moves(events) + AllWork(last, y) <= AllWork(s, y)
    decreases |events|
  {
    hide Exclusive, Ledger, Step, CanStep, AllWork, DiningCooperative.CoopInv, DiningCooperative.MaySwitch;
    CoopIsHonest(s, c, m);
    if events != [] {
      match events[0]
      case Goes(n) =>
        DiningCooperative.CoopStep(s, c, n, m);
        EveryStepWorks(s, c, n, y);
        CoopRunWorks(Step(s, c, n), c, events[1..], last, lastC, m, y);
      case SwitchesTo(d) =>
        DiningCooperative.CoopSwitch(s, c, d, m);
        CoopRunWorks(s, d, events[1..], last, lastC, m, y);
    }
  }

  lemma CoopIsHonest(s: DState, c: nat, m: nat)
    requires DiningCooperative.CoopInv(s, c, m)
    ensures WellFormed(s) && c < P(s) && Exclusive(s) && Ledger(s, m) && Honest(s.pc[c], s.phil[c])
  {
    HonestOne(s, c);
  }

  /** A cooperative run makes a bounded number of moves, and where no move is left all meals have been eaten,
      everybody is done, and everybody has left. */
  lemma DinnerIsServed(n: nat, m: nat, c: nat, events: seq<DiningCooperative.Event>, s: DState, lastC: nat, y: nat)
    requires n >= 2 && c < n && DiningCooperative.IsCoopRun(Init(n, m), c, events, s, lastC) && CoopDraws(events, y)
    ensures Moves(events) <= n * (2 * n + 2 * y + 32) + m * (2 * y + 21)
    ensures WellFormed(s) && P(s) == n
    ensures (forall i :: 0 <= i < n ==> !CanStep(s, i)) ==>
      s.eaten == m && s.leaveGrant && forall i :: 0 <= i < n ==> s.pc[i].Gone? && s.done[i]
  {
    hide WorkOf, Work, Ledger, Exclusive, Sum, DiningCooperative.CoopInv;
    var s0 := Init(n, m);
    DiningCooperative.CoopInit(n, m, c);
    DiningCooperative.CoopRunKeeps(s0, c, events, s, lastC, m);
    CoopRunWorks(s0, c, events, s, lastC, m, y);
    CoopIsHonest(s, lastC, m);
    WorkLeft(s, m, y);
    WorkAtFirst(n, m, y, n);
    NoGrants(s0.grant);
    assert n * (Lap(n, y) + n + 4) == n * (2 * n + 2 * y + 32);
    SameCompany(s0, c, events, s, lastC, m);
    DiningCooperative.NoDeadlock(n, m, c, events, s, lastC);
    forall i | 0 <= i < n && s.pc[i].Gone? ensures s.done[i] {
      GoneIsDone(s, m, i);
    }
  }

  lemma GoneIsDone(s: DState, m: nat, i: nat)
    requires WellFormed(s) && Ledger(s, m) && i < P(s) && s.pc[i].Gone?
    ensures s.done[i]
  {
    assert LocalLedger(s, i);
  }

  lemma {:induction false} SameCompany(s: DState, c: nat, events: seq<DiningCooperative.Event>, last: DState,
                                       lastC: nat, m: nat)
    requires DiningCooperative.CoopInv(s, c, m) && DiningCooperative.IsCoopRun(s, c, events, last, lastC)
    ensures P(last) == P(s)
    decreases |events|
  {
    hide Exclusive, Ledger, Step, CanStep, DiningCooperative.CoopInv, DiningCooperative.MaySwitch;
    CoopIsHonest(s, c, m);
    if events != [] {
      match events[0]
      case Goes(n) =>
        DiningCooperative.CoopStep(s, c, n, m);
        OwnState(s, c, n);
        SameCompany(Step(s, c, n), c, events[1..], last, lastC, m);
      case SwitchesTo(d) =>
        DiningCooperative.CoopSwitch(s, c, d, m);
        SameCompany(s, d, events[1..], last, lastC, m);
    }
  }
}
