/** The philosophers' procedures as wholes: GetSticks and PutSticks when nobody comes between, and Eat and
    the wait after it however the others are interleaved. */
module DiningActs {
  import opened Dining

  // ---------------------------------------------------------------- waits last as long as was drawn

  /** How many of the turns are those of philosopher i. */
  function OwnTurns(turns: seq<(nat, nat)>, i: nat): nat {
    if turns == [] then 0 else (if turns[0].0 == i then 1 else 0) + OwnTurns(turns[1..], i)
  }

  /** The step of another philosopher moves nobody else. */
  lemma OthersStay(s: DState, j: nat, n: nat, i: nat)
    requires WellFormed(s) && Exclusive(s) && j < P(s) && i < P(s) && i != j && CanStep(s, j)
    ensures WellFormed(Step(s, j, n)) && P(Step(s, j, n)) == P(s)
    ensures Step(s, j, n).pc[i] == s.pc[i] && Step(s, j, n).phil[i] == s.phil[i]
  {
    hide Step, CanStep;
    assert Honest(s.pc[j], s.phil[j]);
    OwnState(s, j, n);
  }

  /** What philosopher i makes of a wait it is in. */
  predicate Waiting(pc: PC, k: nat, eating: bool) {
    pc == if eating then EatYields(k) else Think(k)
  }

  lemma WaitsOn(s: DState, i: nat, n: nat, k: nat, eating: bool)
    requires WellFormed(s) && i < P(s) && CanStep(s, i) && Waiting(s.pc[i], k, eating)
    ensures WellFormed(Step(s, i, n)) && P(Step(s, i, n)) == P(s) && Step(s, i, n).phil == s.phil
    ensures k > 0 ==> Waiting(Step(s, i, n).pc[i], k - 1, eating)
    ensures k == 0 ==> Step(s, i, n).pc[i] == if eating then AtPut else Top
  {
  }

  /** A philosopher with k yields ahead is still in its wait after as many turns of its own, with k fewer
      for each, whatever the others do meanwhile. */
  lemma {:induction false} WaitLasts(s: DState, turns: seq<(nat, nat)>, last: DState, i: nat, k: nat, eating: bool)
    requires WellFormed(s) && Exclusive(s) && IsRun(s, turns, last) && i < P(s)
    requires Waiting(s.pc[i], k, eating) && OwnTurns(turns, i) <= k
    ensures P(last) == P(s) && Waiting(last.pc[i], k - OwnTurns(turns, i), eating)
    decreases |turns|
  {
    hide Exclusive, Step, CanStep, Waiting;
    if turns != [] {
      var (j, n) := turns[0];
      ExclusiveStep(s, j, n);
      if j == i {
        WaitsOn(s, i, n, k, eating);
        WaitLasts(Step(s, j, n), turns[1..], last, i, k - 1, eating);
      } else {
        OthersStay(s, j, n, i);
        WaitLasts(Step(s, j, n), turns[1..], last, i, k, eating);
      }
    }
  }

  lemma WaitBegins(s: DState, i: nat, n: nat)
    requires WellFormed(s) && i < P(s) && (s.pc[i].Meal? || s.pc[i].PutDown?)
    ensures CanStep(s, i) && WellFormed(Step(s, i, n)) && P(Step(s, i, n)) == P(s)
    ensures Waiting(Step(s, i, n).pc[i], n, s.pc[i].Meal?)
  {
  }

  /** A meal, and the thinking after it, last for as many yields as were drawn. */
  lemma MealsLast(s: DState, n: nat, turns: seq<(nat, nat)>, last: DState, i: nat)
    requires WellFormed(s) && Exclusive(s) && i < P(s) && (s.pc[i].Meal? || s.pc[i].PutDown?) && CanStep(s, i)
    requires IsRun(Step(s, i, n), turns, last) && OwnTurns(turns, i) <= n
    ensures P(last) == P(s) && Waiting(last.pc[i], n - OwnTurns(turns, i), s.pc[i].Meal?)
  {
    hide Exclusive, Step, CanStep, Waiting;
    WaitBegins(s, i, n);
    ExclusiveStep(s, i, n);
    WaitLasts(Step(s, i, n), turns, last, i, n, s.pc[i].Meal?);
  }

  // ---------------------------------------------------------------- taking and putting down, undisturbed

  lemma {:induction false} RunAppend(s: DState, a: seq<(nat, nat)>, m: DState, b: seq<(nat, nat)>, t: DState)
    requires IsRun(s, a, m) && IsRun(m, b, t)
    ensures IsRun(s, a + b, t)
    decreases |a|
  {
    hide Step, CanStep;
    if a == [] {
      assert a + b == b;
    } else {
      RunAppend(Step(s, a[0].0, a[0].1), a[1..], m, b, t);
      assert (a + b)[0] == a[0] && (a + b)[1..] == a[1..] + b;
    }
  }

  lemma OneMore(s: DState, a: seq<(nat, nat)>, m: DState, i: nat, n: nat)
    requires IsRun(s, a, m) && WellFormed(m) && i < P(m) && CanStep(m, i)
    ensures IsRun(s, a + [(i, n)], Step(m, i, n))
  {
    assert [(i, n)][1..] == [];
    RunAppend(s, a, m, [(i, n)], Step(m, i, n));
  }

  /** With no neighbour eating, GetSticks takes both sticks in five steps: the state becomes eating, and
      mutex and the own grant are as they were. */
  lemma TakesFreeSticks(s: DState, i: nat) returns (turns: seq<(nat, nat)>, t: DState)
    requires WellFormed(s) && i < P(s) && s.pc[i] == AtSticks && s.mutex > 0 && SticksFree(s, i)
    ensures |turns| == 5 && (forall k :: 0 <= k < 5 ==> turns[k].0 == i) && IsRun(s, turns, t)
    ensures t == s.(pc := s.pc[i := AtMeal], phil := s.phil[i := ISEATING])
  {
    hide Left, Right, DoorStep, MealStep, PutStep, LeaveStep;
    OneMore(s, [], s, i, 0);
    var a := Step(s, i, 0);
    SticksOfOthers(s, a.(phil := a.phil[i := ISHUNGRY]), i);
    OneMore(s, [] + [(i, 0)], a, i, 0);
    var b := Step(a, i, 0);
    assert b == s.(pc := s.pc[i := GrantSelf], phil := s.phil[i := ISEATING], mutex := s.mutex - 1,
                   grant := s.grant[i := s.grant[i] + 1]);
    var rest;
    rest, t := GrantsItself(s, b, i);
    turns := [] + [(i, 0)] + [(i, 0)] + rest;
    RunAppend(s, [] + [(i, 0)] + [(i, 0)], b, rest, t);
  }

  lemma GrantsItself(s: DState, b: DState, i: nat) returns (turns: seq<(nat, nat)>, t: DState)
    requires WellFormed(s) && i < P(s) && s.mutex > 0
    requires b == s.(pc := s.pc[i := GrantSelf], phil := s.phil[i := ISEATING], mutex := s.mutex - 1,
                     grant := s.grant[i := s.grant[i] + 1])
    ensures turns == [(i, 0), (i, 0), (i, 0)] && IsRun(b, turns, t)
    ensures t == s.(pc := s.pc[i := AtMeal], phil := s.phil[i := ISEATING])
  {
    OneMore(b, [], b, i, 0);
    var c := Step(b, i, 0);
    OneMore(b, [] + [(i, 0)], c, i, 0);
    var d := Step(c, i, 0);
    OneMore(b, [] + [(i, 0)] + [(i, 0)], d, i, 0);
    t := Step(d, i, 0);
    turns := [] + [(i, 0)] + [(i, 0)] + [(i, 0)];
    assert t.pc == s.pc[i := AtMeal] && t.grant == s.grant;
  }

  predicate Neighbours(i: nat, j: nat, people: nat) {
    j == i + 1 || i == j + 1 || (i == 0 && j == people - 1) || (j == 0 && i == people - 1)
  }

  /** PutSticks, in four steps, gives every hungry neighbour one grant and nobody else any, leaves the
      philosopher thinking, and mutex as it was. */
  lemma PutsSticksDown(s: DState, i: nat, n: nat) returns (turns: seq<(nat, nat)>, t: DState)
    requires WellFormed(s) && i < P(s) && s.pc[i] == AtPut && s.mutex > 0 && s.phil[i] == ISEATING
    ensures |turns| == 4 && (forall k :: 0 <= k < 4 ==> turns[k].0 == i) && IsRun(s, turns, t)
    ensures |t.grant| == P(s) && t == s.(pc := s.pc[i := Think(n)], phil := s.phil[i := THINKING], grant := t.grant)
    ensures forall j :: 0 <= j < P(s) ==>
      t.grant[j] == s.grant[j] + if Neighbours(i, j, P(s)) && s.phil[j] == ISHUNGRY then 1 else 0
  {
    hide Left, Right, Grant, SticksFree, DoorStep, SticksStep, MealStep, LeaveStep;
    OneMore(s, [], s, i, n);
    var a := Step(s, i, n);
    assert a == s.(pc := s.pc[i := PutLeft], mutex := s.mutex - 1);
    OneMore(s, [] + [(i, n)], a, i, n);
    var b := Step(a, i, n);
    GrantFits(a, Left(a, i));
    assert b == a.(pc := s.pc[i := PutRight], grant := Grant(a, Left(a, i)));
    OneMore(s, [] + [(i, n)] + [(i, n)], b, i, n);
    var rest;
    rest, t := PutsRightDown(s, b, i, n);
    turns := [] + [(i, n)] + [(i, n)] + rest;
    RunAppend(s, [] + [(i, n)] + [(i, n)], b, rest, t);
    GrantsToHungry(s, a, b, i, t.grant);
  }

  lemma GrantFits(s: DState, j: nat)
    requires WellFormed(s) && j < P(s)
    ensures |Grant(s, j)| == P(s)
  {
  }

  lemma PutsRightDown(s: DState, b: DState, i: nat, n: nat) returns (turns: seq<(nat, nat)>, t: DState)
    requires WellFormed(s) && i < P(s) && s.mutex > 0 && |b.grant| == P(s)
    requires b == s.(pc := s.pc[i := PutRight], mutex := s.mutex - 1, grant := b.grant)
    ensures turns == [(i, n), (i, n)] && IsRun(b, turns, t)
    ensures t == s.(pc := s.pc[i := Think(n)], phil := s.phil[i := THINKING],
                    grant := if P(s) > 2 then Grant(b, Right(b, i)) else b.grant)
  {
    hide Left, Right, Grant, SticksFree, DoorStep, SticksStep, MealStep, LeaveStep;
    GrantFits(b, Right(b, i));
    OneMore(b, [], b, i, n);
    var c := Step(b, i, n);
    OneMore(b, [] + [(i, n)], c, i, n);
    t := Step(c, i, n);
    turns := [] + [(i, n)] + [(i, n)];
    assert t.pc == s.pc[i := Think(n)];
  }

  lemma GrantsToHungry(s: DState, a: DState, b: DState, i: nat, grant: seq<nat>)
    requires WellFormed(s) && i < P(s) && s.phil[i] == ISEATING
    requires a == s.(pc := a.pc, mutex := a.mutex) && |a.pc| == P(s)
    requires b == a.(pc := b.pc, grant := Grant(a, Left(a, i))) && |b.pc| == P(s)
    requires grant == if P(s) > 2 then Grant(b, Right(b, i)) else b.grant
    ensures |grant| == P(s) && forall j :: 0 <= j < P(s) ==>
      grant[j] == s.grant[j] + if Neighbours(i, j, P(s)) && s.phil[j] == ISHUNGRY then 1 else 0
  {
  }
}
