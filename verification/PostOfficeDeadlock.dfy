/** Which mailboxes can bring everybody to a halt for good: with boxes of at least one slot, those of three
    people or more who have letters enough to fill two boxes. */
module PostOfficeDeadlock {
  import opened Counting
  import opened PostOffice
  import opened PostOfficeRuns

  /** Nobody can step, and not everybody is home. */
  predicate Deadlock(s: State) {
    WellFormed(s) && Stuck(s) && !AllGone(s)
  }

  ghost predicate Reaches(people: nat, capacity: nat, quota: nat, s: State) {
    exists turns :: IsRun(Init(people, capacity, quota), turns, s)
  }

  ghost predicate CanDeadlock(people: nat, capacity: nat, quota: nat) {
    exists s :: Reaches(people, capacity, quota, s) && Deadlock(s)
  }

  // ---------------------------------------------------------------- what a deadlock takes

  predicate AllAtSpace(s: State) {
    forall i :: 0 <= i < P(s) ==> s.pc[i].AtSpace?
  }

  /** The last to begin to wait has read all its mail. */
  ghost predicate OneHasRead(s: State)
    requires WellFormed(s)
  {
    AllAtSpace(s) ==> exists j :: 0 <= j < P(s) && s.msgPtr[j] == 0
  }

  lemma OneHasReadStep(s: State, i: nat, d: Draw)
    requires WellFormed(s) && i < P(s) && CanStep(s, i, d) && InBounds(s, i)
    ensures WellFormed(Step(s, i, d)) && OneHasRead(Step(s, i, d))
  {
    StepWellFormed(s, i, d);
    var t := Step(s, i, d);
    if AllAtSpace(t) {
      assert t.pc[i].AtSpace?;
      assert t.msgPtr[i] == 0;
    }
  }

  lemma {:induction false} OneHasReadAlways(s: State, turns: seq<(nat, Draw)>, last: State)
    requires Inv(s) && OneHasRead(s) && IsRun(s, turns, last)
    ensures WellFormed(last) && OneHasRead(last)
    decreases |turns|
  {
    hide Step, CanStep, InBounds, OneHasRead, WellFormed, Slots, BoxLock, Delivered, Person, Quota, CountLock;
    if turns != [] {
      InvStep(s, turns[0].0, turns[0].1);
      OneHasReadStep(s, turns[0].0, turns[0].1);
      OneHasReadAlways(Step(s, turns[0].0, turns[0].1), turns[1..], last);
    }
  }

  lemma TotalOfTwo(ms: seq<multiset<Letter>>, a: nat, b: nat)
    requires a < |ms| && b < |ms| && a != b
    ensures Total(ms) >= |ms[a]| + |ms[b]|
  {
    TotalUpdate(ms, a, multiset{});
    TotalUpdate(ms[a := multiset{}], b, multiset{});
  }

  lemma FullBoxWasPosted(s: State, k: nat)
    requires Inv(s) && k < P(s) && s.msgPtr[k] == s.capacity
    ensures |s.posted[k]| >= s.capacity
  {
    assert Delivered(s, k);
  }

  lemma NeedsTwoFullBoxes(people: nat, capacity: nat, quota: nat, s: State)
    requires 2 <= people <= PEOPLE && 1 <= capacity <= SLOTS && Reaches(people, capacity, quota, s) && Deadlock(s)
    ensures people >= 3 && quota >= 2 * capacity
  {
    hide IsRun, Inv, WellFormed, Stuck, AllGone, OneHasRead, AllOver, Init;
    var s0 := Init(people, capacity, quota);
    var turns :| IsRun(s0, turns, s);
    InvInit(people, capacity, quota);
    RunKeeps(s0, turns, s);
    OneHasReadAtFirst(people, capacity, quota);
    OneHasReadAlways(s0, turns, s);
    InitSizes(people, capacity, quota);
    HaltTakesThree(s);
  }

  lemma InitSizes(people: nat, capacity: nat, quota: nat)
    ensures var s := Init(people, capacity, quota); P(s) == people && s.capacity == capacity && s.quota == quota
  {
  }

  lemma OneHasReadAtFirst(people: nat, capacity: nat, quota: nat)
    requires 2 <= people <= PEOPLE && capacity <= SLOTS
    ensures WellFormed(Init(people, capacity, quota)) && OneHasRead(Init(people, capacity, quota))
  {
    assert Init(people, capacity, quota).pc[0] == Top;
  }

  /** Person 0 waits at a full box, its owner at another, and a third box is empty. */
  lemma HaltTakesThree(s: State)
    requires Inv(s) && OneHasRead(s) && Deadlock(s) && s.capacity >= 1
    ensures P(s) >= 3 && s.quota >= 2 * s.capacity
  {
    hide Slots, BoxLock, Delivered, Person, Quota, CountLock, Total;
    StuckMeansFull(s);
    forall i | 0 <= i < P(s) ensures s.pc[i].AtSpace? {
      assert AtFullBox(s, i);
    }
    var j :| 0 <= j < P(s) && s.msgPtr[j] == 0;
    assert AtFullBox(s, 0);
    var a := s.pc[0].to;
    assert AtFullBox(s, a);
    var b := s.pc[a].to;
    FullBoxWasPosted(s, a);
    FullBoxWasPosted(s, b);
    SentIsPosted(s);
    TotalOfTwo(s.posted, a, b);
  }

  lemma SentIsPosted(s: State)
    requires Inv(s)
    ensures s.sentCnt == Total(s.posted) <= s.quota && |s.posted| == P(s)
  {
  }

  // ---------------------------------------------------------------- a run that comes to one

  /** Persons 0 and 1 wait to send to each other, 2 to n - 1 to person 0, the others are at the top of the
      loop; a letters lie in box 0 and b in box 1. */
  predicate Lull(s: State, people: nat, capacity: nat, quota: nat, a: nat, b: nat, n: nat) {
    && WellFormed(s) && P(s) == people >= 3 && s.capacity == capacity && s.quota == quota
    && a <= capacity && b <= capacity && 2 <= n <= people
    && s.msgPtr[0] == a && s.msgPtr[1] == b && (forall j :: 2 <= j < people ==> s.msgPtr[j] == 0)
    && (forall j :: 0 <= j < people ==> s.free[j] == capacity - s.msgPtr[j])
    && (forall j :: 0 <= j < people ==> s.mail[j] == 1 && !s.done[j])
    && s.cnt == 1 && s.sentCnt == a + b
    && s.pc[0] == AtSpace(1, 0) && (forall j :: 1 <= j < n ==> s.pc[j] == AtSpace(0, 0))
    && (forall j :: n <= j < people ==> s.pc[j] == Top)
  }

  lemma Opening(people: nat, capacity: nat, quota: nat) returns (turns: seq<(nat, Draw)>, t: State)
    requires 3 <= people <= PEOPLE && 1 <= capacity <= SLOTS
    ensures IsRun(Init(people, capacity, quota), turns, t) && Lull(t, people, capacity, quota, 0, 0, 2)
  {
    var s := Init(people, capacity, quota);
    var d, e := Draw(1, 0, 2), Draw(0, 0, 2);
    OneStep(s, 0, d);
    StepWellFormed(s, 0, d);
    OneMore(s, [(0, d)], Step(s, 0, d), 1, e);
    StepWellFormed(Step(s, 0, d), 1, e);
    turns, t := [(0, d)] + [(1, e)], Step(Step(s, 0, d), 1, e);
  }

  /** Person 2 comes round once more and leaves a letter in box k. */
  lemma LeavesALetter(s: State, people: nat, capacity: nat, quota: nat, a: nat, b: nat, k: nat)
    returns (turns: seq<(nat, Draw)>, t: State)
    requires capacity <= SLOTS && Lull(s, people, capacity, quota, a, b, 2) && a + b < quota
    requires if k == 0 then a < capacity else k == 1 && b < capacity
    ensures IsRun(s, turns, t)
    ensures Lull(t, people, capacity, quota, if k == 0 then a + 1 else a, if k == 0 then b else b + 1, 2)
  {
    hide IsRun, Lull;
    var first, sent := PostsALetter(s, people, capacity, quota, a, b, k);
    var d := Draw(k, 0, 2);
    LettersLie(sent, people, capacity, quota, if k == 0 then a + 1 else a, if k == 0 then b else b + 1, k);
    var waiting;
    waiting, t := WaitsAndReturns(sent, 2, d, k);
    turns := first + waiting;
    RunAppend(s, first, sent, waiting, t);
  }

  lemma LettersLie(s: State, people: nat, capacity: nat, quota: nat, a: nat, b: nat, k: nat)
    requires P(s) == people >= 3
    requires WellFormed(s)
    requires Lull(s.(pc := s.pc[2 := Top], done := s.done[2 := false]), people, capacity, quota, a, b, 2)
    requires if k == 0 then a > 0 else k == 1 && b > 0
    ensures s.msgPtr[k] != 0
  {
  }

  lemma PostsALetter(s: State, people: nat, capacity: nat, quota: nat, a: nat, b: nat, k: nat)
    returns (turns: seq<(nat, Draw)>, t: State)
    requires capacity <= SLOTS && Lull(s, people, capacity, quota, a, b, 2) && a + b < quota
    requires if k == 0 then a < capacity else k == 1 && b < capacity
    ensures IsRun(s, turns, t) && WellFormed(t) && P(t) == people >= 3 && t.pc[2] == Stall(2)
    ensures Lull(t.(pc := t.pc[2 := Top], done := t.done[2 := false]), people, capacity, quota,
      if k == 0 then a + 1 else a, if k == 0 then b else b + 1, 2)
  {
    hide IsRun, Step, InBounds;
    var d := Draw(k, 0, 2);
    var out := Chooses(s, people, capacity, quota, a, b, k);
    var sending;
    sending, t := SendsOne(out, 2, d);
    RunAppend(s, [(2, d)], out, sending, t);
    turns := [(2, d)] + sending;
    assert t.(pc := t.pc[2 := Top], done := t.done[2 := false]).pc == s.pc;
    assert t.done[2 := false] == s.done;
  }

  lemma Chooses(s: State, people: nat, capacity: nat, quota: nat, a: nat, b: nat, k: nat) returns (t: State)
    requires Lull(s, people, capacity, quota, a, b, 2) && k < 2
    ensures IsRun(s, [(2, Draw(k, 0, 2))], t) && WellFormed(t) && t == s.(pc := s.pc[2 := AtSpace(k, 0)])
  {
    OneStep(s, 2, Draw(k, 0, 2));
    StepWellFormed(s, 2, Draw(k, 0, 2));
    t := Step(s, 2, Draw(k, 0, 2));
  }

  /** After a wait of two yields with a letter unread somewhere, back to the top of the loop. */
  lemma WaitsAndReturns(s: State, i: nat, d: Draw, k: nat) returns (turns: seq<(nat, Draw)>, t: State)
    requires WellFormed(s) && i < P(s) && k < P(s) && CanDraw(s, i, d) && s.pc[i] == Stall(2) && s.msgPtr[k] != 0
    ensures IsRun(s, turns, t) && WellFormed(t)
    ensures t == s.(pc := s.pc[i := Top], done := s.done[i := false])
  {
    OneStep(s, i, d);
    StepWellFormed(s, i, d);
    var a := Step(s, i, d);
    OneMore(s, [(i, d)], a, i, d);
    StepWellFormed(a, i, d);
    var b := Step(a, i, d);
    OneMore(s, [(i, d)] + [(i, d)], b, i, d);
    StepWellFormed(b, i, d);
    t := Step(b, i, d);
    turns := [(i, d)] + [(i, d)] + [(i, d)];
    assert t.pc == s.pc[i := Top];
  }

  lemma {:induction false} FillsBothBoxes(s: State, people: nat, capacity: nat, quota: nat, a: nat, b: nat)
    returns (turns: seq<(nat, Draw)>, t: State)
    requires capacity <= SLOTS && quota >= 2 * capacity && Lull(s, people, capacity, quota, a, b, 2)
    ensures IsRun(s, turns, t) && Lull(t, people, capacity, quota, capacity, capacity, 2)
    decreases 2 * capacity - a - b
  {
    hide Lull, IsRun;
    LullBounds(s, people, capacity, quota, a, b);
    if a == capacity && b == capacity {
      turns, t := [], s;
      NoTurns(s);
    } else {
      var k := if a < capacity then 0 else 1;
      var first, m := LeavesALetter(s, people, capacity, quota, a, b, k);
      var rest;
      rest, t := FillsBothBoxes(m, people, capacity, quota, if k == 0 then a + 1 else a, if k == 0 then b else b + 1);
      turns := first + rest;
      RunAppend(s, first, m, rest, t);
    }
  }

  lemma LullBounds(s: State, people: nat, capacity: nat, quota: nat, a: nat, b: nat)
    requires Lull(s, people, capacity, quota, a, b, 2)
    ensures a <= capacity && b <= capacity
  {
  }

  lemma NoTurns(s: State)
    ensures IsRun(s, [], s)
  {
  }

  /** The others too set out for box 0, with nothing of their own to read. */
  lemma {:induction false} AllSetOut(s: State, people: nat, capacity: nat, quota: nat, n: nat)
    returns (turns: seq<(nat, Draw)>, t: State)
    requires Lull(s, people, capacity, quota, capacity, capacity, n)
    ensures IsRun(s, turns, t) && Lull(t, people, capacity, quota, capacity, capacity, people)
    decreases people - n
  {
    if n == people {
      turns, t := [], s;
    } else {
      var d := Draw(0, 0, 2);
      OneStep(s, n, d);
      StepWellFormed(s, n, d);
      var rest;
      rest, t := AllSetOut(Step(s, n, d), people, capacity, quota, n + 1);
      turns := [(n, d)] + rest;
      RunAppend(s, [(n, d)], Step(s, n, d), rest, t);
    }
  }

  lemma FullIsDeadlock(s: State, people: nat, capacity: nat, quota: nat)
    requires Lull(s, people, capacity, quota, capacity, capacity, people)
    ensures Deadlock(s)
  {
    forall i | 0 <= i < people ensures !Enabled(s, i) {
      assert s.pc[i] == if i == 0 then AtSpace(1, 0) else AtSpace(0, 0);
    }
    assert !s.pc[0].Gone?;
  }

  lemma ThreePeopleHalt(people: nat, capacity: nat, quota: nat)
    requires 3 <= people <= PEOPLE && 1 <= capacity <= SLOTS && quota >= 2 * capacity
    ensures CanDeadlock(people, capacity, quota)
  {
    hide IsRun, Lull, WellFormed, Stuck, AllGone;
    var s := Init(people, capacity, quota);
    var opening, m := Opening(people, capacity, quota);
    var filling, full := FillsBothBoxes(m, people, capacity, quota, 0, 0);
    var ending, last := AllSetOut(full, people, capacity, quota, 2);
    RunAppend(s, opening, m, filling, full);
    RunAppend(s, opening + filling, full, ending, last);
    FullIsDeadlock(last, people, capacity, quota);
    assert Reaches(people, capacity, quota, last);
  }

  /** The sizes that can deadlock, exactly. */
  lemma DeadlocksExactlyWhen(people: nat, capacity: nat, quota: nat)
    requires 2 <= people <= PEOPLE && 1 <= capacity <= SLOTS
    ensures CanDeadlock(people, capacity, quota) <==> people >= 3 && quota >= 2 * capacity
  {
    hide Reaches, Deadlock;
    if CanDeadlock(people, capacity, quota) {
      var s :| Reaches(people, capacity, quota, s) && Deadlock(s);
      NeedsTwoFullBoxes(people, capacity, quota, s);
    }
    if people >= 3 && quota >= 2 * capacity {
      ThreePeopleHalt(people, capacity, quota);
    }
  }

  /** Three people with boxes of one slot and two letters can come to a halt; two people never do. */
  lemma ThreeButNotTwo(letters: nat)
    ensures CanDeadlock(3, 1, 2) && !CanDeadlock(2, 1, letters)
  {
    hide CanDeadlock;
    DeadlocksExactlyWhen(3, 1, 2);
    DeadlocksExactlyWhen(2, 1, letters);
  }
}
