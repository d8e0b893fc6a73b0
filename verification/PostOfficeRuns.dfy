/** The runs of the mailboxes: who goes home and when, what becomes of every letter drawn, and which
    sizes of the problem can deadlock. */
module PostOfficeRuns {
  import opened Counting
  import opened PostOffice

  // ---------------------------------------------------------------- done

  /** At the end of the wait, and nowhere else, a person learns whether it is over. */
  lemma DoneExactly(s: State, i: nat, d: Draw, j: nat)
    requires WellFormed(s) && i < P(s) && CanStep(s, i, d) && InBounds(s, i) && j < P(s)
    ensures WellFormed(Step(s, i, d)) && P(Step(s, i, d)) == P(s)
    ensures j == i && s.pc[i] == Stall(0) ==> Step(s, i, d).pc[i] == Top
    ensures j == i && s.pc[i] == Stall(0) ==>
      (Step(s, i, d).done[i] <==> s.sentCnt == s.quota && forall k :: 0 <= k < P(s) ==> s.msgPtr[k] == 0)
    ensures j != i || s.pc[i] != Stall(0) ==> Step(s, i, d).done[j] == s.done[j]
  {
    StepWellFormed(s, i, d);
  }

  /** A person who ends the wait when all letters are sent and read goes home with the next step. */
  lemma GoesHome(s: State, i: nat, d: Draw, e: Draw)
    requires Inv(s) && AllOver(s) && i < P(s) && s.pc[i] == Stall(0) && CanDraw(s, i, d) && CanDraw(s, i, e)
    ensures WellFormed(Step(s, i, d)) && P(Step(s, i, d)) == P(s)
    ensures Step(s, i, d).done[i] && Enabled(Step(s, i, d), i) && Step(Step(s, i, d), i, e).pc[i].Gone?
  {
    DoneExactly(s, i, d, i);
  }

  /** How many steps person i is away from home, once all is sent and read. */
  function Way(pc: PC, done: bool): nat {
    match pc
    case Gone => 0
    case Top => if done then 1 else 14
    case Stall(n) => n + 2
    case CountHeld => 8
    case Aborted(_) => 9
    case Sending(_, _) => 10
    case AtCount(_, _) => 11
    case AtBox(_, _) => 12
    case AtSpace(_, _) => 13
    case ReadTest => 14
    case ReadReleased => 15
    case ReadFreed => 16
    case Reading => 17
    case AtOwnBox => 18
  }

  /** The same for the first n people together. */
  function WayHome(s: State, n: nat): (w: nat)
    requires WellFormed(s) && n <= P(s)
  {
    if n == 0 then 0 else WayHome(s, n - 1) + Way(s.pc[n - 1], s.done[n - 1])
  }

  lemma {:induction false} WayUpdate(s: State, t: State, i: nat, n: nat)
    requires WellFormed(s) && WellFormed(t) && P(t) == P(s) && i < P(s) && n <= P(s)
    requires t.pc == s.pc[i := t.pc[i]] && t.done == s.done[i := t.done[i]]
    ensures WayHome(t, n)
      == WayHome(s, n) + if i < n then Way(t.pc[i], t.done[i]) - Way(s.pc[i], s.done[i]) else 0
  {
    if n > 0 {
      WayUpdate(s, t, i, n - 1);
    }
  }

  lemma OwnWayShrinks(s: State, i: nat, d: Draw)
    requires Inv(s) && AllOver(s) && i < P(s) && CanStep(s, i, d) && InBounds(s, i)
    ensures WellFormed(Step(s, i, d)) && P(Step(s, i, d)) == P(s)
    ensures Step(s, i, d).done == s.done[i := Step(s, i, d).done[i]]
    ensures Way(Step(s, i, d).pc[i], Step(s, i, d).done[i]) < Way(s.pc[i], s.done[i])
  {
    StepWellFormed(s, i, d);
    assert Person(s, i);
    hide Inv, Slots, BoxLock, Delivered, Quota, CountLock;
  }

  /** When all letters are sent and read, every step of anybody brings somebody nearer home: a run from
      there ends within 18 steps a person. */
  lemma {:induction false} AllNearHome(s: State, turns: seq<(nat, Draw)>, last: State)
    requires Inv(s) && AllOver(s) && IsRun(s, turns, last)
    ensures Inv(last) && AllOver(last) && P(last) == P(s) && last.capacity == s.capacity
    ensures |turns| + WayHome(last, P(last)) <= WayHome(s, P(s)) <= 18 * P(s)
    decreases |turns|
  {
    hide Step, CanStep, InBounds, Inv, AllOver;
    InvWellFormed(s);
    WayBound(s, P(s));
    if turns != [] {
      var (i, d) := turns[0];
      InvStep(s, i, d);
      InvWellFormed(Step(s, i, d));
      StepWellFormed(s, i, d);
      InvOverStays(s, i, d);
      OwnWayShrinks(s, i, d);
      WayUpdate(s, Step(s, i, d), i, P(s));
      AllNearHome(Step(s, i, d), turns[1..], last);
    }
  }

  lemma InvWellFormed(s: State)
    requires Inv(s)
    ensures WellFormed(s)
  {
  }

  lemma InvOverStays(s: State, i: nat, d: Draw)
    requires Inv(s) && AllOver(s) && i < P(s) && CanStep(s, i, d) && InBounds(s, i)
    ensures WellFormed(Step(s, i, d)) && AllOver(Step(s, i, d))
  {
    assert Person(s, i);
    OverStays(s, i, d);
  }

  lemma {:induction false} WayBound(s: State, n: nat)
    requires Inv(s) && n <= P(s)
    ensures WayHome(s, n) <= 18 * n
  {
    if n > 0 {
      WayBound(s, n - 1);
      assert Person(s, n - 1);
    }
  }

  // ---------------------------------------------------------------- nobody can step

  predicate AllGone(s: State) {
    forall i :: 0 <= i < P(s) ==> s.pc[i].Gone?
  }

  predicate Stuck(s: State)
    requires WellFormed(s)
  {
    forall i :: 0 <= i < P(s) ==> !Enabled(s, i)
  }

  predicate AtFullBox(s: State, i: nat)
    requires WellFormed(s) && i < P(s)
  {
    s.pc[i].AtSpace? && s.msgPtr[s.pc[i].to] == s.capacity
  }

  lemma NoCountHolder(s: State)
    requires Inv(s) && Stuck(s)
    ensures forall i :: 0 <= i < P(s) ==> !HoldsCount(s.pc[i]) && !s.pc[i].AtCount?
  {
    forall i | 0 <= i < P(s) ensures !HoldsCount(s.pc[i]) {
      assert !Enabled(s, i);
    }
    CountExtremes(s.pc, HoldsCount);
    assert s.cnt == 1;
    forall i | 0 <= i < P(s) ensures !s.pc[i].AtCount? {
      assert !Enabled(s, i);
    }
  }

  lemma NoBoxHolder(s: State, k: nat)
    requires Inv(s) && Stuck(s) && k < P(s)
    ensures s.mail[k] == 1
  {
    NoCountHolder(s);
    assert !Enabled(s, k) && BoxLock(s, k);
    CountExtremes(s.pc, HoldsBox(k));
  }

  /** The locks are always taken in an order: nobody is ever held up for good by mailboxSemaphore or by
      MsgCntSemaphore, only by freeSpaceSemaphore. */
  lemma StuckAtSpace(s: State, i: nat)
    requires Inv(s) && Stuck(s) && i < P(s)
    ensures s.pc[i].Gone? || (s.pc[i].AtSpace? && s.free[s.pc[i].to] == 0)
  {
    NoCountHolder(s);
    NoBoxHolder(s, i);
    if HasAddress(s.pc[i]) { NoBoxHolder(s, s.pc[i].to); }
    assert !Enabled(s, i);
  }

  /** With boxes of at least one slot, the people come to a halt in just two ways: everybody is home, or
      everybody is waiting at a full box. */
  lemma StuckMeansFull(s: State)
    requires Inv(s) && s.capacity > 0
    ensures Stuck(s) <==> AllGone(s) || forall i :: 0 <= i < P(s) ==> AtFullBox(s, i)
  {
    if Stuck(s) && !AllGone(s) {
      var i :| 0 <= i < P(s) && !s.pc[i].Gone?;
      StuckWaits(s, i);
      forall j | 0 <= j < P(s) ensures AtFullBox(s, j) {
        assert Person(s, j);
        StuckWaits(s, j);
      }
    }
    if forall i :: 0 <= i < P(s) ==> AtFullBox(s, i) {
      forall i | 0 <= i < P(s) ensures !Enabled(s, i) {
        assert AtFullBox(s, i) && Slots(s, s.pc[i].to);
      }
    }
  }

  lemma StuckWaits(s: State, i: nat)
    requires Inv(s) && Stuck(s) && i < P(s) && !s.pc[i].Gone?
    ensures AtFullBox(s, i)
  {
    StuckAtSpace(s, i);
    var k := s.pc[i].to;
    forall j | 0 <= j < P(s) ensures !InFlight(k)(s.pc[j]) {
      StuckAtSpace(s, j);
    }
    CountExtremes(s.pc, InFlight(k));
    assert Slots(s, k);
  }

  /** A run that goes on as long as it can from where all is sent and read ends with everybody home. */
  lemma EverybodyGoesHome(s: State, turns: seq<(nat, Draw)>, last: State)
    requires Inv(s) && AllOver(s) && s.capacity > 0 && IsRun(s, turns, last)
    ensures WellFormed(last) && (Stuck(last) ==> AllGone(last) && forall i :: 0 <= i < P(last) ==> last.done[i])
    ensures |turns| <= 18 * P(s)
  {
    AllNearHome(s, turns, last);
    StuckMeansFull(last);
    if Stuck(last) {
      assert !AtFullBox(last, 0);
      forall i | 0 <= i < P(last) ensures last.done[i] {
        assert Person(last, i);
      }
    }
  }

  // ---------------------------------------------------------------- the letters drawn

  /** Person i, here, has read all the mail and sets out to send. */
  predicate SetsOut(s: State, i: nat)
    requires WellFormed(s) && i < P(s)
  {
    ((s.pc[i].Top? && !s.done[i]) || s.pc[i].ReadTest?) && s.msgPtr[i] == 0
  }

  function Lone(b: bool, letter: Letter): multiset<Letter> {
    if b then multiset{letter} else multiset{}
  }

  /** What person i drew with the step, if it is for j: the message, under i's own name. */
  function DrawnNow(s: State, i: nat, d: Draw, j: nat): multiset<Letter>
    requires WellFormed(s) && i < P(s)
  {
    Lone(SetsOut(s, i) && d.to == j, Letter(d.msg, i))
  }

  /** What person i gives up with the step because all letters are sent, if it was for j. */
  function GivenUpNow(s: State, i: nat, j: nat): multiset<Letter>
    requires WellFormed(s) && i < P(s)
  {
    if s.pc[i].Sending? then Lone(s.pc[i].to == j && s.sentCnt == s.quota, Letter(s.pc[i].msg, i)) else multiset{}
  }

  function Carried(pc: PC, i: nat, j: nat): multiset<Letter> {
    if pc.AtSpace? || pc.AtBox? || pc.AtCount? || pc.Sending? then Lone(pc.to == j, Letter(pc.msg, i)) else multiset{}
  }

  /** The letters for j in the hands of people on their way to j's box. */
  function InHand(pcs: seq<PC>, j: nat): multiset<Letter> {
    if pcs == [] then multiset{}
    else InHand(pcs[..|pcs| - 1], j) + Carried(pcs[|pcs| - 1], |pcs| - 1, j)
  }

  ghost function Drawn(s: State, turns: seq<(nat, Draw)>, last: State, j: nat): multiset<Letter>
    requires IsRun(s, turns, last)
    decreases |turns|
  {
    if turns == [] then multiset{}
    else
      var (i, d) := turns[0];
      DrawnNow(s, i, d, j) + Drawn(Step(s, i, d), turns[1..], last, j)
  }

  ghost function GivenUp(s: State, turns: seq<(nat, Draw)>, last: State, j: nat): multiset<Letter>
    requires IsRun(s, turns, last)
    decreases |turns|
  {
    if turns == [] then multiset{}
    else
      var (i, d) := turns[0];
      GivenUpNow(s, i, j) + GivenUp(Step(s, i, d), turns[1..], last, j)
  }

  lemma Regroup(a: multiset<Letter>, b: multiset<Letter>, c: multiset<Letter>, x: multiset<Letter>, y: multiset<Letter>)
    requires a + x == b + y
    ensures a + c + x == b + c + y
  {
    assert a + c + x == (a + x) + c;
    assert b + c + y == (b + y) + c;
  }

  lemma Balance(far: multiset<Letter>, laterGiven: multiset<Letter>, given: multiset<Letter>,
      posted': multiset<Letter>, hand': multiset<Letter>, laterDrawn: multiset<Letter>, own': multiset<Letter>,
      posted: multiset<Letter>, hand: multiset<Letter>, drawn: multiset<Letter>, own: multiset<Letter>)
    requires far + laterGiven == posted' + hand' + laterDrawn
    requires posted' + own' + given == posted + own + drawn
    requires hand' + own == hand + own'
    ensures far + (given + laterGiven) == posted + hand + (drawn + laterDrawn)
  {
    forall x ensures (far + (given + laterGiven))[x] == (posted + hand + (drawn + laterDrawn))[x] {
      assert (far + laterGiven)[x] == (posted' + hand' + laterDrawn)[x];
      assert (posted' + own' + given)[x] == (posted + own + drawn)[x];
      assert (hand' + own)[x] == (hand + own')[x];
    }
  }

  lemma {:induction false} InHandUpdate(pcs: seq<PC>, i: nat, pc: PC, j: nat)
    requires i < |pcs|
    ensures InHand(pcs[i := pc], j) + Carried(pcs[i], i, j) == InHand(pcs, j) + Carried(pc, i, j)
  {
    hide Carried;
    var n := |pcs| - 1;
    if i < n {
      assert pcs[i := pc][..n] == pcs[..n][i := pc] && pcs[i := pc][n] == pcs[n];
      InHandUpdate(pcs[..n], i, pc, j);
      Regroup(InHand(pcs[..n][i := pc], j), InHand(pcs[..n], j), Carried(pcs[n], n, j),
              Carried(pcs[i], i, j), Carried(pc, i, j));
    } else {
      assert pcs[i := pc][..n] == pcs[..n];
    }
  }

  lemma SizesKnown(s: State)
    requires WellFormed(s)
    ensures |s.posted| == P(s)
  {
  }

  lemma CarriedSend(s: State, i: nat, d: Draw, j: nat)
    requires WellFormed(s) && i < P(s) && CanStep(s, i, d) && InBounds(s, i) && HasAddress(s.pc[i])
    requires j < P(s) && s.sentCnt <= s.quota
    ensures WellFormed(SendStep(s, i, d)) && P(SendStep(s, i, d)) == P(s)
    ensures SendStep(s, i, d).posted[j] + Carried(SendStep(s, i, d).pc[i], i, j) + GivenUpNow(s, i, j)
      == s.posted[j] + Carried(s.pc[i], i, j)
    ensures s.sentCnt == s.quota ==> SendStep(s, i, d).sentCnt == s.quota
  {
    SendWellFormed(s, i, d);
    hide WellFormed;
  }

  lemma CarriedRead(s: State, i: nat, d: Draw, j: nat)
    requires WellFormed(s) && i < P(s) && CanStep(s, i, d) && InBounds(s, i) && !HasAddress(s.pc[i])
    ensures ReadStep(s, i, d).posted == s.posted && ReadStep(s, i, d).sentCnt == s.sentCnt
    ensures P(ReadStep(s, i, d)) == P(s)
    ensures Carried(ReadStep(s, i, d).pc[i], i, j) == DrawnNow(s, i, d, j)
  {
  }

  lemma CarriedStep(s: State, i: nat, d: Draw, j: nat)
    requires WellFormed(s) && i < P(s) && CanStep(s, i, d) && InBounds(s, i) && j < P(s) && s.sentCnt <= s.quota
    ensures WellFormed(Step(s, i, d)) && P(Step(s, i, d)) == P(s)
    ensures |Step(s, i, d).posted| == |s.posted| == P(s)
    ensures Step(s, i, d).posted[j] + Carried(Step(s, i, d).pc[i], i, j) + GivenUpNow(s, i, j)
      == s.posted[j] + Carried(s.pc[i], i, j) + DrawnNow(s, i, d, j)
    ensures GivenUpNow(s, i, j) != multiset{} ==> s.sentCnt == s.quota
    ensures s.sentCnt == s.quota ==> Step(s, i, d).sentCnt == s.quota
  {
    hide SendStep, ReadStep, CanStep, InBounds;
    StepWellFormed(s, i, d);
    if HasAddress(s.pc[i]) {
      CarriedSend(s, i, d, j);
    } else {
      CarriedRead(s, i, d, j);
    }
    hide WellFormed;
  }

  /** Where every letter is: at every moment of every run the letters people drew for j are the ones j has
      read, the ones in j's box, the ones on their way there, and the ones given up. */
  lemma {:induction false} LettersAccounted(s: State, turns: seq<(nat, Draw)>, last: State, j: nat)
    requires Inv(s) && IsRun(s, turns, last) && j < P(s)
    ensures P(last) == P(s) == |s.posted| == |last.posted|
    ensures last.posted[j] + InHand(last.pc, j) + GivenUp(s, turns, last, j)
      == s.posted[j] + InHand(s.pc, j) + Drawn(s, turns, last, j)
    ensures last.quota == s.quota && (s.sentCnt == s.quota ==> last.sentCnt == s.quota)
    ensures GivenUp(s, turns, last, j) != multiset{} ==> last.sentCnt == s.quota
    decreases |turns|
  {
    hide WellFormed, Step, CanStep, InBounds, CountLock, Slots, BoxLock, Delivered, Person, InHand, Carried,
      DrawnNow, GivenUpNow;
    SizesKnown(s);
    if turns != [] {
      var (i, d) := turns[0];
      var t := Step(s, i, d);
      InvStep(s, i, d);
      StepWellFormed(s, i, d);
      CarriedStep(s, i, d, j);
      InHandUpdate(s.pc, i, t.pc[i], j);
      LettersAccounted(t, turns[1..], last, j);
      Balance(last.posted[j] + InHand(last.pc, j), GivenUp(t, turns[1..], last, j), GivenUpNow(s, i, j),
              t.posted[j], InHand(t.pc, j), Drawn(t, turns[1..], last, j), Carried(t.pc[i], i, j),
              s.posted[j], InHand(s.pc, j), DrawnNow(s, i, d, j), Carried(s.pc[i], i, j));
    }
  }

  /** From the start: the letters drawn for j are the ones read, in the box, on their way and given up. */
  lemma EveryLetterIsSomewhere(people: nat, capacity: nat, quota: nat, turns: seq<(nat, Draw)>, s: State, j: nat)
    requires 2 <= people <= PEOPLE && capacity <= SLOTS && IsRun(Init(people, capacity, quota), turns, s) && j < people
    ensures WellFormed(s) && P(s) == people && 0 <= s.msgPtr[j] <= SLOTS
    ensures Drawn(Init(people, capacity, quota), turns, s, j) == s.read[j] + multiset(s.box[j][..s.msgPtr[j]])
      + InHand(s.pc, j) + GivenUp(Init(people, capacity, quota), turns, s, j)
    ensures GivenUp(Init(people, capacity, quota), turns, s, j) != multiset{} ==> s.sentCnt == quota
  {
    var s0 := Init(people, capacity, quota);
    InvInit(people, capacity, quota);
    LettersAccounted(s0, turns, s, j);
    NothingInHand(s0.pc, j);
    LettersConserved(people, capacity, quota, turns, s, j);
  }

  lemma {:induction false} NothingInHand(pcs: seq<PC>, j: nat)
    requires forall i :: 0 <= i < |pcs| ==> pcs[i] == Top
    ensures InHand(pcs, j) == multiset{}
  {
    if pcs != [] {
      NothingInHand(pcs[..|pcs| - 1], j);
    }
  }

  // ---------------------------------------------------------------- one letter, undisturbed

  lemma {:induction false} RunAppend(s: State, a: seq<(nat, Draw)>, m: State, b: seq<(nat, Draw)>, t: State)
    requires IsRun(s, a, m) && IsRun(m, b, t)
    ensures IsRun(s, a + b, t)
    decreases |a|
  {
    hide Step, CanStep, InBounds, WellFormed;
    if a == [] {
      assert a + b == b;
    } else {
      RunAppend(Step(s, a[0].0, a[0].1), a[1..], m, b, t);
      assert (a + b)[0] == a[0] && (a + b)[1..] == a[1..] + b;
    }
  }

  lemma OneStep(s: State, i: nat, d: Draw)
    requires WellFormed(s) && i < P(s) && CanStep(s, i, d) && InBounds(s, i)
    ensures IsRun(s, [(i, d)], Step(s, i, d))
  {
    assert [(i, d)][1..] == [];
  }

  lemma OneMore(s: State, a: seq<(nat, Draw)>, m: State, i: nat, d: Draw)
    requires IsRun(s, a, m) && WellFormed(m) && i < P(m) && CanStep(m, i, d) && InBounds(m, i)
    ensures IsRun(s, a + [(i, d)], Step(m, i, d))
  {
    OneStep(m, i, d);
    RunAppend(s, a, m, [(i, d)], Step(m, i, d));
  }

  lemma Claims(s: State, i: nat, d: Draw) returns (turns: seq<(nat, Draw)>, t: State)
    requires WellFormed(s) && i < P(s) && CanDraw(s, i, d) && s.pc[i].AtSpace?
    requires var k := s.pc[i].to; s.free[k] > 0 && s.mail[k] > 0 && s.cnt > 0
    ensures turns == [(i, d), (i, d), (i, d)] && IsRun(s, turns, t)
    ensures WellFormed(t)
    ensures var k := s.pc[i].to; t == s.(pc := s.pc[i := Sending(k, s.pc[i].msg)],
      free := s.free[k := s.free[k] - 1], mail := s.mail[k := s.mail[k] - 1], cnt := s.cnt - 1)
  {
    var k, m := s.pc[i].to, s.pc[i].msg;
    OneStep(s, i, d);
    StepWellFormed(s, i, d);
    var a := Step(s, i, d);
    assert a == s.(pc := s.pc[i := AtBox(k, m)], free := s.free[k := s.free[k] - 1]);
    OneMore(s, [(i, d)], a, i, d);
    StepWellFormed(a, i, d);
    var b := Step(a, i, d);
    OneMore(s, [(i, d)] + [(i, d)], b, i, d);
    StepWellFormed(b, i, d);
    t := Step(b, i, d);
    turns := [(i, d)] + [(i, d)] + [(i, d)];
    assert t.pc == s.pc[i := Sending(k, m)];
  }

  /** A person whom nobody disturbs has sent the letter, under the own name, after five steps: one slot of
      the recipient's is taken, the locks are back, and nothing else has changed. */
  lemma SendsOne(s: State, i: nat, d: Draw) returns (turns: seq<(nat, Draw)>, t: State)
    requires WellFormed(s) && i < P(s) && CanDraw(s, i, d) && s.pc[i].AtSpace?
    requires var k := s.pc[i].to; s.free[k] > 0 && s.mail[k] > 0 && s.cnt > 0 && 0 <= s.msgPtr[k] < SLOTS
    requires s.sentCnt < s.quota
    ensures |turns| == 5 && (forall x :: 0 <= x < 5 ==> turns[x] == (i, d)) && IsRun(s, turns, t) && WellFormed(t)
    ensures var k, letter := s.pc[i].to, Letter(s.pc[i].msg, i);
      t == s.(pc := s.pc[i := Stall(d.n)], free := s.free[k := s.free[k] - 1],
        box := s.box[k := s.box[k][s.msgPtr[k] := letter]], msgPtr := s.msgPtr[k := s.msgPtr[k] + 1],
        posted := s.posted[k := s.posted[k] + multiset{letter}], sentCnt := s.sentCnt + 1)
  {
    var claims, a := Claims(s, i, d);
    var k := s.pc[i].to;
    OneMore(s, claims, a, i, d);
    StepWellFormed(a, i, d);
    var b := Step(a, i, d);
    OneMore(s, claims + [(i, d)], b, i, d);
    StepWellFormed(b, i, d);
    t := Step(b, i, d);
    turns := claims + [(i, d)] + [(i, d)];
    assert t.pc == s.pc[i := Stall(d.n)] && t.mail == s.mail;
  }

  /** A person whom nobody disturbs has read the newest letter after four steps: its slot is free again,
      the lock is back, and nothing else has changed. */
  lemma ReadsOne(s: State, i: nat, d: Draw) returns (turns: seq<(nat, Draw)>, t: State)
    requires WellFormed(s) && i < P(s) && CanDraw(s, i, d) && s.pc[i].AtOwnBox?
    requires s.mail[i] > 0 && 1 <= s.msgPtr[i] <= SLOTS
    ensures |turns| == 4 && (forall x :: 0 <= x < 4 ==> turns[x] == (i, d)) && IsRun(s, turns, t) && WellFormed(t)
    ensures t == s.(pc := s.pc[i := ReadTest], free := s.free[i := s.free[i] + 1],
      msgPtr := s.msgPtr[i := s.msgPtr[i] - 1],
      read := s.read[i := s.read[i] + multiset{s.box[i][s.msgPtr[i] - 1]}])
  {
    var first, m := TakesOut(s, i, d);
    OneMore(s, first, m, i, d);
    StepWellFormed(m, i, d);
    var c := Step(m, i, d);
    OneMore(s, first + [(i, d)], c, i, d);
    StepWellFormed(c, i, d);
    t := Step(c, i, d);
    turns := first + [(i, d)] + [(i, d)];
    assert t.pc == s.pc[i := ReadTest] && t.mail == s.mail;
  }

  lemma TakesOut(s: State, i: nat, d: Draw) returns (turns: seq<(nat, Draw)>, t: State)
    requires WellFormed(s) && i < P(s) && CanDraw(s, i, d) && s.pc[i].AtOwnBox?
    requires s.mail[i] > 0 && 1 <= s.msgPtr[i] <= SLOTS
    ensures turns == [(i, d), (i, d)] && IsRun(s, turns, t) && WellFormed(t)
    ensures t == s.(pc := s.pc[i := ReadFreed], free := s.free[i := s.free[i] + 1],
      mail := s.mail[i := s.mail[i] - 1], msgPtr := s.msgPtr[i := s.msgPtr[i] - 1],
      read := s.read[i := s.read[i] + multiset{s.box[i][s.msgPtr[i] - 1]}])
  {
    OneStep(s, i, d);
    StepWellFormed(s, i, d);
    var a := Step(s, i, d);
    OneMore(s, [(i, d)], a, i, d);
    StepWellFormed(a, i, d);
    t := Step(a, i, d);
    turns := [(i, d)] + [(i, d)];
    assert t.pc == s.pc[i := ReadFreed];
  }

  /** When all letters are sent, a person whom nobody disturbs gives the slot and the locks back within six
      steps, and nothing but the person's place has changed. */
  lemma GivesUpOne(s: State, i: nat, d: Draw) returns (turns: seq<(nat, Draw)>, t: State)
    requires WellFormed(s) && i < P(s) && CanDraw(s, i, d) && s.pc[i].AtSpace?
    requires var k := s.pc[i].to; s.free[k] > 0 && s.mail[k] > 0 && s.cnt > 0
    requires s.sentCnt >= s.quota
    ensures |turns| == 6 && (forall x :: 0 <= x < 6 ==> turns[x] == (i, d)) && IsRun(s, turns, t) && WellFormed(t)
    ensures t == s.(pc := s.pc[i := Stall(d.n)])
  {
    hide WellFormed, Step, InBounds, CanStep, IsRun;
    var claims, a := Claims(s, i, d);
    var rest;
    rest, t := Releases(s, a, i, d);
    turns := claims + rest;
    RunAppend(s, claims, a, rest, t);
  }

  lemma Releases(s: State, a: State, i: nat, d: Draw) returns (turns: seq<(nat, Draw)>, t: State)
    requires WellFormed(s) && i < P(s) && CanDraw(s, i, d) && s.pc[i].AtSpace? && s.sentCnt >= s.quota
    requires var k := s.pc[i].to; s.free[k] > 0 && s.mail[k] > 0 && s.cnt > 0
    requires WellFormed(a)
    requires var k := s.pc[i].to; a == s.(pc := s.pc[i := Sending(k, s.pc[i].msg)],
      free := s.free[k := s.free[k] - 1], mail := s.mail[k := s.mail[k] - 1], cnt := s.cnt - 1)
    ensures turns == [(i, d), (i, d), (i, d)] && IsRun(a, turns, t) && WellFormed(t)
    ensures t == s.(pc := s.pc[i := Stall(d.n)])
  {
    var k := s.pc[i].to;
    OneStep(a, i, d);
    StepWellFormed(a, i, d);
    var b := Step(a, i, d);
    assert b == s.(pc := s.pc[i := Aborted(k)], mail := a.mail, cnt := a.cnt);
    OneMore(a, [(i, d)], b, i, d);
    StepWellFormed(b, i, d);
    var c := Step(b, i, d);
    assert c == s.(pc := s.pc[i := CountHeld], cnt := a.cnt);
    OneMore(a, [(i, d)] + [(i, d)], c, i, d);
    StepWellFormed(c, i, d);
    t := Step(c, i, d);
    turns := [(i, d)] + [(i, d)] + [(i, d)];
    assert t.pc == s.pc[i := Stall(d.n)];
  }

  // ---------------------------------------------------------------- the wait

  /** How many of the turns are those of person i. */
  function OwnTurns(turns: seq<(nat, Draw)>, i: nat): nat {
    if turns == [] then 0 else (if turns[0].0 == i then 1 else 0) + OwnTurns(turns[1..], i)
  }

  lemma StallStep(s: State, i: nat, d: Draw)
    requires WellFormed(s) && i < P(s) && CanStep(s, i, d) && InBounds(s, i)
    ensures WellFormed(Step(s, i, d)) && P(Step(s, i, d)) == P(s)
    ensures s.pc[i].CountHeld? ==> Step(s, i, d).pc[i] == Stall(d.n)
    ensures s.pc[i].Stall? && s.pc[i].n > 0 ==> Step(s, i, d).pc[i] == Stall(s.pc[i].n - 1)
  {
    StepWellFormed(s, i, d);
  }

  /** A person with n yields of the wait ahead is still waiting after as many turns of its own, with one
      fewer ahead for each, whatever the others do meanwhile. */
  lemma {:induction false} WaitLasts(s: State, turns: seq<(nat, Draw)>, last: State, i: nat, n: nat)
    requires Inv(s) && IsRun(s, turns, last) && i < P(s) && s.pc[i] == Stall(n) && OwnTurns(turns, i) <= n
    ensures P(last) == P(s) && last.pc[i] == Stall(n - OwnTurns(turns, i))
    decreases |turns|
  {
    hide WellFormed, Step, CanStep, InBounds, Quota, CountLock, Slots, BoxLock, Delivered, Person;
    if turns != [] {
      var (j, d) := turns[0];
      InvStep(s, j, d);
      StepWellFormed(s, j, d);
      StallStep(s, j, d);
      WaitLasts(Step(s, j, d), turns[1..], last, i, if j == i then n - 1 else n);
    }
  }
}
