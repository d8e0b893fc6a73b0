/** threadtest.cc: people who read their mailbox and send letters, with counting semaphores for
    the free slots, as a step system. A step is a stretch of code up to and including its next P, V or
    Yield; the code leading to a P that may block is a step of its own. */
module PostOffice {
  import opened Counting

  datatype Letter = Letter(msg: nat, who: nat)

  datatype PC =
    | Top | ReadTest                                          // done[i], then MsgPtr[i] and the choice
    | AtOwnBox | Reading | ReadFreed | ReadReleased
    | AtSpace(to: nat, msg: nat) | AtBox(to: nat, msg: nat) | AtCount(to: nat, msg: nat) | Sending(to: nat, msg: nat)
    | Aborted(to: nat) | CountHeld | Stall(n: nat) | Gone

  /** box is the array MailBox[128][64]. posted and read record, for each person, every letter put into
      and taken out of the box so far; the code does not look at them. */
  datatype State = State(
    capacity: nat, quota: nat, pc: seq<PC>, msgPtr: seq<int>, box: seq<seq<Letter>>, done: seq<bool>,
    sentCnt: int, free: seq<nat>, mail: seq<nat>, cnt: nat, posted: seq<multiset<Letter>>, read: seq<multiset<Letter>>)

  const PEOPLE := 128
  const SLOTS := 64

  function P(s: State): nat {
    |s.pc|
  }

  predicate WellFormed(s: State) {
    && 2 <= P(s) <= PEOPLE && s.capacity <= SLOTS
    && |s.msgPtr| == |s.done| == |s.free| == |s.mail| == |s.posted| == |s.read| == P(s)
    && |s.box| == PEOPLE && (forall j :: 0 <= j < PEOPLE ==> |s.box[j]| == SLOTS)
    && (forall i :: 0 <= i < P(s) ==> Addressed(s.pc[i], i, P(s)))
  }

  predicate HasAddress(pc: PC) {
    pc.AtSpace? || pc.AtBox? || pc.AtCount? || pc.Sending? || pc.Aborted?
  }

  /** Letters go to somebody else. */
  predicate Addressed(pc: PC, i: nat, people: nat) {
    HasAddress(pc) ==> pc.to < people && pc.to != i
  }

  function Init(people: nat, capacity: nat, quota: nat): State {
    State(capacity, quota, seq(people, i => Top), seq(people, i => 0), seq(PEOPLE, i => seq(SLOTS, k => Letter(0, 0))),
          seq(people, i => false), 0, seq(people, i => capacity), seq(people, i => 1), 1,
          seq(people, i => multiset{}), seq(people, i => multiset{}))
  }

  /** The random numbers a step may draw: recipient, one of six messages, length of the wait. */
  datatype Draw = Draw(to: nat, msg: nat, n: nat)

  predicate CanDraw(s: State, i: nat, d: Draw) {
    d.to < P(s) && d.to != i && d.msg < 6 && 2 <= d.n <= 5
  }

  /** The semaphore of the next P of person i, if any, lets i through. */
  predicate Enabled(s: State, i: nat)
    requires WellFormed(s) && i < P(s)
  {
    match s.pc[i]
    case AtOwnBox => s.mail[i] > 0
    case AtSpace(k, _) => s.free[k] > 0
    case AtBox(k, _) => s.mail[k] > 0
    case AtCount(_, _) => s.cnt > 0
    case Gone => false
    case _ => true
  }

  predicate CanStep(s: State, i: nat, d: Draw)
    requires WellFormed(s) && i < P(s)
  {
    CanDraw(s, i, d) && Enabled(s, i)
  }

  /** The array accesses of the next step are inside the mailbox. */
  predicate InBounds(s: State, i: nat)
    requires WellFormed(s) && i < P(s)
  {
    && (s.pc[i].Reading? ==> 0 <= s.msgPtr[i] - 1 < SLOTS)
    && (s.pc[i].Sending? && s.sentCnt < s.quota ==> 0 <= s.msgPtr[s.pc[i].to] < SLOTS)
  }

  function ChooseOrRead(s: State, i: nat, d: Draw): State
    requires WellFormed(s) && i < P(s)
  {
    s.(pc := s.pc[i := if s.msgPtr[i] != 0 then AtOwnBox else AtSpace(d.to, d.msg)])
  }

  function ReadStep(s: State, i: nat, d: Draw): State
    requires WellFormed(s) && i < P(s) && CanStep(s, i, d) && InBounds(s, i) && !HasAddress(s.pc[i])
  {
    match s.pc[i]
    case Top => if s.done[i] then s.(pc := s.pc[i := Gone]) else ChooseOrRead(s, i, d)
    case ReadTest => ChooseOrRead(s, i, d)
    case AtOwnBox => s.(pc := s.pc[i := Reading], mail := s.mail[i := s.mail[i] - 1])
    case Reading =>
      s.(pc := s.pc[i := ReadFreed],
         read := s.read[i := s.read[i] + multiset{s.box[i][s.msgPtr[i] - 1]}],
         msgPtr := s.msgPtr[i := s.msgPtr[i] - 1],
         free := s.free[i := s.free[i] + 1])
    case ReadFreed => s.(pc := s.pc[i := ReadReleased], mail := s.mail[i := s.mail[i] + 1])
    case ReadReleased => s.(pc := s.pc[i := ReadTest])
    case CountHeld => s.(pc := s.pc[i := Stall(d.n)], cnt := s.cnt + 1)
    case Stall(n) =>
      if n > 0 then s.(pc := s.pc[i := Stall(n - 1)])
      else
        var over := s.sentCnt == s.quota && forall j :: 0 <= j < P(s) ==> s.msgPtr[j] == 0;
        s.(pc := s.pc[i := Top], done := s.done[i := over])
  }

  function Post(s: State, i: nat, k: nat, letter: Letter): State
    requires WellFormed(s) && i < P(s) && k < P(s) && 0 <= s.msgPtr[k] < SLOTS
  {
    s.(pc := s.pc[i := CountHeld],
       box := s.box[k := s.box[k][s.msgPtr[k] := letter]],
       msgPtr := s.msgPtr[k := s.msgPtr[k] + 1],
       posted := s.posted[k := s.posted[k] + multiset{letter}],
       sentCnt := s.sentCnt + 1,
       mail := s.mail[k := s.mail[k] + 1])
  }

  function SendStep(s: State, i: nat, d: Draw): State
    requires WellFormed(s) && i < P(s) && CanStep(s, i, d) && InBounds(s, i) && HasAddress(s.pc[i])
  {
    match s.pc[i]
    case AtSpace(k, m) => s.(pc := s.pc[i := AtBox(k, m)], free := s.free[k := s.free[k] - 1])
    case AtBox(k, m) => s.(pc := s.pc[i := AtCount(k, m)], mail := s.mail[k := s.mail[k] - 1])
    case AtCount(k, m) => s.(pc := s.pc[i := Sending(k, m)], cnt := s.cnt - 1)
    case Sending(k, m) =>
      if s.sentCnt < s.quota then Post(s, i, k, Letter(m, i))
      else s.(pc := s.pc[i := Aborted(k)], free := s.free[k := s.free[k] + 1])
    case Aborted(k) => s.(pc := s.pc[i := CountHeld], mail := s.mail[k := s.mail[k] + 1])
  }

  function Step(s: State, i: nat, d: Draw): State
    requires WellFormed(s) && i < P(s) && CanStep(s, i, d) && InBounds(s, i)
  {
    if HasAddress(s.pc[i]) then SendStep(s, i, d) else ReadStep(s, i, d)
  }

  // ---------------------------------------------------------------- the invariant

  /** Has taken one of j's free slots and not yet filled it or given it back. */
  function InFlight(j: nat): PC -> bool {
    (pc: PC) => (pc.AtBox? || pc.AtCount? || pc.Sending?) && pc.to == j
  }

  /** Holds j's mailbox in order to send. */
  function HoldsBox(j: nat): PC -> bool {
    (pc: PC) => (pc.AtCount? || pc.Sending? || pc.Aborted?) && pc.to == j
  }

  predicate HoldsOwnBox(pc: PC) { pc.Reading? || pc.ReadFreed? }
  predicate HoldsCount(pc: PC) { pc.Sending? || pc.Aborted? || pc.CountHeld? }

  /** Every slot of j's box is free, promised or filled. */
  predicate Slots(s: State, j: nat)
    requires WellFormed(s) && j < P(s)
  {
    s.msgPtr[j] >= 0 && s.free[j] + s.msgPtr[j] + Count(s.pc, InFlight(j)) == s.capacity
  }

  /** At most one holder of j's mailbox. */
  predicate BoxLock(s: State, j: nat)
    requires WellFormed(s) && j < P(s)
  {
    s.mail[j] + Count(s.pc, HoldsBox(j)) + (if HoldsOwnBox(s.pc[j]) then 1 else 0) == 1
  }

  predicate CountLock(s: State) {
    s.cnt + Count(s.pc, HoldsCount) == 1
  }

  /** Every letter posted to j was read by j or is in j's box. */
  predicate Delivered(s: State, j: nat)
    requires WellFormed(s) && j < P(s)
  {
    0 <= s.msgPtr[j] <= SLOTS && s.posted[j] == s.read[j] + multiset(s.box[j][..s.msgPtr[j]])
  }

  function Total(ms: seq<multiset<Letter>>): nat {
    if ms == [] then 0 else Total(ms[..|ms| - 1]) + |ms[|ms| - 1]|
  }

  predicate Quota(s: State) {
    s.sentCnt <= s.quota && s.sentCnt == Total(s.posted)
  }

  /** A person about to read has a letter; one who is done, or gone, left when all was sent and read. */
  predicate Person(s: State, i: nat)
    requires WellFormed(s) && i < P(s)
  {
    && (s.pc[i].AtOwnBox? || s.pc[i].Reading? ==> s.msgPtr[i] >= 1)
    && (s.pc[i].Gone? ==> s.done[i])
    && (s.pc[i].Stall? ==> s.pc[i].n <= 5)
    && (s.done[i] ==> AllOver(s))
  }

  predicate AllOver(s: State)
    requires WellFormed(s)
  {
    s.sentCnt == s.quota && forall j :: 0 <= j < P(s) ==> s.msgPtr[j] == 0
  }

  predicate Inv(s: State) {
    && WellFormed(s) && Quota(s) && CountLock(s)
    && (forall j :: 0 <= j < P(s) ==> Slots(s, j))
    && (forall j :: 0 <= j < P(s) ==> BoxLock(s, j))
    && (forall j :: 0 <= j < P(s) ==> Delivered(s, j))
    && (forall j :: 0 <= j < P(s) ==> Person(s, j))
  }

  // ---------------------------------------------------------------- every step keeps it

  lemma StepWellFormed(s: State, i: nat, d: Draw)
    requires WellFormed(s) && i < P(s) && CanStep(s, i, d) && InBounds(s, i)
    ensures var t := Step(s, i, d);
      WellFormed(t) && P(t) == P(s) && t.capacity == s.capacity && t.quota == s.quota && t.pc == s.pc[i := t.pc[i]]
  {
    hide WellFormed, CanStep, InBounds, SendStep, ReadStep;
    if HasAddress(s.pc[i]) {
      SendWellFormed(s, i, d);
    } else {
      ReadWellFormed(s, i, d);
    }
  }

  lemma SendWellFormed(s: State, i: nat, d: Draw)
    requires WellFormed(s) && i < P(s) && CanStep(s, i, d) && InBounds(s, i) && HasAddress(s.pc[i])
    ensures var t := SendStep(s, i, d);
      WellFormed(t) && P(t) == P(s) && t.capacity == s.capacity && t.quota == s.quota && t.pc == s.pc[i := t.pc[i]]
  {
  }

  lemma ReadWellFormed(s: State, i: nat, d: Draw)
    requires WellFormed(s) && i < P(s) && CanStep(s, i, d) && InBounds(s, i) && !HasAddress(s.pc[i])
    ensures var t := ReadStep(s, i, d);
      WellFormed(t) && P(t) == P(s) && t.capacity == s.capacity && t.quota == s.quota && t.pc == s.pc[i := t.pc[i]]
  {
  }

  lemma SlotsStep(s: State, i: nat, d: Draw, j: nat)
    requires WellFormed(s) && i < P(s) && CanStep(s, i, d) && InBounds(s, i) && j < P(s) && Slots(s, j) && Person(s, i)
    ensures WellFormed(Step(s, i, d)) && P(Step(s, i, d)) == P(s) && Slots(Step(s, i, d), j)
  {
    StepWellFormed(s, i, d);
    CountUpdate(s.pc, i, Step(s, i, d).pc[i], InFlight(j));
    hide Count, WellFormed;
  }

  lemma BoxLockStep(s: State, i: nat, d: Draw, j: nat)
    requires WellFormed(s) && i < P(s) && CanStep(s, i, d) && InBounds(s, i) && j < P(s) && BoxLock(s, j)
    ensures WellFormed(Step(s, i, d)) && P(Step(s, i, d)) == P(s) && BoxLock(Step(s, i, d), j)
  {
    StepWellFormed(s, i, d);
    CountUpdate(s.pc, i, Step(s, i, d).pc[i], HoldsBox(j));
    hide Count, WellFormed;
  }

  lemma CountLockStep(s: State, i: nat, d: Draw)
    requires WellFormed(s) && i < P(s) && CanStep(s, i, d) && InBounds(s, i) && CountLock(s)
    ensures CountLock(Step(s, i, d))
  {
    hide Count, WellFormed;
    StepWellFormed(s, i, d);
    CountUpdate(s.pc, i, Step(s, i, d).pc[i], HoldsCount);
  }

  lemma DeliveredRead(s: State, i: nat, d: Draw, j: nat)
    requires WellFormed(s) && i < P(s) && CanStep(s, i, d) && InBounds(s, i) && j < P(s) && Delivered(s, j)
    requires s.pc[i].Reading?
    ensures WellFormed(ReadStep(s, i, d)) && P(ReadStep(s, i, d)) == P(s) && Delivered(ReadStep(s, i, d), j)
  {
    StepWellFormed(s, i, d);
    hide WellFormed;
    var p := s.msgPtr[i];
    assert s.box[i][..p] == s.box[i][..p - 1] + [s.box[i][p - 1]];
  }

  lemma DeliveredPost(s: State, i: nat, k: nat, letter: Letter, j: nat)
    requires WellFormed(s) && i < P(s) && k < P(s) && 0 <= s.msgPtr[k] < SLOTS && j < P(s) && Delivered(s, j)
    requires WellFormed(Post(s, i, k, letter))
    ensures P(Post(s, i, k, letter)) == P(s) && Delivered(Post(s, i, k, letter), j)
  {
    var t := Post(s, i, k, letter);
    var p := s.msgPtr[k];
    assert k < |s.box| && |s.box[k]| == SLOTS && |s.box[j]| == SLOTS;
    hide WellFormed;
    assert t.box[k][..p + 1] == s.box[k][..p] + [letter];
  }

  /** Steps other than reading and posting touch no letter. */
  lemma LettersFrame(s: State, i: nat, d: Draw)
    requires WellFormed(s) && i < P(s) && CanStep(s, i, d) && InBounds(s, i)
    requires !s.pc[i].Reading? && !(s.pc[i].Sending? && s.sentCnt < s.quota)
    ensures var t := Step(s, i, d);
      t.box == s.box && t.msgPtr == s.msgPtr && t.posted == s.posted && t.read == s.read && t.sentCnt == s.sentCnt
  {
  }

  lemma DeliveredStep(s: State, i: nat, d: Draw, j: nat)
    requires WellFormed(s) && i < P(s) && CanStep(s, i, d) && InBounds(s, i) && j < P(s) && Delivered(s, j)
    ensures WellFormed(Step(s, i, d)) && P(Step(s, i, d)) == P(s) && Delivered(Step(s, i, d), j)
  {
    StepWellFormed(s, i, d);
    if s.pc[i].Reading? {
      DeliveredRead(s, i, d, j);
      hide ReadStep, Delivered;
    } else if s.pc[i].Sending? && s.sentCnt < s.quota {
      assert Step(s, i, d) == Post(s, i, s.pc[i].to, Letter(s.pc[i].msg, i));
      hide Delivered, Step, SendStep, ReadStep, Post;
      DeliveredPost(s, i, s.pc[i].to, Letter(s.pc[i].msg, i), j);
    } else {
      LettersFrame(s, i, d);
      hide Step, SendStep, ReadStep;
    }
  }

  lemma {:induction false} TotalUpdate(ms: seq<multiset<Letter>>, k: nat, x: multiset<Letter>)
    requires k < |ms|
    ensures Total(ms[k := x]) == Total(ms) - |ms[k]| + |x|
  {
    var n := |ms| - 1;
    if k < n {
      assert ms[k := x][..n] == ms[..n][k := x] && ms[k := x][n] == ms[n];
      TotalUpdate(ms[..n], k, x);
    } else {
      assert ms[k := x][..n] == ms[..n];
    }
  }

  lemma QuotaStep(s: State, i: nat, d: Draw)
    requires WellFormed(s) && i < P(s) && CanStep(s, i, d) && InBounds(s, i) && Quota(s)
    ensures Quota(Step(s, i, d))
  {
    if s.pc[i].Sending? {
      TotalUpdate(s.posted, s.pc[i].to, Step(s, i, d).posted[s.pc[i].to]);
    }
    hide WellFormed, Total;
  }

  /** Once every letter was sent and read, nothing is read or posted any more. */
  lemma OverStays(s: State, i: nat, d: Draw)
    requires WellFormed(s) && i < P(s) && CanStep(s, i, d) && InBounds(s, i) && Person(s, i) && AllOver(s)
    ensures var t := Step(s, i, d);
      WellFormed(t) && AllOver(t) && t.posted == s.posted && t.read == s.read
  {
    hide Step, WellFormed;
    StepWellFormed(s, i, d);
    LettersFrame(s, i, d);
  }

  lemma PersonStep(s: State, i: nat, d: Draw, j: nat)
    requires WellFormed(s) && i < P(s) && CanStep(s, i, d) && InBounds(s, i) && j < P(s)
    requires Slots(s, i) && Person(s, i) && Person(s, j)
    ensures WellFormed(Step(s, i, d)) && P(Step(s, i, d)) == P(s) && Person(Step(s, i, d), j)
  {
    StepWellFormed(s, i, d);
    if AllOver(s) { OverStays(s, i, d); }
    hide WellFormed, Count;
    assert Step(s, i, d).done[j] && !s.done[j] ==> AllOver(Step(s, i, d)) by {
      if s.pc[i] == Stall(0) { LettersFrame(s, i, d); }
    }
    hide AllOver;
  }

  lemma InvStep(s: State, i: nat, d: Draw)
    requires Inv(s) && i < P(s) && CanStep(s, i, d) && InBounds(s, i)
    ensures Inv(Step(s, i, d))
  {
    hide Step, CanStep, InBounds, Slots, BoxLock, Delivered, Person;
    StepWellFormed(s, i, d);
    QuotaStep(s, i, d);
    CountLockStep(s, i, d);
    forall j | 0 <= j < P(s)
      ensures Slots(Step(s, i, d), j) && BoxLock(Step(s, i, d), j) && Delivered(Step(s, i, d), j)
      ensures Person(Step(s, i, d), j)
    {
      SlotsStep(s, i, d, j);
      BoxLockStep(s, i, d, j);
      DeliveredStep(s, i, d, j);
      PersonStep(s, i, d, j);
    }
  }

  /** The semaphores keep every array access inside its mailbox. */
  lemma InvInBounds(s: State, i: nat)
    requires Inv(s) && i < P(s)
    ensures InBounds(s, i)
  {
    assert Person(s, i) && Slots(s, i);
    if s.pc[i].Sending? {
      var k := s.pc[i].to;
      assert Slots(s, k);
      CountExtremes(s.pc, InFlight(k));
    }
  }

  // ---------------------------------------------------------------- every run

  /** Any interleaving of people that can step. A step outside its mailbox would end a run; BoxesNeverOverflow
      shows that no run comes to one. */
  ghost predicate IsRun(s: State, turns: seq<(nat, Draw)>, last: State)
    decreases |turns|
  {
    if turns == [] then s == last
    else
      && WellFormed(s) && turns[0].0 < P(s) && CanStep(s, turns[0].0, turns[0].1) && InBounds(s, turns[0].0)
      && IsRun(Step(s, turns[0].0, turns[0].1), turns[1..], last)
  }

  lemma InvInit(people: nat, capacity: nat, quota: nat)
    requires 2 <= people <= PEOPLE && capacity <= SLOTS
    ensures Inv(Init(people, capacity, quota))
  {
    var s := Init(people, capacity, quota);
    assert WellFormed(s);
    TotalNone(s.posted);
    CountExtremes(s.pc, HoldsCount);
    forall j | 0 <= j < people ensures Slots(s, j) && BoxLock(s, j) && Delivered(s, j) && Person(s, j) {
      CountExtremes(s.pc, InFlight(j));
      CountExtremes(s.pc, HoldsBox(j));
    }
  }

  lemma {:induction false} TotalNone(ms: seq<multiset<Letter>>)
    requires forall k :: 0 <= k < |ms| ==> ms[k] == multiset{}
    ensures Total(ms) == 0
  {
    if ms != [] { TotalNone(ms[..|ms| - 1]); }
  }

  lemma {:induction false} RunKeeps(s: State, turns: seq<(nat, Draw)>, last: State)
    requires Inv(s) && IsRun(s, turns, last)
    ensures Inv(last) && P(last) == P(s) && last.capacity == s.capacity && last.quota == s.quota
    ensures AllOver(s) ==> AllOver(last) && last.posted == s.posted && last.read == s.read
    decreases |turns|
  {
    hide Step, CanStep, InBounds, WellFormed, Slots, BoxLock, Delivered, Person, Quota, CountLock, AllOver;
    if turns != [] {
      InvStep(s, turns[0].0, turns[0].1);
      StepWellFormed(s, turns[0].0, turns[0].1);
      if AllOver(s) {
        assert Person(s, turns[0].0);
        OverStays(s, turns[0].0, turns[0].1);
      }
      RunKeeps(Step(s, turns[0].0, turns[0].1), turns[1..], last);
    }
  }

  /** No run reads or writes outside a mailbox; the slots of every box are free, promised or filled,
      so a box never holds more than its capacity; no more letters are sent than asked for. */
  lemma BoxesNeverOverflow(people: nat, capacity: nat, quota: nat, turns: seq<(nat, Draw)>, s: State, i: nat)
    requires 2 <= people <= PEOPLE && capacity <= SLOTS && IsRun(Init(people, capacity, quota), turns, s) && i < people
    ensures WellFormed(s) && P(s) == people && InBounds(s, i)
    ensures s.free[i] + s.msgPtr[i] + Count(s.pc, InFlight(i)) == capacity && 0 <= s.msgPtr[i] <= capacity
    ensures s.sentCnt <= quota
  {
    InvInit(people, capacity, quota);
    RunKeeps(Init(people, capacity, quota), turns, s);
    InvInBounds(s, i);
    assert Slots(s, i);
  }

  /** At every moment the letters posted to a person are the ones read and the ones in the box, with
      multiplicity, and the number sent is the number posted to all. */
  lemma LettersConserved(people: nat, capacity: nat, quota: nat, turns: seq<(nat, Draw)>, s: State, j: nat)
    requires 2 <= people <= PEOPLE && capacity <= SLOTS && IsRun(Init(people, capacity, quota), turns, s) && j < people
    ensures WellFormed(s) && P(s) == people && 0 <= s.msgPtr[j] <= SLOTS
    ensures s.posted[j] == s.read[j] + multiset(s.box[j][..s.msgPtr[j]])
    ensures s.sentCnt == Total(s.posted)
  {
    InvInit(people, capacity, quota);
    RunKeeps(Init(people, capacity, quota), turns, s);
    assert Delivered(s, j);
  }

  /** Two people never use the same mailbox at once, nor the count of letters sent. */
  lemma OneAtATime(people: nat, capacity: nat, quota: nat, turns: seq<(nat, Draw)>, s: State, j: nat, i: nat, k: nat)
    requires 2 <= people <= PEOPLE && capacity <= SLOTS && IsRun(Init(people, capacity, quota), turns, s)
    requires j < people && i < people && k < people && i != k
    ensures WellFormed(s) && P(s) == people
    ensures HoldsBox(j)(s.pc[i]) ==> !HoldsBox(j)(s.pc[k]) && !HoldsOwnBox(s.pc[j])
    ensures HoldsCount(s.pc[i]) ==> !HoldsCount(s.pc[k])
  {
    InvInit(people, capacity, quota);
    RunKeeps(Init(people, capacity, quota), turns, s);
    assert BoxLock(s, j);
    CountTwo(s.pc, i, k, HoldsBox(j));
    CountTwo(s.pc, i, k, HoldsCount);
  }

  /** Once anybody is done, all letters have been sent, every box is empty, and so it stays for ever. */
  lemma DoneMeansOver(people: nat, capacity: nat, quota: nat, turns: seq<(nat, Draw)>, s: State, i: nat,
      later: seq<(nat, Draw)>, t: State, j: nat)
    requires 2 <= people <= PEOPLE && capacity <= SLOTS && IsRun(Init(people, capacity, quota), turns, s)
    requires i < people && i < |s.done| && s.done[i] && IsRun(s, later, t) && j < people
    ensures WellFormed(t) && P(t) == people
    ensures t.sentCnt == quota && t.msgPtr[j] == 0 && t.posted == s.posted && t.read == s.read
    ensures t.posted[j] == t.read[j]
  {
    InvInit(people, capacity, quota);
    RunKeeps(Init(people, capacity, quota), turns, s);
    assert Person(s, i);
    RunKeeps(s, later, t);
    assert Delivered(t, j);
  }
}
