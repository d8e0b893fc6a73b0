/** interrupt.cc: simulated time and the interrupts that wait for it. An interrupt handler is known by
    what it does to this module: what it schedules, and whether it asks for a context switch. */
module Interrupts {
  import opened Lists

  const SystemTick := 10
  const UserTick := 1

  datatype IntStatus = IntOff | IntOn
  datatype MachineStatus = IdleMode | SystemMode | UserMode
  datatype IntType = TimerInt | DiskInt | ConsoleWriteInt | ConsoleReadInt | NetworkSendInt | NetworkRecvInt

  /** A pending interrupt: the device, and which handler with which argument. */
  datatype Device = Device(kind: IntType, handler: nat)

  /** Schedule asserts that the delay is positive. */
  type Delay = x: int | x > 0 witness 1

  datatype Reaction = Reaction(schedules: seq<(Device, Delay)>, switches: bool)

  /** Handlers: what the one that fires at a given time does, as far as this module goes. */
  type Handlers = (Device, nat) -> Reaction

  // ---------------------------------------------------------------- the pending list

  /** The list after the handler's calls of Schedule, the first one first. */
  function AfterSchedules(pending: seq<Entry<Device>>, now: nat, calls: seq<(Device, Delay)>): seq<Entry<Device>>
    decreases |calls|
  {
    if calls == [] then pending
    else AfterSchedules(Inserted(pending, Entry(calls[0].0, now + calls[0].1)), now, calls[1..])
  }

  /** The interrupts that are due, in the order of the list. */
  function Due(pending: seq<Entry<Device>>, now: nat): (due: seq<Entry<Device>>)
    ensures forall i :: 0 <= i < |due| ==> due[i].key <= now
  {
    if pending == [] then []
    else (if pending[0].key <= now then [pending[0]] else []) + Due(pending[1..], now)
  }

  predicate NoneBefore(pending: seq<Entry<Device>>, t: int) {
    forall i :: 0 <= i < |pending| ==> t <= pending[i].key
  }

  lemma {:induction false} DueSplit(a: seq<Entry<Device>>, b: seq<Entry<Device>>, now: nat)
    ensures Due(a + b, now) == Due(a, now) + Due(b, now)
  {
    if a == [] {
      assert a + b == b;
    } else {
      assert (a + b)[1..] == a[1..] + b;
      DueSplit(a[1..], b, now);
    }
  }

  lemma {:induction false} NothingDue(s: seq<Entry<Device>>, now: nat)
    requires Sorted(s) && (s != [] ==> now < s[0].key)
    ensures Due(s, now) == []
  {
    if s != [] { NothingDue(s[1..], now); }
  }

  /** In a sorted list the due interrupts come first. */
  lemma {:induction false} DueComeFirst(s: seq<Entry<Device>>, now: nat)
    requires Sorted(s)
    ensures |Due(s, now)| <= |s| && Due(s, now) == s[..|Due(s, now)|]
    ensures forall i :: 0 <= i < |s| ==> (i < |Due(s, now)| <==> s[i].key <= now)
  {
    if s != [] {
      DueComeFirst(s[1..], now);
      if now < s[0].key { NothingDue(s, now); }
    }
  }

  lemma DueWithout(a: seq<Entry<Device>>, e: Entry<Device>, b: seq<Entry<Device>>, now: nat)
    requires now < e.key
    ensures Due(a + [e] + b, now) == Due(a + b, now)
  {
    DueSplit(a + [e], b, now);
    DueSplit(a, [e], now);
    DueSplit(a, b, now);
    assert [e][1..] == [];
    assert Due([e], now) == [];
    hide Due;
  }

  lemma DueInserted(s: seq<Entry<Device>>, e: Entry<Device>, now: nat)
    requires now < e.key
    ensures Due(Inserted(s, e), now) == Due(s, now)
  {
    hide Due, FirstAbove;
    var i := FirstAbove(s, e.key);
    assert s == s[..i] + s[i..];
    DueWithout(s[..i], e, s[i..], now);
  }

  lemma InsertedKeeps(s: seq<Entry<Device>>, e: Entry<Device>, t: int)
    requires Sorted(s)
    ensures Sorted(Inserted(s, e))
    ensures NoneBefore(s, t) && t <= e.key ==> NoneBefore(Inserted(s, e), t)
  {
  }

  /** What a handler schedules keeps the list sorted and is never due at once. */
  lemma {:induction false} SchedulesKeep(s: seq<Entry<Device>>, now: nat, calls: seq<(Device, Delay)>, t: int)
    requires Sorted(s) && NoneBefore(s, t) && t <= now
    ensures var r := AfterSchedules(s, now, calls);
      Sorted(r) && NoneBefore(r, t) && Due(r, now) == Due(s, now)
    decreases |calls|
  {
    if calls != [] {
      var e := Entry(calls[0].0, now + calls[0].1);
      InsertedKeeps(s, e, t);
      DueInserted(s, e, now);
      SchedulesKeep(Inserted(s, e), now, calls[1..], t);
    }
  }

  lemma HeadIsFirst(s: seq<Entry<Device>>)
    requires Sorted(s) && s != []
    ensures Sorted(s[1..]) && NoneBefore(s[1..], s[0].key) && NoneBefore(s, s[0].key)
  {
  }

  /** The list once its first interrupt has been taken out and put back. */
  function PutBack(s: seq<Entry<Device>>): seq<Entry<Device>> {
    if s == [] then [] else Inserted(s[1..], s[0])
  }

  /** An early interrupt that is put back goes behind all others of the same time: ties rotate. */
  lemma TiesRotate(s: seq<Entry<Device>>, n: nat)
    requires Sorted(s) && 0 < n <= |s|
    requires forall j :: 0 <= j < n ==> s[j].key == s[0].key
    requires n < |s| ==> s[0].key < s[n].key
    ensures PutBack(s) == s[1..n] + [s[0]] + s[n..]
  {
  }

  /** Nothing else waits for the time of the first interrupt. */
  ghost predicate FirstIsAlone(s: seq<Entry<Device>>) {
    forall j :: 0 <= j < |s| && s[j].key == s[0].key ==> s[j] == s[0]
  }

  lemma {:induction false} AllTheSame(s: seq<Entry<Device>>, j: nat)
    requires j < |s| && forall k :: 0 <= k < j ==> s[k] == s[k + 1]
    ensures s[j] == s[0]
  {
    if j > 0 { AllTheSame(s, j - 1); }
  }

  /** Putting the first interrupt back keeps the order exactly when it has its time to itself. */
  lemma TiesKeptWhen(s: seq<Entry<Device>>)
    requires Sorted(s)
    ensures PutBack(s) == s <==> FirstIsAlone(s)
  {
    if s != [] {
      var i := FirstAbove(s[1..], s[0].key);
      assert forall k :: 0 <= k < i ==> PutBack(s)[k] == s[k + 1];
      if PutBack(s) == s {
        forall j | 0 <= j < |s| && s[j].key == s[0].key ensures s[j] == s[0] {
          assert j <= i;
          AllTheSame(s, j);
        }
      }
    }
  }

  /** When all the entries differ, that is when the second one is for a later time. */
  lemma DistinctTiesKeptWhen(s: seq<Entry<Device>>)
    requires Sorted(s) && forall i, j :: 0 <= i < j < |s| ==> s[i] != s[j]
    ensures PutBack(s) == s <==> |s| <= 1 || s[0].key < s[1].key
  {
    TiesKeptWhen(s);
  }

  /** Where it is not kept: two interrupts for the same time change places whenever they are looked at
      too early. */
  lemma TiesAreNotFifo(a: Device, b: Device, when: int)
    requires a != b
    ensures PutBack([Entry(a, when), Entry(b, when)]) == [Entry(b, when), Entry(a, when)]
    ensures [Entry(b, when), Entry(a, when)] != [Entry(a, when), Entry(b, when)]
  {
  }

  /** The list is sorted; nothing fired early; interrupts fired in the order of their scheduled times,
      and what still waits is no earlier than any of them. */
  ghost predicate Orderly(fired: seq<Entry<Device>>, firedAt: seq<nat>, now: nat, pending: seq<Entry<Device>>) {
    && Sorted(pending) && |fired| == |firedAt|
    && (forall i :: 0 <= i < |fired| ==> fired[i].key <= firedAt[i] <= now)
    && (forall i, j :: 0 <= i < j < |fired| ==> fired[i].key <= fired[j].key && firedAt[i] <= firedAt[j])
    && (fired != [] ==> NoneBefore(pending, fired[|fired| - 1].key))
  }

  lemma OrderlyFire(fired: seq<Entry<Device>>, firedAt: seq<nat>, now: nat, s: seq<Entry<Device>>,
                    calls: seq<(Device, Delay)>)
    requires Orderly(fired, firedAt, now, s) && s != [] && s[0].key <= now
    ensures var rest := AfterSchedules(s[1..], now, calls);
      && Orderly(fired + [s[0]], firedAt + [now], now, rest)
      && Due(s, now) == [s[0]] + Due(rest, now)
  {
    hide AfterSchedules, Due, Sorted, NoneBefore;
    HeadIsFirst(s);
    SchedulesKeep(s[1..], now, calls, s[0].key);
    DueOfHead(s, now);
    OrderlyOneMore(fired, firedAt, now, s, AfterSchedules(s[1..], now, calls));
  }

  lemma DueOfHead(s: seq<Entry<Device>>, now: nat)
    requires s != [] && s[0].key <= now
    ensures Due(s, now) == [s[0]] + Due(s[1..], now)
  {
  }

  lemma OrderlyOneMore(fired: seq<Entry<Device>>, firedAt: seq<nat>, now: nat, s: seq<Entry<Device>>,
                       rest: seq<Entry<Device>>)
    requires Orderly(fired, firedAt, now, s) && s != [] && s[0].key <= now
    requires Sorted(rest) && NoneBefore(rest, s[0].key)
    ensures Orderly(fired + [s[0]], firedAt + [now], now, rest)
  {
  }

  lemma OrderlyPutBack(fired: seq<Entry<Device>>, firedAt: seq<nat>, now: nat, later: nat, s: seq<Entry<Device>>)
    requires Orderly(fired, firedAt, now, s) && s != [] && now <= later
    ensures Orderly(fired, firedAt, later, s) && Orderly(fired, firedAt, later, PutBack(s))
    ensures forall t :: NoneBefore(s, t) ==> NoneBefore(PutBack(s), t)
  {
    hide Inserted;
    HeadIsFirst(s);
    InsertedKeeps(s[1..], s[0], s[0].key);
    forall t | NoneBefore(s, t) ensures NoneBefore(PutBack(s), t) {
      assert t <= s[0].key;
      assert NoneBefore(PutBack(s), s[0].key);
    }
  }

  lemma OrderlyIsSorted(fired: seq<Entry<Device>>, firedAt: seq<nat>, now: nat, s: seq<Entry<Device>>)
    requires Orderly(fired, firedAt, now, s)
    ensures Sorted(s) && |fired| == |firedAt|
  {
  }

  lemma PutBackKeeps(fired: seq<Entry<Device>>, firedAt: seq<nat>, now: nat, later: nat, s: seq<Entry<Device>>)
    requires Orderly(fired, firedAt, now, s) && now <= later
    ensures PutBack(s) == s <==> FirstIsAlone(s)
    ensures s == [] ==> PutBack(s) == []
    ensures s != [] ==> Orderly(fired, firedAt, later, s) && Orderly(fired, firedAt, later, PutBack(s))
  {
    TiesKeptWhen(s);
    if s != [] { OrderlyPutBack(fired, firedAt, now, later, s); }
    hide Orderly, Inserted, FirstIsAlone;
  }

  lemma OrderlyLater(fired: seq<Entry<Device>>, firedAt: seq<nat>, now: nat, later: nat, pending: seq<Entry<Device>>)
    requires Orderly(fired, firedAt, now, pending) && now <= later
    ensures Orderly(fired, firedAt, later, pending)
  {
  }

  /** What a device's handler that has run leaves behind. */
  predicate Reacted(handlers: Handlers, device: Device, now: nat, rest: seq<Entry<Device>>, yielding: bool,
                    pending: seq<Entry<Device>>, yieldOnReturn: bool) {
    var reaction := handlers(device, now);
    pending == AfterSchedules(rest, now, reaction.schedules) && yieldOnReturn == (yielding || reaction.switches)
  }

  /** The last n interrupts all fired now. */
  ghost predicate AtOnce(before: seq<nat>, firedAt: seq<nat>, n: nat, now: nat) {
    && |firedAt| == |before| + n && before <= firedAt
    && forall i :: |before| <= i < |firedAt| ==> firedAt[i] == now
  }

  /** Of the interrupts that are due, those on the left still wait; the others have just fired. */
  ghost predicate Firing(before: seq<Entry<Device>>, beforeAt: seq<nat>, fired: seq<Entry<Device>>, firedAt: seq<nat>,
                         now: nat, due: seq<Entry<Device>>, left: seq<Entry<Device>>) {
    before <= fired && fired + left == before + due && AtOnce(beforeAt, firedAt, |fired| - |before|, now)
  }

  lemma FiringOne(before: seq<Entry<Device>>, beforeAt: seq<nat>, fired: seq<Entry<Device>>, firedAt: seq<nat>,
                  now: nat, due: seq<Entry<Device>>, e: Entry<Device>, left: seq<Entry<Device>>)
    requires Firing(before, beforeAt, fired, firedAt, now, due, [e] + left)
    ensures Firing(before, beforeAt, fired + [e], firedAt + [now], now, due, left)
  {
    assert fired + ([e] + left) == fired + [e] + left;
  }

  lemma FiringRest(before: seq<Entry<Device>>, beforeAt: seq<nat>, fired: seq<Entry<Device>>, firedAt: seq<nat>,
                   now: nat, due: seq<Entry<Device>>, left: seq<Entry<Device>>, news: seq<Entry<Device>>)
    requires Firing(before, beforeAt, fired, firedAt, now, due, left) && fired == before + news
    ensures due == news + left
  {
    assert before + (news + left) == fired + left;
    assert (before + due)[|before|..] == due && (before + (news + left))[|before|..] == news + left;
  }

  lemma FiringMeans(before: seq<Entry<Device>>, beforeAt: seq<nat>, fired: seq<Entry<Device>>, firedAt: seq<nat>,
                    now: nat, due: seq<Entry<Device>>, left: seq<Entry<Device>>)
    ensures Firing(before, beforeAt, fired, firedAt, now, due, left) ==>
      before <= fired && fired + left == before + due && AtOnce(beforeAt, firedAt, |fired| - |before|, now)
    ensures |before| == |beforeAt| ==> Firing(before, beforeAt, before, beforeAt, now, due, due)
  {
  }

  // ---------------------------------------------------------------- what handlers leave behind

  /** The interrupts that these calls of Schedule ask for. */
  function Calls(calls: seq<(Device, Delay)>, now: nat): seq<Entry<Device>> {
    seq(|calls|, i requires 0 <= i < |calls| => Entry(calls[i].0, now + calls[i].1))
  }

  /** All that the handlers of the interrupts in news ask for when these fire now. */
  function AskedBy(news: seq<Entry<Device>>, now: nat, handlers: Handlers): multiset<Entry<Device>> {
    if news == [] then multiset{}
    else multiset(Calls(handlers(news[0].item, now).schedules, now)) + AskedBy(news[1..], now, handlers)
  }

  /** One of them asks for a context switch. */
  ghost predicate SomeSwitch(news: seq<Entry<Device>>, now: nat, handlers: Handlers) {
    exists i :: 0 <= i < |news| && handlers(news[i].item, now).switches
  }

  /** The list once the handlers of news have run, one after the other. */
  function AfterHandlers(rest: seq<Entry<Device>>, now: nat, news: seq<Entry<Device>>, handlers: Handlers):
      seq<Entry<Device>>
    decreases |news|
  {
    if news == [] then rest
    else AfterHandlers(AfterSchedules(rest, now, handlers(news[0].item, now).schedules), now, news[1..], handlers)
  }

  lemma {:induction false} FirstAboveBehind(a: seq<Entry<Device>>, b: seq<Entry<Device>>, k: int)
    requires forall i :: 0 <= i < |a| ==> a[i].key <= k
    ensures FirstAbove(a + b, k) == |a| + FirstAbove(b, k)
  {
    if a == [] {
      assert a + b == b;
    } else {
      assert (a + b)[1..] == a[1..] + b;
      FirstAboveBehind(a[1..], b, k);
    }
  }

  lemma InsertedBehindDue(a: seq<Entry<Device>>, b: seq<Entry<Device>>, e: Entry<Device>)
    requires forall i :: 0 <= i < |a| ==> a[i].key <= e.key
    ensures Inserted(a + b, e) == a + Inserted(b, e)
  {
    hide FirstAbove;
    FirstAboveBehind(a, b, e.key);
    var i := FirstAbove(b, e.key);
    assert (a + b)[..|a| + i] == a + b[..i] && (a + b)[|a| + i..] == b[i..];
  }

  /** What is scheduled goes behind everything that is due. */
  lemma {:induction false} SchedulesBehindDue(a: seq<Entry<Device>>, b: seq<Entry<Device>>, now: nat,
                                              calls: seq<(Device, Delay)>)
    requires forall i :: 0 <= i < |a| ==> a[i].key <= now
    ensures AfterSchedules(a + b, now, calls) == a + AfterSchedules(b, now, calls)
    decreases |calls|
  {
    hide Inserted;
    if calls != [] {
      var e := Entry(calls[0].0, now + calls[0].1);
      InsertedBehindDue(a, b, e);
      SchedulesBehindDue(a, Inserted(b, e), now, calls[1..]);
    }
  }

  lemma {:induction false} SchedulesAdd(s: seq<Entry<Device>>, now: nat, calls: seq<(Device, Delay)>)
    ensures multiset(AfterSchedules(s, now, calls)) == multiset(s) + multiset(Calls(calls, now))
    decreases |calls|
  {
    hide Inserted;
    if calls == [] {
      assert Calls(calls, now) == [];
    } else {
      var e := Entry(calls[0].0, now + calls[0].1);
      InsertedContents(s, e);
      SchedulesAdd(Inserted(s, e), now, calls[1..]);
      assert Calls(calls, now) == [e] + Calls(calls[1..], now);
    }
  }

  lemma {:induction false} HandlersAdd(rest: seq<Entry<Device>>, now: nat, news: seq<Entry<Device>>, handlers: Handlers)
    ensures multiset(AfterHandlers(rest, now, news, handlers)) == multiset(rest) + AskedBy(news, now, handlers)
    decreases |news|
  {
    hide AfterSchedules, Calls;
    if news != [] {
      var calls := handlers(news[0].item, now).schedules;
      SchedulesAdd(rest, now, calls);
      HandlersAdd(AfterSchedules(rest, now, calls), now, news[1..], handlers);
    }
  }

  lemma {:induction false} HandlersOneMore(rest: seq<Entry<Device>>, now: nat, news: seq<Entry<Device>>,
                                           e: Entry<Device>, handlers: Handlers)
    ensures AfterHandlers(rest, now, news + [e], handlers) ==
      AfterSchedules(AfterHandlers(rest, now, news, handlers), now, handlers(e.item, now).schedules)
    decreases |news|
  {
    hide AfterSchedules;
    var more := news + [e];
    if news == [] {
      assert more[1..] == [];
    } else {
      assert more[1..] == news[1..] + [e];
      HandlersOneMore(AfterSchedules(rest, now, handlers(news[0].item, now).schedules), now, news[1..], e, handlers);
    }
  }

  /** While the due interrupts fire: news have fired, left are still due and first in the list, and behind
      them is what waits for later with what the handlers have asked for. */
  ghost predicate Reacting(handlers: Handlers, now: nat, rest: seq<Entry<Device>>, yielding: bool,
                           news: seq<Entry<Device>>, left: seq<Entry<Device>>,
                           pending: seq<Entry<Device>>, yieldOnReturn: bool) {
    && pending == left + AfterHandlers(rest, now, news, handlers)
    && (yieldOnReturn <==> yielding || SomeSwitch(news, now, handlers))
  }

  lemma ReactingOne(handlers: Handlers, now: nat, rest: seq<Entry<Device>>, yielding: bool,
                    news: seq<Entry<Device>>, left: seq<Entry<Device>>, s: seq<Entry<Device>>, y: bool,
                    pending: seq<Entry<Device>>, yieldOnReturn: bool)
    requires left != [] && Reacting(handlers, now, rest, yielding, news, left, s, y)
    requires forall i :: 0 <= i < |left| ==> left[i].key <= now
    requires s != [] && Reacted(handlers, s[0].item, now, s[1..], y, pending, yieldOnReturn)
    ensures s[0] == left[0]
    ensures Reacting(handlers, now, rest, yielding, news + [left[0]], left[1..], pending, yieldOnReturn)
  {
    hide AfterSchedules, AfterHandlers;
    var w := AfterHandlers(rest, now, news, handlers);
    var calls := handlers(left[0].item, now).schedules;
    assert s[1..] == left[1..] + w;
    SchedulesBehindDue(left[1..], w, now, calls);
    HandlersOneMore(rest, now, news, left[0], handlers);
    SwitchOneMore(news, left[0], now, handlers);
  }

  lemma SwitchOneMore(news: seq<Entry<Device>>, e: Entry<Device>, now: nat, handlers: Handlers)
    ensures SomeSwitch(news + [e], now, handlers) <==> SomeSwitch(news, now, handlers) || handlers(e.item, now).switches
  {
    var more := news + [e];
    if SomeSwitch(news, now, handlers) {
      var i :| 0 <= i < |news| && handlers(news[i].item, now).switches;
      assert more[i] == news[i];
    }
    if handlers(e.item, now).switches { assert more[|news|] == e; }
    if SomeSwitch(more, now, handlers) {
      var i :| 0 <= i < |more| && handlers(more[i].item, now).switches;
      assert i < |news| ==> news[i] == more[i];
    }
  }

  /** What is pending once the interrupts news of those due have fired and one that may not fire has been
      put back: what is still due, what was not, and what the handlers of news asked for, each at its time
      behind its equals. */
  ghost predicate Waits(handlers: Handlers, now: nat, before: seq<Entry<Device>>, news: seq<Entry<Device>>,
                        pending: seq<Entry<Device>>) {
    var due := Due(before, now);
    && |news| <= |due| <= |before| && news == due[..|news|] && before[..|due|] == due
    && pending == PutBack(due[|news|..] + AfterHandlers(before[|due|..], now, news, handlers))
  }

  /** And whether to yield: it was asked for before, or one of the handlers has asked for it. */
  ghost predicate Settled(handlers: Handlers, now: nat, before: seq<Entry<Device>>, yielding: bool,
                          news: seq<Entry<Device>>, pending: seq<Entry<Device>>, yieldOnReturn: bool) {
    Waits(handlers, now, before, news, pending) && (yieldOnReturn <==> yielding || SomeSwitch(news, now, handlers))
  }

  lemma PutBackContents(s: seq<Entry<Device>>)
    ensures multiset(PutBack(s)) == multiset(s)
  {
    hide Inserted;
    if s != [] {
      InsertedContents(s[1..], s[0]);
      assert s == [s[0]] + s[1..];
    }
  }

  lemma SettledMeans(handlers: Handlers, now: nat, before: seq<Entry<Device>>, yielding: bool,
                     news: seq<Entry<Device>>, pending: seq<Entry<Device>>, yieldOnReturn: bool)
    requires Settled(handlers, now, before, yielding, news, pending, yieldOnReturn)
    ensures Waits(handlers, now, before, news, pending)
    ensures yieldOnReturn == (yielding || SomeSwitch(news, now, handlers))
  {
    hide Waits, SomeSwitch;
  }

  /** Nothing is lost and nothing made up: what is pending with what fired is what was pending with what
      the handlers asked for. */
  predicate Balanced(handlers: Handlers, now: nat, before: seq<Entry<Device>>, news: seq<Entry<Device>>,
                     pending: seq<Entry<Device>>) {
    multiset(pending) + multiset(news) == multiset(before) + AskedBy(news, now, handlers)
  }

  lemma NothingLost(handlers: Handlers, now: nat, before: seq<Entry<Device>>, news: seq<Entry<Device>>,
                    pending: seq<Entry<Device>>)
    requires Waits(handlers, now, before, news, pending)
    ensures Balanced(handlers, now, before, news, pending)
  {
    hide Due, PutBack, AfterHandlers, AskedBy;
    var due := Due(before, now);
    var rest := before[|due|..];
    HandlersAdd(rest, now, news, handlers);
    PutBackContents(due[|news|..] + AfterHandlers(rest, now, news, handlers));
    assert due == news + due[|news|..] && before == due + rest;
  }

  /** Nothing is pending but the timer. */
  predicate OnlyTimer(pending: seq<Entry<Device>>) {
    |pending| == 1 && pending[0].item.kind == TimerInt
  }

  /** What is due once CheckIfDue has put the first one back. */
  lemma DuePutBack(s: seq<Entry<Device>>, now: nat)
    requires Sorted(s)
    ensures s == [] || now < s[0].key ==> Due(s, now) == [] && Due(PutBack(s), now) == []
    ensures OnlyTimer(s) ==> PutBack(s) == s
  {
    if s == [] || now < s[0].key {
      NothingDue(s, now);
      if s != [] { DueInserted(s[1..], s[0], now); }
    }
  }

  lemma NothingMoved(s: seq<Entry<Device>>)
    ensures s == [] || OnlyTimer(s) ==> PutBack(s) == s
  {
  }

  /** What is due once it has fired the first one. */
  lemma DueFired(s: seq<Entry<Device>>, now: nat, handlers: Handlers, yielding: bool,
                 pending: seq<Entry<Device>>, yieldOnReturn: bool)
    requires Sorted(s) && s != [] && s[0].key <= now
    requires Reacted(handlers, s[0].item, now, s[1..], yielding, pending, yieldOnReturn)
    ensures Due(s, now) == [s[0]] + Due(pending, now)
  {
    hide AfterSchedules;
    HeadIsFirst(s);
    SchedulesKeep(s[1..], now, handlers(s[0].item, now).schedules, s[0].key);
  }

  lemma ReactingStarts(handlers: Handlers, now: nat, s: seq<Entry<Device>>, yielding: bool)
    requires Sorted(s)
    ensures var due := Due(s, now);
      |due| <= |s| && s[..|due|] == due && Reacting(handlers, now, s[|due|..], yielding, [], due, s, yielding)
  {
    hide Due;
    DueComeFirst(s, now);
    var due := Due(s, now);
    assert s == due + s[|due|..];
  }

  lemma ReactingEnds(handlers: Handlers, now: nat, before: seq<Entry<Device>>, yielding: bool,
                     news: seq<Entry<Device>>, left: seq<Entry<Device>>, s: seq<Entry<Device>>, y: bool)
    requires var due := Due(before, now);
      |due| <= |before| && before[..|due|] == due && due == news + left &&
      Reacting(handlers, now, before[|due|..], yielding, news, left, s, y)
    ensures Settled(handlers, now, before, yielding, news, PutBack(s), y)
  {
    hide Due, PutBack, AfterHandlers, SomeSwitch;
  }

  /** The first interrupt has fired by itself, and then the loop has served the others. */
  lemma SettledAfterFirst(handlers: Handlers, now: nat, s: seq<Entry<Device>>, yielding: bool,
                          next: seq<Entry<Device>>, y: bool, news: seq<Entry<Device>>,
                          pending: seq<Entry<Device>>, yieldOnReturn: bool)
    requires Sorted(s) && s != [] && s[0].key <= now
    requires Reacted(handlers, s[0].item, now, s[1..], yielding, next, y)
    requires Settled(handlers, now, next, y, news, pending, yieldOnReturn)
    ensures Settled(handlers, now, s, yielding, [s[0]] + news, pending, yieldOnReturn)
  {
    hide Due, PutBack, AfterSchedules, SomeSwitch, Sorted;
    DueFired(s, now, handlers, yielding, next, y);
    DueComeFirst(s, now);
    var due, later := Due(s, now), Due(next, now);
    var rest, calls := s[|due|..], handlers(s[0].item, now).schedules;
    assert s[1..] == later + rest;
    SchedulesBehindDue(later, rest, now, calls);
    assert next[|later|..] == AfterSchedules(rest, now, calls);
    assert ([s[0]] + news)[1..] == news;
    assert due[|news| + 1..] == later[|news|..];
    SwitchFirst(s[0], news, now, handlers);
  }

  lemma SwitchFirst(e: Entry<Device>, news: seq<Entry<Device>>, now: nat, handlers: Handlers)
    ensures SomeSwitch([e] + news, now, handlers) <==> handlers(e.item, now).switches || SomeSwitch(news, now, handlers)
  {
    var more := [e] + news;
    if SomeSwitch(news, now, handlers) {
      var i :| 0 <= i < |news| && handlers(news[i].item, now).switches;
      assert more[i + 1] == news[i];
    }
    if handlers(e.item, now).switches { assert more[0] == e; }
    if SomeSwitch(more, now, handlers) {
      var i :| 0 <= i < |more| && handlers(more[i].item, now).switches;
      assert i > 0 ==> news[i - 1] == more[i];
    }
  }

  /** The clock when CheckIfDue fires the first pending interrupt, or gives up. */
  function ClockThen(pending: seq<Entry<Device>>, now: nat, advanceClock: bool): nat {
    if pending != [] && advanceClock && pending[0].key > now then pending[0].key else now
  }

  /** Whether it fires: the first one is due by then, and is not all that an idle machine waits for. */
  predicate WillFire(pending: seq<Entry<Device>>, now: nat, status: MachineStatus, advanceClock: bool) {
    && pending != [] && pending[0].key <= ClockThen(pending, now, advanceClock)
    && !(status == IdleMode && OnlyTimer(pending))
  }

  // ---------------------------------------------------------------- the machine's clock and interrupts

  class Interrupt {
    var level: IntStatus
    var pending: seq<Entry<Device>>
    var inHandler: bool
    var yieldOnReturn: bool
    var status: MachineStatus
    var totalTicks: nat
    var idleTicks: nat
    var systemTicks: nat
    var userTicks: nat
    ghost var fired: seq<Entry<Device>>     // every interrupt that fired, with the time it was scheduled for
    ghost var firedAt: seq<nat>             // and the time it did fire

    /** Time adds up, and the interrupts so far were orderly. */
    ghost predicate Valid() reads this {
      totalTicks == idleTicks + systemTicks + userTicks && !inHandler && Orderly(fired, firedAt, totalTicks, pending)
    }

    constructor ()
      ensures Valid() && level == IntOff && status == SystemMode && pending == [] && totalTicks == 0
      ensures fired == [] && !yieldOnReturn
    {
      level, pending, inHandler, yieldOnReturn, status := IntOff, [], false, false, SystemMode;
      totalTicks, idleTicks, systemTicks, userTicks := 0, 0, 0, 0;
      fired, firedAt := [], [];
    }

    method ChangeLevel(before: IntStatus, now: IntStatus)
      modifies `level
      ensures level == now
    {
      level := now;
    }

    method Schedule(device: Device, fromNow: Delay)
      modifies `pending
      ensures pending == Inserted(old(pending), Entry(device, totalTicks + fromNow))
    {
      var when := totalTicks + fromNow;
      SortedInsert(Entry(device, when));
    }

    method YieldOnReturn()
      requires inHandler
      modifies `yieldOnReturn
      ensures yieldOnReturn
    {
      yieldOnReturn := true;
    }

    /** A handler's calls. */
    method Handle(reaction: Reaction)
      requires inHandler
      modifies `pending, `yieldOnReturn
      ensures pending == AfterSchedules(old(pending), totalTicks, reaction.schedules)
      ensures yieldOnReturn == (old(yieldOnReturn) || reaction.switches)
    {
      ghost var p := pending;
      var calls := reaction.schedules;
      hide Inserted;
      for i := 0 to |calls|
        invariant AfterSchedules(p, totalTicks, calls) == AfterSchedules(pending, totalTicks, calls[i..])
        invariant yieldOnReturn == old(yieldOnReturn)
      {
        assert calls[i..][0] == calls[i] && calls[i..][1..] == calls[i + 1..];
        Schedule(reaction.schedules[i].0, reaction.schedules[i].1);
      }
      if reaction.switches {
        YieldOnReturn();
      }
    }

    /** Takes the first pending interrupt: fires it, or puts it back behind its equals. */
    method CheckIfDue(advanceClock: bool, handlers: Handlers) returns (result: bool)
      requires Valid() && level == IntOff
      modifies this
      ensures Valid() && level == IntOff && status == old(status)
      ensures result == WillFire(old(pending), old(totalTicks), status, advanceClock)
      ensures totalTicks == ClockThen(old(pending), old(totalTicks), advanceClock)
      ensures idleTicks - old(idleTicks) == totalTicks - old(totalTicks)
      ensures systemTicks == old(systemTicks) && userTicks == old(userTicks)
      ensures !result ==> fired == old(fired) && firedAt == old(firedAt) && yieldOnReturn == old(yieldOnReturn)
      ensures !result ==> pending == PutBack(old(pending))
      ensures !result ==> (pending == old(pending) <==> FirstIsAlone(old(pending)))
      ensures result ==> fired == old(fired) + [old(pending)[0]] && firedAt == old(firedAt) + [totalTicks]
      ensures result ==> Reacted(handlers, old(pending)[0].item, totalTicks,
        old(pending)[1..], old(yieldOnReturn), pending, yieldOnReturn)
    {
      hide PutBack, FirstIsAlone, Orderly, Inserted, Reacted, OnlyTimer;
      ghost var s := pending;
      PutBackKeeps(fired, firedAt, totalTicks, ClockThen(s, totalTicks, advanceClock), s);
      if pending == [] {
        return false;
      }
      var toOccur, early := TakeFirst(advanceClock);
      if early {
        return false;
      }
      result := FireUnlessDone(toOccur, handlers, s);
    }

    /** The start of CheckIfDue: the first interrupt is taken, and the clock moves to its time or it is put
        back as too early. */
    method TakeFirst(advanceClock: bool) returns (toOccur: Entry<Device>, early: bool)
      requires pending != []
      modifies `pending, `totalTicks, `idleTicks
      ensures toOccur == old(pending)[0] && early == (totalTicks < toOccur.key)
      ensures totalTicks == ClockThen(old(pending), old(totalTicks), advanceClock)
      ensures idleTicks - old(idleTicks) == totalTicks - old(totalTicks)
      ensures pending == if early then PutBack(old(pending)) else old(pending)[1..]
    {
      hide Inserted;
      toOccur := pending[0];
      var when := toOccur.key;
      pending := pending[1..];
      early := false;
      if advanceClock && when > totalTicks {
        idleTicks := idleTicks + (when - totalTicks);
        totalTicks := when;
      } else if when > totalTicks {
        SortedInsert(toOccur);
        early := true;
      }
    }

    /** The middle of CheckIfDue: an idle machine that waits only for its timer has nothing to do. */
    method FireUnlessDone(toOccur: Entry<Device>, handlers: Handlers, ghost s: seq<Entry<Device>>)
      returns (result: bool)
      requires totalTicks == idleTicks + systemTicks + userTicks && !inHandler
      requires s != [] && s[0] == toOccur && pending == s[1..] && toOccur.key <= totalTicks
      requires Orderly(fired, firedAt, totalTicks, s) && Orderly(fired, firedAt, totalTicks, PutBack(s))
      modifies `inHandler, `status, `pending, `yieldOnReturn, `fired, `firedAt
      ensures Valid() && status == old(status)
      ensures result == !(status == IdleMode && OnlyTimer(s))
      ensures !result ==> fired == old(fired) && firedAt == old(firedAt) && yieldOnReturn == old(yieldOnReturn)
      ensures !result ==> pending == PutBack(s)
      ensures result ==> fired == old(fired) + [toOccur] && firedAt == old(firedAt) + [totalTicks]
      ensures result ==> Reacted(handlers, toOccur.item, totalTicks,
        old(pending), old(yieldOnReturn), pending, yieldOnReturn)
    {
      hide Orderly, Inserted, Reacted;
      if status == IdleMode && toOccur.item.kind == TimerInt && pending == [] {
        SortedInsert(toOccur);
        return false;
      }
      Fire(toOccur, handlers, s);
      return true;
    }

    /** The end of CheckIfDue: the handler runs in system mode, then the status is as it was. */
    method Fire(toOccur: Entry<Device>, handlers: Handlers, ghost s: seq<Entry<Device>>)
      requires totalTicks == idleTicks + systemTicks + userTicks && !inHandler
      requires s != [] && s[0] == toOccur && pending == s[1..] && toOccur.key <= totalTicks
      requires Orderly(fired, firedAt, totalTicks, s)
      modifies `inHandler, `status, `pending, `yieldOnReturn, `fired, `firedAt
      ensures Valid() && status == old(status)
      ensures fired == old(fired) + [toOccur] && firedAt == old(firedAt) + [totalTicks]
      ensures Reacted(handlers, toOccur.item, totalTicks,
        old(pending), old(yieldOnReturn), pending, yieldOnReturn)
    {
      hide Orderly, AfterSchedules;
      var before := status;
      inHandler := true;
      status := SystemMode;
      var reaction := handlers(toOccur.item, totalTicks);
      OrderlyFire(fired, firedAt, totalTicks, s, reaction.schedules);
      Handle(reaction);
      fired := fired + [toOccur];
      firedAt := firedAt + [totalTicks];
      status := before;
      inHandler := false;
    }

    /** pending->SortedInsert; List.dfy shows that the linked list does this. */
    method SortedInsert(toOccur: Entry<Device>)
      modifies `pending
      ensures pending == Inserted(old(pending), toOccur)
    {
      var i := FirstAbove(pending, toOccur.key);
      pending := pending[..i] + [toOccur] + pending[i..];
    }

    /** The interrupts that have fired since there were so many. */
    ghost function News(before: nat): seq<Entry<Device>>
      reads this
      requires before <= |fired|
    {
      fired[before..]
    }

    /** The loop `while CheckIfDue(FALSE)`: it ends, because every turn fires one of the interrupts that
        were due and what handlers schedule is not due yet. The interrupts that were due have fired, in
        their order and at this very time, and no others; only an idle machine that is left with nothing
        but its timer leaves that one. The others wait on, with what the handlers have asked for. */
    method FireDue(handlers: Handlers)
      requires Valid() && level == IntOff
      modifies this
      ensures Valid() && level == IntOff && status == old(status)
      ensures totalTicks == old(totalTicks) && idleTicks == old(idleTicks)
      ensures systemTicks == old(systemTicks) && userTicks == old(userTicks)
      ensures old(fired) <= fired && AtOnce(old(firedAt), firedAt, |fired| - |old(fired)|, totalTicks)
      ensures fired + Due(pending, totalTicks) == old(fired) + Due(old(pending), totalTicks)
      ensures Due(pending, totalTicks) != [] ==> status == IdleMode && OnlyTimer(pending)
      ensures Settled(handlers, totalTicks, old(pending), old(yieldOnReturn),
        News(|old(fired)|), pending, yieldOnReturn)
    {
      ghost var p, due, news: seq<Entry<Device>> := pending, Due(pending, totalTicks), [];
      hide Orderly, Sorted, Reacted, PutBack, FirstIsAlone, Due, OnlyTimer, Firing, Reacting, Settled;
      OrderlyIsSorted(fired, firedAt, totalTicks, p);
      FiringMeans(fired, firedAt, fired, firedAt, totalTicks, due, due);
      ReactingStarts(handlers, totalTicks, p, yieldOnReturn);
      var more := true;
      while more
        invariant Valid() && level == IntOff && status == old(status)
        invariant totalTicks == old(totalTicks) && idleTicks == old(idleTicks)
        invariant systemTicks == old(systemTicks) && userTicks == old(userTicks)
        invariant Firing(old(fired), old(firedAt), fired, firedAt, totalTicks, due, Due(pending, totalTicks))
        invariant fired == old(fired) + news
        invariant more ==> Reacting(handlers, totalTicks, p[|due|..], old(yieldOnReturn),
          news, Due(pending, totalTicks), pending, yieldOnReturn)
        invariant !more ==> Settled(handlers, totalTicks, p, old(yieldOnReturn), news, pending, yieldOnReturn)
        invariant !more && Due(pending, totalTicks) != [] ==> status == IdleMode && OnlyTimer(pending)
        decreases more, |Due(pending, totalTicks)|
      {
        ghost var s, yielding, left := pending, yieldOnReturn, Due(pending, totalTicks);
        OrderlyIsSorted(fired, firedAt, totalTicks, s);
        ghost var before, beforeAt := fired, firedAt;
        FiringRest(old(fired), old(firedAt), fired, firedAt, totalTicks, due, left, news);
        more := CheckIfDue(false, handlers);
        if more {
          DueFired(s, totalTicks, handlers, yielding, pending, yieldOnReturn);
          FiringOne(old(fired), old(firedAt), before, beforeAt, totalTicks, due, s[0], Due(pending, totalTicks));
          ReactingOne(handlers, totalTicks, p[|due|..], old(yieldOnReturn), news, left, s, yielding,
            pending, yieldOnReturn);
          news := news + [s[0]];
        } else {
          DuePutBack(s, totalTicks);
          ReactingEnds(handlers, totalTicks, p, old(yieldOnReturn), news, left, s, yielding);
        }
      }
      FiringMeans(old(fired), old(firedAt), fired, firedAt, totalTicks, due, Due(pending, totalTicks));
      assert News(|old(fired)|) == news;
    }

    method AdvanceTime()
      requires status != IdleMode
      modifies `totalTicks, `systemTicks, `userTicks
      ensures totalTicks == old(totalTicks) + (if status == SystemMode then SystemTick else UserTick)
      ensures systemTicks == old(systemTicks) + (if status == SystemMode then SystemTick else 0)
      ensures userTicks == old(userTicks) + (if status == SystemMode then 0 else UserTick)
    {
      if status == SystemMode {
        totalTicks := totalTicks + SystemTick;
        systemTicks := systemTicks + SystemTick;
      } else {
        totalTicks := totalTicks + UserTick;
        userTicks := userTicks + UserTick;
      }
    }

    /** Time passes, and what is due fires. The result says whether the running thread then yields: whether
        it had been asked for before, or one of the handlers asks for it. */
    method OneTick(handlers: Handlers) returns (switching: bool)
      requires Valid() && level == IntOn && status != IdleMode
      modifies this
      ensures Valid() && level == IntOn && status == old(status) && !yieldOnReturn && idleTicks == old(idleTicks)
      ensures totalTicks == old(totalTicks) + (if status == SystemMode then SystemTick else UserTick)
      ensures systemTicks == old(systemTicks) + (if status == SystemMode then SystemTick else 0)
      ensures userTicks == old(userTicks) + (if status == SystemMode then 0 else UserTick)
      ensures fired == old(fired) + Due(old(pending), totalTicks) && Due(pending, totalTicks) == []
      ensures AtOnce(old(firedAt), firedAt, |fired| - |old(fired)|, totalTicks)
      ensures switching == (old(yieldOnReturn) || SomeSwitch(News(|old(fired)|), totalTicks, handlers))
      ensures Waits(handlers, totalTicks, old(pending), News(|old(fired)|), pending)
      ensures Balanced(handlers, totalTicks, old(pending), News(|old(fired)|), pending)
    {
      hide Orderly, Due, Settled, Waits, SomeSwitch, Balanced, AtOnce, OnlyTimer;
      ghost var before, was := totalTicks, |fired|;
      AdvanceTime();
      OrderlyLater(fired, firedAt, before, totalTicks, pending);
      ChangeLevel(IntOn, IntOff);
      FireDue(handlers);
      ChangeLevel(IntOff, IntOn);
      switching := yieldOnReturn;
      SettledMeans(handlers, totalTicks, old(pending), old(yieldOnReturn), News(was), pending, switching);
      NothingLost(handlers, totalTicks, old(pending), News(was), pending);
      if yieldOnReturn {
        yieldOnReturn := false;   // the yield runs in system mode, after which the status is as it was
      }
    }

    /** Turning interrupts on takes a tick. */
    method SetLevel(now: IntStatus, handlers: Handlers) returns (before: IntStatus, switching: bool)
      requires Valid() && status != IdleMode
      modifies this
      ensures Valid() && level == now && before == old(level) && status == old(status)
      ensures now == IntOn && before == IntOff ==>
        && totalTicks == old(totalTicks) + (if status == SystemMode then SystemTick else UserTick)
        && idleTicks == old(idleTicks) && !yieldOnReturn
        && systemTicks == old(systemTicks) + (if status == SystemMode then SystemTick else 0)
        && fired == old(fired) + Due(old(pending), totalTicks) && Due(pending, totalTicks) == []
        && AtOnce(old(firedAt), firedAt, |fired| - |old(fired)|, totalTicks)
        && Waits(handlers, totalTicks, old(pending), News(|old(fired)|), pending)
        && Balanced(handlers, totalTicks, old(pending), News(|old(fired)|), pending)
        && switching == (old(yieldOnReturn) || SomeSwitch(News(|old(fired)|), totalTicks, handlers))
      ensures !(now == IntOn && before == IntOff) ==>
        && !switching && totalTicks == old(totalTicks) && idleTicks == old(idleTicks)
        && systemTicks == old(systemTicks) && pending == old(pending) && yieldOnReturn == old(yieldOnReturn)
        && fired == old(fired) && firedAt == old(firedAt)
    {
      hide Orderly, Due, Waits, SomeSwitch, AtOnce, Balanced;
      before := level;
      switching := false;
      ChangeLevel(before, now);
      if now == IntOn && before == IntOff {
        switching := OneTick(handlers);
      }
    }

    /** The clock jumps to the first pending interrupt, which fires with all that are due with it. */
    method JumpAhead(handlers: Handlers) returns (any: bool)
      requires Valid() && level == IntOff && status == IdleMode
      modifies this
      ensures Valid() && level == IntOff && status == IdleMode
      ensures any == WillFire(old(pending), old(totalTicks), IdleMode, true)
      ensures totalTicks == ClockThen(old(pending), old(totalTicks), true)
      ensures systemTicks == old(systemTicks) && userTicks == old(userTicks)
      ensures !any ==> fired == old(fired) && firedAt == old(firedAt) && pending == PutBack(old(pending))
      ensures !any ==> yieldOnReturn == old(yieldOnReturn)
      ensures any ==> old(fired) + [old(pending)[0]] <= fired
      ensures any ==> AtOnce(old(firedAt), firedAt, |fired| - |old(fired)|, totalTicks)
      ensures any && Due(pending, totalTicks) != [] ==> OnlyTimer(pending)
      ensures any ==> fired + Due(pending, totalTicks) == old(fired) + Due(old(pending), totalTicks)
      ensures any ==> Settled(handlers, totalTicks, old(pending), old(yieldOnReturn),
        News(|old(fired)|), pending, yieldOnReturn)
    {
      hide Orderly, Sorted, Reacted, PutBack, FirstIsAlone, Due, OnlyTimer, Settled;
      ghost var s, yielding, was := pending, yieldOnReturn, fired;
      OrderlyIsSorted(fired, firedAt, totalTicks, s);
      any := CheckIfDue(true, handlers);
      if any {
        ghost var next, y := pending, yieldOnReturn;
        DueFired(s, totalTicks, handlers, yielding, next, y);
        assert was + ([s[0]] + Due(next, totalTicks)) == fired + Due(next, totalTicks);
        FireDue(handlers);
        SettledAfterFirst(handlers, totalTicks, s, yielding, next, y, News(|was| + 1), pending, yieldOnReturn);
        assert News(|was|) == [s[0]] + News(|was| + 1);
      }
    }

    /** Nobody can run: the clock jumps to the first pending interrupt and fires it and all that are due
        with it. With nothing pending, or only the timer, Nachos halts. */
    method Idle(handlers: Handlers) returns (halts: bool)
      requires Valid() && level == IntOff
      modifies this
      ensures Valid() && level == IntOff
      ensures halts == (old(pending) == [] || OnlyTimer(old(pending)))
      ensures totalTicks == ClockThen(old(pending), old(totalTicks), true)
      ensures systemTicks == old(systemTicks) && userTicks == old(userTicks)
      ensures halts ==> fired == old(fired) && firedAt == old(firedAt) && pending == old(pending)
      ensures halts ==> status == IdleMode && yieldOnReturn == old(yieldOnReturn)
      ensures !halts ==> status == SystemMode && !yieldOnReturn
      ensures !halts ==> old(fired) + [old(pending)[0]] <= fired
      ensures !halts ==> AtOnce(old(firedAt), firedAt, |fired| - |old(fired)|, totalTicks)
      ensures !halts ==> fired + Due(pending, totalTicks) == old(fired) + Due(old(pending), totalTicks)
      ensures !halts && Due(pending, totalTicks) != [] ==> OnlyTimer(pending)
      ensures !halts ==> Waits(handlers, totalTicks, old(pending), News(|old(fired)|), pending)
      ensures !halts ==> Balanced(handlers, totalTicks, old(pending), News(|old(fired)|), pending)
    {
      hide Orderly, Due, OnlyTimer, Waits, SomeSwitch, AtOnce, Balanced, PutBack;
      ghost var s, was := pending, |fired|;
      OrderlyIsSorted(fired, firedAt, totalTicks, pending);
      NothingMoved(s);
      status := IdleMode;
      var any := JumpAhead(handlers);
      if any {
        NothingLost(handlers, totalTicks, s, News(was), pending);
        yieldOnReturn := false;
        status := SystemMode;
        return false;
      }
      return true;
    }
  }
}
