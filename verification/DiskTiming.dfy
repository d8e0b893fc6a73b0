/** disk.cc: how long a request takes. A sector passes under the head in RotationTime (500) ticks and a
    seek over one track takes SeekTime (500); there are 32 tracks of 32 sectors. The clock is the
    parameter now of each method. */
module DiskTiming {
  import opened Common

  const NumSectors := 1024

  // ---------------------------------------------------------------- the rotating disk

  /** A moment at which the head crosses from one sector to the next. */
  predicate Boundary(t: int) {
    t % 500 == 0
  }

  /** At the boundary t the head has just passed over all of sector s of its track. */
  predicate JustSwept(s: nat, t: int) {
    Boundary(t) && (t / 500 - 1) % 32 == s % 32
  }

  /** Sector s passes under the head, from one end to the other, between the times from and to. */
  ghost predicate PassesBetween(s: nat, from: int, to: int) {
    exists t :: JustSwept(s, t) && from <= t - 500 && t <= to
  }

  /** The first boundary at or after t. */
  function NextBoundary(t: int): (b: int)
    ensures Boundary(b) && t <= b < t + 500
  {
    if t % 500 == 0 then t else t + 500 - t % 500
  }

  function Seek(from: nat, to: nat): nat {
    Abs(to / 32 - from / 32) * 500
  }

  /** The sectors that pass between from and the far end of the next to, less one. */
  function Turn(to: int, from: int): (d: nat)
    ensures d < 32
  {
    (to - from) % 32
  }

  lemma SameTurn(x: int, k: int)
    ensures (x + 32 * k) % 32 == x % 32
  {
  }

  /** The same, counted in sectors: a sectors have passed at the start, b at t. */
  lemma FirstTurn(s: nat, a: int, b: int)
    ensures (a + Turn(s, a)) % 32 == s % 32
    ensures (b - 1) % 32 == s % 32 && a <= b - 1 ==> a + Turn(s, a) <= b - 1
  {
    var d, q := Turn(s, a), (s - a) / 32;
    assert a + d == s + 32 * -q;
    SameTurn(s, -q);
    if (b - 1) % 32 == s % 32 {
      assert b - 1 - a == s - a + 32 * ((b - 1) / 32 - s / 32);
      SameTurn(s - a, (b - 1) / 32 - s / 32);
      assert (b - 1 - a) % 32 == d;
    }
  }

  /** From the boundary start on, the sector is swept first at start + (Turn + 1) * 500. */
  lemma FirstSweep(s: nat, start: int, t: int)
    requires Boundary(start)
    ensures var c := start + (Turn(s, start / 500) + 1) * 500;
      && JustSwept(s, c) && start <= c - 500
      && (JustSwept(s, t) && start <= t - 500 ==> c <= t)
  {
    hide Turn;
    FirstTurn(s, start / 500, t / 500);
  }

  /** The buffer test: enough whole sectors have gone by since the buffer began to fill. */
  lemma EnoughHavePassed(s: nat, filling: int, after: int)
    requires Boundary(filling) && Boundary(after) && filling <= after
    ensures (after - filling) / 500 > Turn(s, filling / 500) <==> PassesBetween(s, filling, after)
  {
    hide Turn, JustSwept;
    var c := filling + (Turn(s, filling / 500) + 1) * 500;
    FirstSweep(s, filling, c);
    assert after - filling == (after - filling) / 500 * 500;
    if PassesBetween(s, filling, after) {
      var t :| JustSwept(s, t) && filling <= t - 500 && t <= after;
      FirstSweep(s, filling, t);
    }
  }

  // ---------------------------------------------------------------- the device

  predicate SameTrack(a: nat, b: nat) {
    a / 32 == b / 32
  }

  /** When the head came to rest on its track, after a request for sector to from the sector from. */
  function ArrivedAfter(arrived: nat, now: nat, from: nat, to: nat): nat {
    if SameTrack(from, to) then arrived else now + Seek(from, to)
  }

  /** The delay of a request on a disk whose head came to rest on the track of lastSector at the time
      arrived. A read on that track takes one sector's time when the sector has passed since, up to the
      boundary now approached. Otherwise the delay lasts to the first boundary, after the seek, at which
      the head has just swept the sector. */
  ghost predicate Served(sector: nat, writing: bool, now: nat, lastSector: nat, arrived: nat, ticks: int) {
    var seek := Seek(lastSector, sector);
    if !writing && SameTrack(lastSector, sector) && PassesBetween(sector, arrived, NextBoundary(now)) then
      ticks == 500
    else
      && JustSwept(sector, now + ticks) && now + seek <= now + ticks - 500
      && forall t :: JustSwept(sector, t) && now + seek <= t - 500 ==> now + ticks <= t
  }

  class Disk {
    var active: bool
    var lastSector: nat
    var bufferInit: nat
    ghost var due: nat        // when the request in progress will be done
    ghost var arrived: nat    // when the head came to rest on its present track

    /** The track buffer began to fill at the first boundary after the head came to rest, and by the time
        the device is idle that is past. */
    ghost predicate Valid(now: nat) reads this {
      && bufferInit == NextBoundary(arrived) && lastSector < NumSectors
      && (if active then bufferInit <= due else bufferInit <= now)
    }

    constructor ()
      ensures forall now: nat :: Valid(now)
      ensures !active && lastSector == 0 && bufferInit == 0 && arrived == 0
    {
      active, lastSector, bufferInit := false, 0, 0;
      due, arrived := 0, 0;
    }

    method TimeToSeek(newSector: nat, now: nat) returns (seek: nat, rotation: nat)
      ensures seek == Seek(lastSector, newSector)
      ensures now + seek + rotation == NextBoundary(now + seek)
    {
      var newTrack := newSector / 32;
      var oldTrack := lastSector / 32;
      seek := Abs(newTrack - oldTrack) * 500;
      var over := (now + seek) % 500;
      rotation := 0;
      if over > 0 {
        rotation := 500 - over;
      }
    }

    method ModuloDiff(to: nat, from: nat) returns (d: nat)
      ensures d == Turn(to, from)
    {
      var toOffset := to % 32;
      var fromOffset := from % 32;
      d := ((toOffset - fromOffset) + 32) % 32;
      OffsetsSuffice(to, from);
    }

    /** A request from an idle device. A read on the same track is served from the track buffer exactly
        when the whole sector has gone by since the head came to rest there, up to the boundary now
        approached. Otherwise the request ends at the first boundary, after the seek, at which the head
        has just swept the sector. */
    method ComputeLatency(newSector: nat, writing: bool, now: nat) returns (ticks: nat)
      requires Valid(now) && !active && newSector < NumSectors
      ensures Served(newSector, writing, now, lastSector, arrived, ticks)
      ensures 500 <= ticks <= 31 * 500 + 499 + 32 * 500
    {
      hide Seek, PassesBetween, Turn, JustSwept;
      var seek, rotation := TimeToSeek(newSector, now);
      var timeAfter := now + seek + rotation;
      SeekBound(lastSector, newSector);
      SeekMoves(lastSector, newSector);
      var diff := ModuloDiff(newSector, bufferInit / 500);
      if !writing && seek == 0 {
        EnoughHavePassed(newSector, bufferInit, timeAfter);
        BeforeItFilled(newSector, arrived, timeAfter);
        if (timeAfter - bufferInit) / 500 > diff {
          return 500;
        }
      }
      diff := ModuloDiff(newSector, timeAfter / 500);
      rotation := rotation + diff * 500;
      ticks := seek + rotation + 500;
      forall t | JustSwept(newSector, t) && now + seek <= t - 500 ensures now + ticks <= t {
        FirstSweep(newSector, timeAfter, t);
        NotBeforeBoundary(now + seek, t - 500, newSector, t);
      }
      FirstSweep(newSector, timeAfter, 0);
    }

    method UpdateLast(newSector: nat, now: nat)
      requires newSector < NumSectors
      modifies `bufferInit, `lastSector
      ensures lastSector == newSector
      ensures bufferInit == if Seek(old(lastSector), newSector) == 0 then old(bufferInit)
        else NextBoundary(now + Seek(old(lastSector), newSector))
    {
      var seek, rotate := TimeToSeek(newSector, now);
      if seek != 0 {
        bufferInit := now + seek + rotate;
      }
      lastSector := newSector;
    }

    /** ReadRequest and WriteRequest, but for the bytes: the result is the delay given to Schedule. */
    method Request(sectorNumber: nat, writing: bool, now: nat) returns (ticks: nat)
      requires Valid(now) && !active && sectorNumber < NumSectors
      modifies this
      ensures active && Valid(now) && lastSector == sectorNumber && due == now + ticks
      ensures 500 <= ticks <= 31 * 500 + 499 + 32 * 500
      ensures Served(sectorNumber, writing, now, old(lastSector), old(arrived), ticks)
      ensures arrived == ArrivedAfter(old(arrived), now, old(lastSector), sectorNumber)
      ensures SameTrack(old(lastSector), sectorNumber) ==> bufferInit == old(bufferInit)
      ensures !SameTrack(old(lastSector), sectorNumber) ==>
        Boundary(bufferInit) && arrived <= bufferInit < arrived + 500
    {
      hide PassesBetween, JustSwept;
      SeekMoves(lastSector, sectorNumber);
      ticks := ComputeLatency(sectorNumber, writing, now);
      due, arrived := now + ticks, ArrivedAfter(arrived, now, lastSector, sectorNumber);
      active := true;
      UpdateLast(sectorNumber, now);
    }

    /** The interrupt that ends the request comes no earlier than it was scheduled. */
    method HandleInterrupt(now: nat)
      requires active && Valid(now) && due <= now
      modifies `active
      ensures !active && Valid(now)
    {
      active := false;
    }
  }

  lemma OffsetsSuffice(to: nat, from: nat)
    ensures ((to % 32 - from % 32) + 32) % 32 == (to - from) % 32
  {
  }

  lemma SeekBound(from: nat, to: nat)
    requires from < NumSectors && to < NumSectors
    ensures Seek(from, to) <= 31 * 500
  {
  }

  lemma SeekMoves(from: nat, to: nat)
    ensures Seek(from, to) == 0 <==> SameTrack(from, to)
  {
  }

  /** A sector that passes whole begins to pass at a boundary. */
  lemma BeforeItFilled(s: nat, arrived: nat, after: int)
    ensures PassesBetween(s, arrived, after) <==> PassesBetween(s, NextBoundary(arrived), after)
  {
    if PassesBetween(s, arrived, after) {
      var t :| JustSwept(s, t) && arrived <= t - 500 && t <= after;
      NotBeforeBoundary(arrived, t - 500, s, t);
    }
    if PassesBetween(s, NextBoundary(arrived), after) {
      var t :| JustSwept(s, t) && NextBoundary(arrived) <= t - 500 && t <= after;
      assert arrived <= t - 500;
    }
  }

  lemma NotBeforeBoundary(t: int, b: int, s: nat, c: int)
    requires t <= b && JustSwept(s, c) && c == b + 500
    ensures NextBoundary(t) <= b
  {
  }

  // ---------------------------------------------------------------- runs

  /** A run of the device: the clock never goes back, requests come while it is idle, and interrupts
      when they are due. */
  datatype Event = Ask(sector: nat, writing: bool, wait: nat) | Done(late: nat)

  /** The requests among the events that find the device idle, in turn, with the time each of them lets pass. */
  function Accepted(events: seq<Event>): (r: (seq<(nat, bool, nat)>, bool))
    ensures r.1 ==> r.0 != []
  {
    if events == [] then ([], false)
    else
      var (before, active) := Accepted(events[..|events| - 1]);
      match events[|events| - 1]
      case Ask(sector, writing, wait) =>
        if active || sector >= NumSectors then (before, active) else (before + [(sector, writing, wait)], true)
      case Done(_) => (before, false)
  }

  /** What a run leaves on record of a request. */
  datatype Record = Record(sector: nat, writing: bool, wait: nat, now: nat, ticks: nat)

  /** The sector the head stood at before request k. */
  function SectorBefore(log: seq<Record>, k: nat): nat
    requires k <= |log|
  {
    if k == 0 then 0 else log[k - 1].sector
  }

  /** When the head came to rest on the track where it stood before request k, told from the record
      alone: at the end of the last seek. */
  function ArrivedBefore(log: seq<Record>, k: nat): nat
    requires k <= |log|
  {
    if k == 0 then 0
    else
      ArrivedAfter(ArrivedBefore(log, k - 1), log[k - 1].now, SectorBefore(log, k - 1), log[k - 1].sector)
  }

  /** Request k of the record took the time its disk needed, and began with the one before it done. */
  ghost predicate Lawful(log: seq<Record>, k: nat)
    requires k < |log|
  {
    var r := log[k];
    && Served(r.sector, r.writing, r.now, SectorBefore(log, k), ArrivedBefore(log, k), r.ticks)
    && 500 <= r.ticks <= 31 * 500 + 499 + 32 * 500
    && (if k == 0 then 0 else log[k - 1].now + log[k - 1].ticks) + r.wait <= r.now
  }

  lemma {:induction false} ArrivedBeforePrefix(log: seq<Record>, more: seq<Record>, k: nat)
    requires k <= |log|
    ensures ArrivedBefore(log + more, k) == ArrivedBefore(log, k)
  {
    if k > 0 {
      ArrivedBeforePrefix(log, more, k - 1);
    }
  }

  /** A record that is lawful so far stays so as it grows. */
  lemma LawfulGrows(log: seq<Record>, r: Record)
    requires forall k :: 0 <= k < |log| ==> Lawful(log, k)
    requires Lawful(log + [r], |log|)
    ensures forall k :: 0 <= k < |log + [r]| ==> Lawful(log + [r], k)
  {
    hide Served, ArrivedBefore, ArrivedAfter;
    forall k | 0 <= k < |log| ensures Lawful(log + [r], k) {
      ArrivedBeforePrefix(log, [r], k);
      assert Lawful(log, k) && (log + [r])[k] == log[k] && SectorBefore(log + [r], k) == SectorBefore(log, k);
    }
  }

  lemma {:induction false} AtRestBefore(log: seq<Record>, k: nat)
    requires k < |log| && forall j :: 0 <= j <= k ==> Lawful(log, j)
    ensures ArrivedBefore(log, k) <= log[k].now
  {
    if k > 0 {
      AtRestBefore(log, k - 1);
      assert Lawful(log, k - 1) && Lawful(log, k);
      SeekMoves(SectorBefore(log, k - 1), log[k - 1].sector);
    }
  }

  /** No request is done before its sector has passed whole under the head since the head came to rest on
      the sector's track: a write since it was asked for, a read perhaps before, but never before the last
      seek. */
  lemma NeverFromAnotherTrack(log: seq<Record>, k: nat)
    requires k < |log| && forall j :: 0 <= j <= k ==> Lawful(log, j)
    ensures PassesBetween(log[k].sector, ArrivedBefore(log, k + 1), log[k].now + log[k].ticks)
    ensures log[k].writing ==> PassesBetween(log[k].sector, log[k].now, log[k].now + log[k].ticks)
  {
    hide ArrivedBefore, Seek, NextBoundary, JustSwept;
    AtRestBefore(log, k);
    ArrivedNext(log, k);
    assert Lawful(log, k);
    var r, last, arrived := log[k], SectorBefore(log, k), ArrivedBefore(log, k);
    SeekMoves(last, r.sector);
    if !r.writing && SameTrack(last, r.sector) && PassesBetween(r.sector, arrived, NextBoundary(r.now)) {
      var t :| JustSwept(r.sector, t) && arrived <= t - 500 && t <= NextBoundary(r.now);
      assert t <= r.now + r.ticks;
    } else {
      assert JustSwept(r.sector, r.now + r.ticks);
    }
  }

  lemma ArrivedNext(log: seq<Record>, k: nat)
    requires k < |log|
    ensures ArrivedBefore(log, k + 1)
      == ArrivedAfter(ArrivedBefore(log, k), log[k].now, SectorBefore(log, k), log[k].sector)
  {
  }

  /** Every run keeps a lawful record of exactly the requests the device accepted. */
  method Run(events: seq<Event>) returns (now: nat, delays: seq<nat>, log: seq<Record>)
    ensures |delays| == |log| && forall k :: 0 <= k < |log| ==> delays[k] == log[k].ticks
    ensures |log| == |Accepted(events).0|
    ensures forall k :: 0 <= k < |log| ==> (log[k].sector, log[k].writing, log[k].wait) == Accepted(events).0[k]
    ensures forall k :: 0 <= k < |log| ==> Lawful(log, k)
  {
    hide Served, ArrivedAfter;
    var d := new Disk();
    now, delays, log := 0, [], [];
    var due := 0;
    for i := 0 to |events|
      invariant fresh(d) && d.Valid(now) && (d.active ==> due == d.due)
      invariant |delays| == |log| && forall k :: 0 <= k < |log| ==> delays[k] == log[k].ticks
      invariant |log| == |Accepted(events[..i]).0| && d.active == Accepted(events[..i]).1
      invariant forall k :: 0 <= k < |log| ==>
        (log[k].sector, log[k].writing, log[k].wait) == Accepted(events[..i]).0[k]
      invariant d.lastSector == SectorBefore(log, |log|) && d.arrived == ArrivedBefore(log, |log|)
      invariant |log| > 0 ==> log[|log| - 1].now + log[|log| - 1].ticks == due
      invariant !d.active ==> due <= now
      invariant forall k :: 0 <= k < |log| ==> Lawful(log, k)
    {
      assert events[..i + 1][..i] == events[..i];
      match events[i] {
        case Ask(sector, writing, wait) =>
          if !d.active && sector < NumSectors {
            now := now + wait;
            var ticks := d.Request(sector, writing, now);
            due := now + ticks;
            var r := Record(sector, writing, wait, now, ticks);
            ArrivedBeforePrefix(log, [r], |log|);
            LawfulGrows(log, r);
            delays, log := delays + [ticks], log + [r];
          }
        case Done(late) =>
          if d.active {
            now := (if due > now then due else now) + late;
            d.HandleInterrupt(now);
          }
      }
    }
    assert events[..|events|] == events;
  }
}
