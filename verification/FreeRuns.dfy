/** addrspace.cc: the runs of free frames, and when the block that BestFit takes is a best one. */
module FreeRuns {
  import opened AddrSpaces

  /** A run of free frames begins at q: the frame before it, if any, is busy. */
  predicate RunStart(bits: seq<bool>, q: nat) {
    q < |bits| && !bits[q] && (q > 0 ==> bits[q - 1])
  }

  /** The free frames from q on, up to the next busy one or the end. */
  function RunLen(bits: seq<bool>, q: nat): (l: nat)
    ensures q + l <= |bits| || l == 0
    ensures forall k :: q <= k < q + l ==> !bits[k]
    ensures q + l < |bits| ==> bits[q + l]
    decreases |bits| - q
  {
    if q < |bits| && !bits[q] then 1 + RunLen(bits, q + 1) else 0
  }

  /** A run long enough for a request of n frames. */
  predicate FittingRun(bits: seq<bool>, q: nat, n: nat) {
    RunStart(bits, q) && RunLen(bits, q) >= n
  }

  /** Best fit: the block is in a fitting run, and no fitting run is shorter. */
  ghost predicate InShortestFittingRun(bits: seq<bool>, s: int, n: nat) {
    exists q: nat :: FittingRun(bits, q, n) && q <= s && s + n <= q + RunLen(bits, q) &&
      forall r: nat :: FittingRun(bits, r, n) ==> RunLen(bits, q) <= RunLen(bits, r)
  }

  predicate FirstFitting(bits: seq<bool>, q: nat, n: nat) {
    FittingRun(bits, q, n) && forall r :: 0 <= r < q ==> !FittingRun(bits, r, n)
  }

  /** Every fitting run is at least as long as the first one. */
  ghost predicate FirstIsShortest(bits: seq<bool>, n: nat) {
    forall q: nat, r: nat :: FirstFitting(bits, q, n) && FittingRun(bits, r, n) ==>
      RunLen(bits, q) <= RunLen(bits, r)
  }

  /** A free block is inside the run that its first frame belongs to. */
  lemma {:induction false} BlockInRun(bits: seq<bool>, s: nat, n: nat)
    requires Free(bits, s, n)
    ensures RunLen(bits, s) >= n
    decreases n
  {
    if n > 0 {
      assert Free(bits, s + 1, n - 1);
      BlockInRun(bits, s + 1, n - 1);
    }
  }

  lemma RunIsFree(bits: seq<bool>, q: nat, n: nat)
    requires FittingRun(bits, q, n)
    ensures Free(bits, q, n)
  {
  }

  /** The lowest free block of the size begins the first fitting run. */
  lemma LowestBeginsRun(bits: seq<bool>, s: int, n: nat)
    requires n > 0 && Lowest(bits, s, n)
    ensures FirstFitting(bits, s, n)
  {
    BlockInRun(bits, s, n);
    if s > 0 && !bits[s - 1] { assert Free(bits, s - 1, n); }
    forall r | 0 <= r < s ensures !FittingRun(bits, r, n) {
      if FittingRun(bits, r, n) { RunIsFree(bits, r, n); }
    }
  }

  /** The frame at the start of a run is in no other run. */
  lemma OwnRun(bits: seq<bool>, q: nat, s: nat)
    requires RunStart(bits, s) && q <= s < q + RunLen(bits, q)
    ensures q == s
  {
  }

  /** BestFit finds a block in a shortest fitting run exactly when there is room, the last frame is
      free and no fitting run is shorter than the first one. */
  lemma BestFitIsBestWhen(bits: seq<bool>, n: nat, found: bool, start: int)
    requires |bits| == Frames && n > 0 && Chosen(1, bits, n, found, start)
    ensures found && InShortestFittingRun(bits, start, n)
      <==> HasRoom(bits, n) && !bits[Frames - 1] && FirstIsShortest(bits, n)
  {
    if found {
      LowestBeginsRun(bits, start, n);
      if InShortestFittingRun(bits, start, n) {
        var q: nat :| FittingRun(bits, q, n) && q <= start && start + n <= q + RunLen(bits, q) &&
          forall r: nat :: FittingRun(bits, r, n) ==> RunLen(bits, q) <= RunLen(bits, r);
        OwnRun(bits, q, start);
        OnlyFirst(bits, start, n);
      }
    }
  }

  lemma OnlyFirst(bits: seq<bool>, s: nat, n: nat)
    requires FirstFitting(bits, s, n)
    ensures forall q: nat :: FirstFitting(bits, q, n) ==> q == s
  {
    forall q: nat | FirstFitting(bits, q, n) ensures q == s {
      assert FittingRun(bits, q, n) && FittingRun(bits, s, n);
    }
  }

  /** Where it is not: for one frame BestFit takes one of the pair at 0 although frame 3 is on its own. */
  lemma BestFitIsNotBest(bits: seq<bool>, start: int)
    requires |bits| == Frames && !bits[0] && !bits[1] && bits[2] && !bits[3] && bits[4] && !bits[Frames - 1]
    ensures Chosen(1, bits, 1, true, start) ==> start == 0 && !InShortestFittingRun(bits, start, 1)
  {
    assert Free(bits, 0, 1);
    assert FittingRun(bits, 3, 1) && RunLen(bits, 3) == 1;
    assert FirstFitting(bits, 0, 1) && RunLen(bits, 0) == 1 + RunLen(bits, 1);
    assert !FirstIsShortest(bits, 1);
    if Chosen(1, bits, 1, true, start) {
      BestFitIsBestWhen(bits, 1, true, start);
    }
  }
}
