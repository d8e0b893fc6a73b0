/** bitmap.cc: a bitmap packed into 32-bit words, and its reading as a sequence of booleans. */
module BitMaps {
  import opened Bytes

  const BitsInWord := 32

  function DivRoundUp(n: nat, s: nat): (q: nat)
    requires s > 0
  {
    n / s + if n % s > 0 then 1 else 0
  }

  /** The first n bits held by the words ws. */
  function BitsOf(ws: seq<Word>, n: nat): (b: seq<bool>)
    requires n <= |ws| * BitsInWord
    ensures |b| == n
  {
    seq(n, i requires 0 <= i < n => Bit(ws[i / BitsInWord], i % BitsInWord))
  }

  lemma BitsAfterUpdate(ws: seq<Word>, n: nat, which: nat)
    requires n <= |ws| * BitsInWord && which < n
    ensures BitsOf(ws[which / 32 := Or32(ws[which / 32], Shift1(which % 32))], n) == BitsOf(ws, n)[which := true]
    ensures BitsOf(ws[which / 32 := And32(ws[which / 32], Not32(Shift1(which % 32)))], n)
      == BitsOf(ws, n)[which := false]
  {
    var marked := BitsOf(ws[which / 32 := Or32(ws[which / 32], Shift1(which % 32))], n);
    var cleared := BitsOf(ws[which / 32 := And32(ws[which / 32], Not32(Shift1(which % 32)))], n);
    forall j | 0 <= j < n
      ensures marked[j] == BitsOf(ws, n)[which := true][j] && cleared[j] == BitsOf(ws, n)[which := false][j]
    {
      SetClearBit(ws[which / 32], which % 32, j % 32);
    }
  }

  /** Index of the first clear bit, or |bits| when all are set. */
  function FirstClear(bits: seq<bool>): (i: nat)
    ensures i <= |bits|
    ensures forall j :: 0 <= j < i ==> bits[j]
    ensures i < |bits| ==> !bits[i]
  {
    if bits == [] || !bits[0] then 0 else 1 + FirstClear(bits[1..])
  }

  lemma FirstClearUnique(bits: seq<bool>, i: nat)
    requires i <= |bits|
    requires forall j :: 0 <= j < i ==> bits[j]
    requires i < |bits| ==> !bits[i]
    ensures FirstClear(bits) == i
  {
  }

  function CountClear(bits: seq<bool>): (c: nat)
    ensures c <= |bits|
  {
    if bits == [] then 0 else CountClear(bits[..|bits| - 1]) + if bits[|bits| - 1] then 0 else 1
  }

  lemma CountClearUpdate(bits: seq<bool>, i: nat, v: bool)
    requires i < |bits|
    ensures CountClear(bits[i := v]) == CountClear(bits) + (if bits[i] then 1 else 0) - (if v then 1 else 0)
  {
    var n := |bits| - 1;
    if i < n {
      assert bits[i := v][..n] == bits[..n][i := v];
      CountClearUpdate(bits[..n], i, v);
    } else {
      assert bits[i := v][..n] == bits[..n];
    }
  }

  lemma {:induction false} CountClearNone(bits: seq<bool>)
    requires forall j :: 0 <= j < |bits| ==> bits[j]
    ensures CountClear(bits) == 0
  {
    if bits != [] { CountClearNone(bits[..|bits| - 1]); }
  }

  lemma CountClearPositive(bits: seq<bool>)
    ensures CountClear(bits) > 0 <==> FirstClear(bits) < |bits|
  {
    var i := FirstClear(bits);
    if i < |bits| {
      CountClearUpdate(bits, i, true);
    } else {
      CountClearNone(bits);
    }
  }

  /** n successive Find calls: the bits they return, in order, and the bitmap they leave. */
  function Take(bits: seq<bool>, n: nat): (r: (seq<int>, seq<bool>))
    requires n <= CountClear(bits)
    ensures |r.0| == n && |r.1| == |bits|
    ensures CountClear(r.1) == CountClear(bits) - n
    decreases n
  {
    if n == 0 then ([], bits)
    else
      var t := Take(bits, n - 1);
      var i := FirstClear(t.1);
      CountClearPositive(t.1);
      CountClearUpdate(t.1, i, true);
      (t.0 + [i], t.1[i := true])
  }

  lemma TakeNext(bits: seq<bool>, n: nat)
    requires n + 1 <= CountClear(bits)
    ensures var t := Take(bits, n);
      FirstClear(t.1) < |bits| && Take(bits, n + 1) == (t.0 + [FirstClear(t.1)], t.1[FirstClear(t.1) := true])
  {
    CountClearPositive(Take(bits, n).1);
  }

  predicate NoDup<T(==)>(s: seq<T>) {
    forall i, j :: 0 <= i < j < |s| ==> s[i] != s[j]
  }

  predicate AllIn(s: seq<int>, n: nat) {
    forall i :: 0 <= i < |s| ==> 0 <= s[i] < n
  }

  /** Take hands out distinct clear bits and sets exactly those. */
  lemma {:induction false} TakeMarks(bits: seq<bool>, n: nat)
    requires n <= CountClear(bits)
    ensures NoDup(Take(bits, n).0)
    ensures forall s :: s in Take(bits, n).0 ==> 0 <= s < |bits| && !bits[s]
    ensures forall k :: 0 <= k < |bits| ==> Take(bits, n).1[k] == (bits[k] || k in Take(bits, n).0)
    decreases n
  {
    if n > 0 {
      TakeMarks(bits, n - 1);
      var t := Take(bits, n - 1);
      CountClearPositive(t.1);
      assert FirstClear(t.1) !in t.0;
    }
  }

  class BitMap {
    const numBits: nat
    const numWords: nat
    const map_: array<Word>

    ghost predicate Valid() reads this {
      numWords == DivRoundUp(numBits, BitsInWord) && map_.Length == numWords
    }

    ghost function Bits(): (b: seq<bool>)
      requires Valid()
      reads this, map_
      ensures |b| == numBits
    {
      BitsOf(map_[..], numBits)
    }

    constructor (nitems: nat)
      ensures Valid() && fresh(map_) && numBits == nitems
      ensures forall i :: 0 <= i < nitems ==> !Bits()[i]
    {
      numBits := nitems;
      numWords := DivRoundUp(nitems, BitsInWord);
      map_ := new Word[DivRoundUp(nitems, BitsInWord)];
      new;
      for i := 0 to numBits
        invariant Valid()
        invariant forall j :: 0 <= j < i ==> !Bits()[j]
      {
        Clear(i);
      }
    }

    method Mark(which: int)
      requires Valid() && 0 <= which < numBits
      modifies map_
      ensures Bits() == old(Bits())[which := true]
    {
      BitsAfterUpdate(map_[..], numBits, which);
      map_[which / BitsInWord] := Or32(map_[which / BitsInWord], Shift1(which % BitsInWord));
      assert map_[..] == old(map_[..])[which / 32 := Or32(old(map_[..])[which / 32], Shift1(which % 32))];
    }

    method Clear(which: int)
      requires Valid() && 0 <= which < numBits
      modifies map_
      ensures Bits() == old(Bits())[which := false]
    {
      BitsAfterUpdate(map_[..], numBits, which);
      map_[which / BitsInWord] := And32(map_[which / BitsInWord], Not32(Shift1(which % BitsInWord)));
      assert map_[..] == old(map_[..])[which / 32 := And32(old(map_[..])[which / 32], Not32(Shift1(which % 32)))];
    }

    method Test(which: int) returns (r: bool)
      requires Valid() && 0 <= which < numBits
      ensures r == Bits()[which]
    {
      MaskTestsBit(map_[which / BitsInWord], which % BitsInWord);
      if And32(map_[which / BitsInWord], Shift1(which % BitsInWord)) != 0 {
        return true;
      } else {
        return false;
      }
    }

    method Find() returns (r: int)
      requires Valid()
      modifies map_
      ensures r == if FirstClear(old(Bits())) < numBits then FirstClear(old(Bits())) else -1
      ensures Bits() == if r == -1 then old(Bits()) else old(Bits())[r := true]
    {
      for i := 0 to numBits
        invariant Bits() == old(Bits())
        invariant forall j :: 0 <= j < i ==> Bits()[j]
      {
        var isSet := Test(i);
        if !isSet {
          FirstClearUnique(Bits(), i);
          Mark(i);
          return i;
        }
      }
      FirstClearUnique(Bits(), numBits);
      return -1;
    }

    method NumClear() returns (count: nat)
      requires Valid()
      ensures count == CountClear(Bits())
    {
      count := 0;
      for i := 0 to numBits
        invariant count == CountClear(Bits()[..i])
      {
        var isSet := Test(i);
        assert Bits()[..i + 1][..i] == Bits()[..i];
        if !isSet { count := count + 1; }
      }
      assert Bits()[..numBits] == Bits();
    }
  }
}
