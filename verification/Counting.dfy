/** How many elements of a sequence satisfy a condition. */
module Counting {
  function Count<T>(xs: seq<T>, p: T -> bool): (c: nat)
    ensures c <= |xs|
  {
    if xs == [] then 0 else Count(xs[..|xs| - 1], p) + if p(xs[|xs| - 1]) then 1 else 0
  }

  function One(b: bool): nat {
    if b then 1 else 0
  }

  lemma {:induction false} CountUpdate<T>(xs: seq<T>, i: nat, x: T, p: T -> bool)
    requires i < |xs|
    ensures Count(xs[i := x], p) == Count(xs, p) - (if p(xs[i]) then 1 else 0) + (if p(x) then 1 else 0)
  {
    var n := |xs| - 1;
    if i < n {
      assert xs[i := x][..n] == xs[..n][i := x] && xs[i := x][n] == xs[n];
      CountUpdate(xs[..n], i, x, p);
    } else {
      assert xs[i := x][..n] == xs[..n];
    }
  }

  /** A count is zero when nobody qualifies, and full when everybody does. */
  lemma {:induction false} CountExtremes<T>(xs: seq<T>, p: T -> bool)
    ensures Count(xs, p) == 0 <==> forall i :: 0 <= i < |xs| ==> !p(xs[i])
    ensures Count(xs, p) == |xs| <==> forall i :: 0 <= i < |xs| ==> p(xs[i])
  {
    if xs != [] {
      var n := |xs| - 1;
      CountExtremes(xs[..n], p);
      assert forall i :: 0 <= i < n ==> xs[..n][i] == xs[i];
    }
  }

  /** Two that qualify make a count of two. */
  lemma {:induction false} CountTwo<T>(xs: seq<T>, i: nat, k: nat, p: T -> bool)
    requires i < |xs| && k < |xs| && i != k
    ensures p(xs[i]) ==> Count(xs, p) >= 1
    ensures p(xs[i]) && p(xs[k]) ==> Count(xs, p) >= 2
  {
    var n := |xs| - 1;
    CountExtremes(xs, p);
    CountExtremes(xs[..n], p);
    if i < n && k < n {
      CountTwo(xs[..n], i, k, p);
    } else {
      assert xs[..n][if i < n then i else k] == xs[if i < n then i else k];
    }
  }
}
