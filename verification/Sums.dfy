/** Sums of a measure over a sequence, with what changing one element does to them. */
module Sums {

  ghost function Sum<T>(f: T -> nat, q: seq<T>): nat {
    if q == [] then 0 else Sum(f, q[..|q| - 1]) + f(q[|q| - 1])
  }

  lemma Append<T>(f: T -> nat, q: seq<T>, x: T)
    ensures Sum(f, q + [x]) == Sum(f, q) + f(x)
  {
    assert (q + [x])[..|q|] == q;
  }

  lemma {:induction false} Update<T>(f: T -> nat, q: seq<T>, i: nat, x: T)
    requires i < |q|
    ensures Sum(f, q[i := x]) + f(q[i]) == Sum(f, q) + f(x)
  {
    var n := |q| - 1;
    if i == n {
      assert q[i := x][..n] == q[..n];
    } else {
      Update(f, q[..n], i, x);
      assert q[i := x][..n] == q[..n][i := x];
    }
  }

  lemma {:induction false} AtLeast<T>(f: T -> nat, q: seq<T>, i: nat)
    requires i < |q|
    ensures f(q[i]) <= Sum(f, q)
  {
    if i >= |q| - 1 {
    } else {
      AtLeast(f, q[..|q| - 1], i);
    }
  }

  lemma {:induction false} AtLeastTwo<T>(f: T -> nat, q: seq<T>, i: nat, j: nat)
    requires i < j < |q|
    ensures f(q[i]) + f(q[j]) <= Sum(f, q)
  {
    var n := |q| - 1;
    if j == n {
      AtLeast(f, q[..n], i);
    } else {
      AtLeastTwo(f, q[..n], i, j);
    }
  }

  lemma {:induction false} Witness<T>(f: T -> nat, q: seq<T>) returns (i: nat)
    requires Sum(f, q) > 0
    ensures i < |q| && f(q[i]) > 0
  {
    var n := |q| - 1;
    if f(q[n]) > 0 {
      i := n;
    } else {
      i := Witness(f, q[..n]);
    }
  }

  lemma {:induction false} Bounded<T>(f: T -> nat, q: seq<T>)
    requires forall x :: f(x) <= 1
    ensures Sum(f, q) <= |q|
  {
    if q == [] {
    } else {
      Bounded(f, q[..|q| - 1]);
    }
  }

  lemma {:induction false} AllZero<T>(f: T -> nat, q: seq<T>)
    requires forall i :: 0 <= i < |q| ==> f(q[i]) == 0
    ensures Sum(f, q) == 0
  {
    if q == [] {
    } else {
      AllZero(f, q[..|q| - 1]);
    }
  }
}
