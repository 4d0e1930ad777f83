/** Sums of lists of reals. */
module Sums {
  import opened Numbers

  function Sum(a: seq<real>): real {
    if a == [] then 0.0 else Sum(a[..|a| - 1]) + a[|a| - 1]
  }

  lemma {:induction false} SumAppend(a: seq<real>, b: seq<real>)
    ensures Sum(a + b) == Sum(a) + Sum(b)
  {
    if b == [] {
      assert a + b == a;
    } else {
      SumAppend(a, b[..|b| - 1]);
      assert (a + b)[..|a + b| - 1] == a + b[..|b| - 1];
    }
  }

  lemma {:induction false} SumAdd(a: seq<real>, b: seq<real>, c: seq<real>)
    requires |a| == |b| == |c| && forall i :: 0 <= i < |a| ==> c[i] == a[i] + b[i]
    ensures Sum(c) == Sum(a) + Sum(b)
  {
    if a == [] {
    } else {
      SumAdd(a[..|a| - 1], b[..|a| - 1], c[..|a| - 1]);
    }
  }

  lemma {:induction false} SumScale(k: real, a: seq<real>, b: seq<real>)
    requires |a| == |b| && forall i :: 0 <= i < |a| ==> b[i] == k * a[i]
    ensures Sum(b) == k * Sum(a)
  {
    if a == [] {
    } else {
      SumScale(k, a[..|a| - 1], b[..|a| - 1]);
    }
  }

  lemma {:induction false} SumLe(a: seq<real>, b: seq<real>)
    requires |a| == |b| && forall i :: 0 <= i < |a| ==> a[i] <= b[i]
    ensures Sum(a) <= Sum(b)
  {
    if a == [] {
    } else {
      SumLe(a[..|a| - 1], b[..|a| - 1]);
    }
  }

  lemma {:induction false} SumNonneg(a: seq<real>)
    requires forall i :: 0 <= i < |a| ==> a[i] >= 0.0
    ensures Sum(a) >= 0.0
    ensures forall i :: 0 <= i < |a| ==> a[i] <= Sum(a)
  {
    if a == [] {
    } else {
      SumNonneg(a[..|a| - 1]);
      forall i | 0 <= i < |a| ensures a[i] <= Sum(a) {
        assert i < |a| - 1 ==> a[..|a| - 1][i] == a[i];
      }
    }
  }

  lemma {:induction false} SumUpdate(a: seq<real>, i: nat, x: real)
    requires i < |a|
    ensures Sum(a[i := x]) == Sum(a) - a[i] + x
  {
    var b := a[i := x];
    if i == |a| - 1 {
      assert b[..|a| - 1] == a[..|a| - 1];
    } else {
      SumUpdate(a[..|a| - 1], i, x);
      assert b[..|a| - 1] == a[..|a| - 1][i := x];
    }
  }

  lemma {:induction false} SumZero(a: seq<real>)
    requires forall i :: 0 <= i < |a| ==> a[i] == 0.0
    ensures Sum(a) == 0.0
  {
    if a == [] {
    } else {
      SumZero(a[..|a| - 1]);
    }
  }

  /** A product under a name, so that sums of products can be reasoned about as sums. */
  function Prod(x: real, y: real): real {
    x * y
  }

  lemma ProdLaws(x: real, y: real, z: real)
    ensures Prod(x, y + z) == Prod(x, y) + Prod(x, z)
    ensures Prod(x - y, z) == Prod(x, z) - Prod(y, z)
    ensures x >= 0.0 && y >= 0.0 ==> Prod(x, y) >= 0.0
    ensures x > 0.0 && y > 0.0 ==> Prod(x, y) > 0.0
    ensures y >= 0.0 ==> Abs(Prod(x, y)) == Prod(Abs(x), y)
    ensures Prod(0.0, y) == 0.0
  {
    if y >= 0.0 {
      if x < 0.0 {
        assert x * y <= 0.0;
        assert -(x * y) == (-x) * y;
      } else {
        assert x * y >= 0.0;
      }
    }
  }

  function AbsAll(a: seq<real>): (r: seq<real>) {
    seq(|a|, i requires 0 <= i < |a| => Abs(a[i]))
  }

  function Minus(a: seq<real>, b: seq<real>): (r: seq<real>)
    requires |a| == |b|
  {
    seq(|a|, i requires 0 <= i < |a| => a[i] - b[i])
  }

  /** The L1 norm. */
  function Norm(a: seq<real>): real {
    Sum(AbsAll(a))
  }

  lemma NormLaws(a: seq<real>)
    ensures Norm(a) >= 0.0
    ensures Norm(a) == 0.0 ==> forall i :: 0 <= i < |a| ==> a[i] == 0.0
    ensures (forall i :: 0 <= i < |a| ==> a[i] >= 0.0) ==> Norm(a) == Sum(a)
  {
    SumNonneg(AbsAll(a));
    forall i | 0 <= i < |a| ensures Abs(a[i]) <= Norm(a) {
      assert AbsAll(a)[i] == Abs(a[i]);
    }
    if forall i :: 0 <= i < |a| ==> a[i] >= 0.0 {
      assert AbsAll(a) == a;
    }
  }

  lemma NormSymmetric(a: seq<real>, b: seq<real>)
    requires |a| == |b|
    ensures Norm(Minus(a, b)) == Norm(Minus(b, a))
  {
    assert AbsAll(Minus(a, b)) == AbsAll(Minus(b, a));
  }

  lemma NormTriangle(a: seq<real>, b: seq<real>, c: seq<real>)
    requires |a| == |b| == |c|
    ensures Norm(Minus(a, c)) <= Norm(Minus(a, b)) + Norm(Minus(b, c))
  {
    var u, v := AbsAll(Minus(a, b)), AbsAll(Minus(b, c));
    var s := seq(|a|, i requires 0 <= i < |a| => u[i] + v[i]);
    SumAdd(u, v, s);
    SumLe(AbsAll(Minus(a, c)), s);
  }

  lemma {:induction false} FoldIsSum(A: Arith<real>, a: seq<real>)
    requires IsReal(A)
    ensures Fold(A, a) == Sum(a)
  {
    if a == [] {
    } else {
      FoldIsSum(A, a[..|a| - 1]);
    }
  }
}
