/** How fast the rounds settle, and how far a stopped run is from where they settle. */
module PprConvergence {
  import opened Numbers
  import opened Sums
  import opened PprReal
  import opened PprMass

  function Pow(d: real, k: nat): real {
    if k == 0 then 1.0 else d * Pow(d, k - 1)
  }

  /** The first change: at most twice the damping. */
  lemma FirstChange(w: Walk)
    requires w.Ok() && w.Prior()
    ensures ChangeAt(w, 1) <= 2.0 * w.d
  {
    hide Sum, Lin;
    LinNonneg(w, w.p);
    LinNorm(w, w.p);
    NormLaws(Lin(w, w.p));
    NormLaws(w.p);
    NormOfDifference(w.p, Lin(w, w.p));
    FirstStep(w);
    TimesAtMost(w.d, Norm(Minus(w.p, Lin(w, w.p))), 2.0);
  }

  lemma TimesAtMost(d: real, a: real, b: real)
    requires d > 0.0 && a <= b
    ensures d * a <= d * b
  {
  }

  lemma NormOfDifference(a: seq<real>, b: seq<real>)
    requires |a| == |b| && Nonneg(a) && Nonneg(b)
    ensures Norm(Minus(a, b)) <= Sum(a) + Sum(b)
  {
    hide Sum;
    var both := seq(|a|, i requires 0 <= i < |a| => a[i] + b[i]);
    SumAdd(a, b, both);
    SumLe(AbsAll(Minus(a, b)), both);
  }

  lemma FirstStep(w: Walk)
    requires w.Ok()
    ensures ChangeAt(w, 1) == w.d * Norm(Minus(w.p, Lin(w, w.p)))
  {
    hide Sum, Lin;
    var l := Lin(w, w.p);
    assert After(w, 0) == w.p;
    assert After(w, 1) == Step(w, w.p);
    forall i | 0 <= i < |l| ensures AbsAll(Minus(w.p, Step(w, w.p)))[i] == w.d * AbsAll(Minus(w.p, l))[i] {
      FirstChangeAt(w.d, w.p[i], l[i]);
    }
    SumScale(w.d, AbsAll(Minus(w.p, l)), AbsAll(Minus(w.p, Step(w, w.p))));
  }

  lemma FirstChangeAt(d: real, p: real, l: real)
    requires d > 0.0
    ensures Abs(p - ((1.0 - d) * p + d * l)) == d * Abs(p - l)
  {
    assert p - ((1.0 - d) * p + d * l) == d * (p - l);
    AbsTimes(p - l, d);
  }

  /** Round `k` changes the vector by at most `2 d^k`. */
  lemma {:induction false} ChangeShrinks(w: Walk, k: nat)
    requires w.Ok() && w.Prior() && k > 0
    ensures 0.0 <= ChangeAt(w, k) <= 2.0 * Pow(w.d, k)
  {
    hide Norm, Minus, Step;
    NormLaws(Minus(After(w, k - 1), After(w, k)));
    if k == 1 {
      FirstChange(w);
      assert Pow(w.d, 1) == w.d * Pow(w.d, 0) == w.d;
    } else {
      ChangeShrinks(w, k - 1);
      Contraction(w, After(w, k - 2), After(w, k - 1));
      assert After(w, k - 1) == Step(w, After(w, k - 2)) && After(w, k) == Step(w, After(w, k - 1));
      assert w.d * ChangeAt(w, k - 1) <= w.d * (2.0 * Pow(w.d, k - 1));
      assert w.d * (2.0 * Pow(w.d, k - 1)) == 2.0 * Pow(w.d, k);
    }
  }

  /** A run stops at the latest in the first round whose bound is below `epsilon`. */
  lemma StopsInTime(w: Walk, epsilon: real, cap: nat, m: nat, k: nat)
    requires w.Ok() && w.Prior() && StopsAfter(w, epsilon, cap, m)
    requires k > 0 && 2.0 * Pow(w.d, k) < epsilon
    ensures m <= k
  {
    hide ChangeAt;
    ChangeShrinks(w, k);
  }

  /** A round number that suffices for every graph: the damping is at most 0.99. */
  function EnoughRounds(epsilon: real): (k: nat)
    requires epsilon > 0.0
    ensures k > 0 && Prod(k as real, epsilon) > 198.0
  {
    DivNonneg(198.0, epsilon);
    FloorAbove(198.0, epsilon);
    (198.0 / epsilon).Floor + 1
  }

  lemma FloorAbove(a: real, o: real)
    requires a >= 0.0 && o > 0.0 && a / o >= 0.0
    ensures Prod(((a / o).Floor + 1) as real, o) > a
  {
    hide Prod;
    var q := a / o;
    TimesQuotient(a, o, (q.Floor + 1) as real);
  }

  lemma TimesQuotient(a: real, o: real, k: real)
    requires o > 0.0 && k > a / o
    ensures Prod(k, o) > a
  {
    assert a / o * o == a;
    assert (k - a / o) * o > 0.0;
  }

  lemma {:induction false} PowDecays(d: real, k: nat)
    requires 0.0 < d <= 0.99
    ensures 0.0 < Pow(d, k) && Prod(Pow(d, k), 99.0 + k as real) <= 99.0
  {
    if k == 0 {
    } else {
      PowDecays(d, k - 1);
      var x, t := Pow(d, k - 1), 99.0 + k as real;
      assert d * t <= t - 1.0 by {
        assert d * t <= 0.99 * t;
      }
      assert x * (d * t) <= x * (t - 1.0);
      assert t - 1.0 == 99.0 + (k - 1) as real;
      assert Pow(d, k) * t == x * (d * t);
    }
  }

  lemma EnoughRoundsSuffice(d: real, epsilon: real)
    requires 0.0 < d <= 0.99 && epsilon > 0.0
    ensures 2.0 * Pow(d, EnoughRounds(epsilon)) < epsilon
  {
    hide EnoughRounds, Pow, Prod;
    var k := EnoughRounds(epsilon);
    PowDecays(d, k);
    SmallEnough(Pow(d, k), k as real, epsilon);
  }

  lemma SmallEnough(x: real, k: real, epsilon: real)
    requires x > 0.0 && k > 0.0 && epsilon > 0.0 && Prod(x, 99.0 + k) <= 99.0 && Prod(k, epsilon) > 198.0
    ensures 2.0 * x < epsilon
  {
    assert x * (99.0 + k) == 99.0 * x + x * k;
    assert (2.0 * x - epsilon) * k == 2.0 * (x * k) - k * epsilon;
    assert 2.0 * x >= epsilon ==> (2.0 * x - epsilon) * k >= 0.0;
  }

  /** What bounds the rounds: the cap, the first round whose bound is below `epsilon`, and a
      positive `epsilon` alone. */
  ghost predicate RoundsBounded(d: real, epsilon: real, cap: nat, m: nat) {
    && m <= cap
    && (forall k: nat :: k > 0 && 2.0 * Pow(d, k) < epsilon ==> m <= k)
    && (epsilon > 0.0 ==> m <= EnoughRounds(epsilon))
  }

  lemma StoppedRounds(w: Walk, epsilon: real, cap: nat, m: nat)
    requires w.Ok() && w.Prior() && w.d <= 0.99 && StopsAfter(w, epsilon, cap, m)
    ensures RoundsBounded(w.d, epsilon, cap, m)
  {
    hide EnoughRounds, Pow, After;
    assert m <= cap;
    hide StopsAfter;
    forall k: nat | k > 0 && 2.0 * Pow(w.d, k) < epsilon ensures m <= k {
      StopsInTime(w, epsilon, cap, m, k);
    }
    if epsilon > 0.0 {
      EnoughRoundsSuffice(w.d, epsilon);
    }
  }

  // ----- where the rounds settle

  ghost predicate Fixed(w: Walk, x: seq<real>)
    requires w.Ok()
  {
    |x| == |w.p| && Step(w, x) == x
  }

  lemma FixedUnique(w: Walk, x: seq<real>, y: seq<real>)
    requires w.Ok() && w.Prior() && Fixed(w, x) && Fixed(w, y)
    ensures x == y
  {
    hide Norm, Step;
    Contraction(w, x, y);
    NormLaws(Minus(x, y));
    ShrinksToZero(w.d, Norm(Minus(x, y)), Norm(Minus(Step(w, x), Step(w, y))));
    forall i | 0 <= i < |x| ensures x[i] == y[i] {
      assert Minus(x, y)[i] == 0.0;
    }
  }

  lemma ShrinksToZero(d: real, a: real, b: real)
    requires 0.0 < d < 1.0 && 0.0 <= b <= d * a && a == b
    ensures a == 0.0
  {
    assert (1.0 - d) * a <= 0.0;
    assert a > 0.0 ==> (1.0 - d) * a > 0.0;
  }

  /** `d / (1 - d)` times `x`: what is left after a change of `x`, in all later rounds together. */
  function Slack(d: real, x: real): real
    requires 0.0 < d < 1.0
  {
    d / (1.0 - d) * x
  }

  lemma SlackIncreases(d: real, a: real, b: real)
    requires 0.0 < d < 1.0 && a < b
    ensures Slack(d, a) < Slack(d, b)
  {
    var r := d / (1.0 - d);
    DivNonneg(d, 1.0 - d);
    assert r * (b - a) > 0.0;
  }

  /** If `a <= d a + d b` then `a` is at most `d / (1 - d) * b`. */
  lemma Geometric(d: real, a: real, b: real)
    requires 0.0 < d < 1.0 && a <= d * a + d * b
    ensures a <= Slack(d, b)
  {
    var r := 1.0 - d;
    assert a * r <= d * b;
    assert d / r * b == d * b / r;
    assert d * b / r * r == d * b;
    if a > d * b / r {
      assert a * r > d * b / r * r;
    }
  }

  /** The vector after round `k` is within `d / (1 - d)` times that round's change of the fixed point. */
  lemma NearFixed(w: Walk, k: nat, x: seq<real>)
    requires w.Ok() && w.Prior() && k > 0 && Fixed(w, x)
    ensures Norm(Minus(After(w, k), x)) <= Slack(w.d, ChangeAt(w, k))
  {
    hide Norm, Step, Minus;
    var u, v := After(w, k - 1), After(w, k);
    assert v == Step(w, u);
    Contraction(w, u, x);
    NormTriangle(u, v, x);
    var a, b := Norm(Minus(v, x)), ChangeAt(w, k);
    assert w.d * Norm(Minus(u, x)) <= w.d * (b + a);
    Geometric(w.d, a, b);
  }

  /** Nor does any later round leave that distance: running on would change little. */
  lemma {:induction false} NearLater(w: Walk, k: nat, j: nat)
    requires w.Ok() && w.Prior() && k > 0
    ensures Norm(Minus(After(w, k + j), After(w, k))) <= Slack(w.d, ChangeAt(w, k))
    decreases j
  {
    hide Norm, Step, Minus;
    var v := After(w, k);
    var r := w.d / (1.0 - w.d);
    var b := ChangeAt(w, k);
    ChangeShrinks(w, k);
    if j == 0 {
      assert Norm(Minus(v, v)) == 0.0 by {
        SelfDistance(v);
      }
      DivNonneg(w.d, 1.0 - w.d);
      assert r * b >= 0.0;
    } else {
      var u, v' := After(w, k + j - 1), After(w, k + 1);
      NearLater(w, k, j - 1);
      assert After(w, k + j) == Step(w, u) && v' == Step(w, v);
      Contraction(w, u, v);
      Contraction(w, After(w, k - 1), v);
      NormTriangle(After(w, k + j), v', v);
      NormSymmetric(v', v);
      LaterArithmetic(w.d, r, b, Norm(Minus(u, v)), Norm(Minus(After(w, k + j), v')), Norm(Minus(v', v)));
    }
  }

  lemma SelfDistance(v: seq<real>)
    ensures Norm(Minus(v, v)) == 0.0
  {
    SumZero(AbsAll(Minus(v, v)));
  }

  lemma LaterArithmetic(d: real, r: real, b: real, x: real, y: real, z: real)
    requires 0.0 < d < 1.0 && r == d / (1.0 - d) && x <= r * b && y <= d * x && z <= d * b
    ensures y + z <= r * b
  {
    assert d * x <= d * (r * b);
    assert r * (1.0 - d) == d;
    assert d * (r * b) + d * b == r * b by {
      assert d * b == r * (1.0 - d) * b;
      assert r * (1.0 - d) * b == r * b - d * (r * b);
    }
  }
}
