/** Every walk with a prior has a fixed point: rounds keep straight lines straight, so it can be
    solved for slot by slot, and contraction rules out a slope that could not be solved. */
module PprFixedPoint {
  import opened PprSpec
  import opened Sums
  import opened PprReal
  import opened PprMass
  import opened PprConvergence

  // ----- rounds along a line

  function Scaled(t: real, a: seq<real>): (r: seq<real>)
    ensures |r| == |a|
  {
    seq(|a|, i requires 0 <= i < |a| => Prod(t, a[i]))
  }

  /** The point at `t` on the line through `u`, at 0, and `v`, at 1. */
  function Mix(t: real, u: seq<real>, v: seq<real>): (r: seq<real>)
    requires |u| == |v|
    ensures |r| == |u|
  {
    seq(|u|, i requires 0 <= i < |u| => u[i] + Prod(t, v[i] - u[i]))
  }

  lemma ProdNests(t: real, x: real, y: real)
    ensures Prod(Prod(t, x), y) == Prod(t, Prod(x, y))
  {
  }

  lemma {:induction false} PushScaled(evs: seq<Event<real>>, n: nat, t: real, c: seq<real>)
    requires EventsIn(evs, n) && |c| == n
    ensures Push(evs, n, Scaled(t, c)) == Scaled(t, Push(evs, n, c))
  {
    if evs == [] {
      assert Prod(t, 0.0) == 0.0;
    } else {
      var init, e := evs[..|evs| - 1], evs[|evs| - 1];
      PushScaled(init, n, t, c);
      ProdNests(t, c[e.source], e.w);
      ProdLaws(t, Push(init, n, c)[e.target], Prod(c[e.source], e.w));
      hide Prod;
      var l, r := Push(evs, n, Scaled(t, c)), Scaled(t, Push(evs, n, c));
      forall i | 0 <= i < n ensures l[i] == r[i] {
        assert Push(init, n, Scaled(t, c))[i] == Prod(t, Push(init, n, c)[i]);
      }
    }
  }

  lemma CoefsScaled(outW: seq<real>, t: real, v: seq<real>)
    requires |outW| == |v|
    ensures Coefs(outW, Scaled(t, v)) == Scaled(t, Coefs(outW, v))
  {
    forall j | 0 <= j < |v| ensures Coefs(outW, Scaled(t, v))[j] == Scaled(t, Coefs(outW, v))[j] {
      if outW[j] > 0.0 {
        QuotientScaled(t, v[j], outW[j]);
      }
    }
  }

  lemma QuotientScaled(t: real, a: real, o: real)
    requires o > 0.0
    ensures Prod(t, a) / o == Prod(t, a / o)
  {
  }

  lemma HandedScaled(w: Walk, t: real, v: seq<real>)
    requires w.Ok() && |v| == |w.p|
    ensures Handed(w, Scaled(t, v)) == Prod(t, Handed(w, v))
  {
    hide Sum, Out;
    var out := Out(w.evs, |v|);
    SumScale(t, DanglingPart(out, v), DanglingPart(out, Scaled(t, v)));
  }

  lemma LinScaled(w: Walk, t: real, v: seq<real>)
    requires w.Ok() && |v| == |w.p|
    ensures Lin(w, Scaled(t, v)) == Scaled(t, Lin(w, v))
  {
    hide Sum, Out, Push, Coefs, DanglingPart;
    var out := Out(w.evs, |v|);
    CoefsScaled(out, t, v);
    PushScaled(w.evs, |v|, t, Coefs(out, v));
    HandedScaled(w, t, v);
    var pushed, back := Push(w.evs, |v|, Coefs(out, v)), Handed(w, v);
    forall i | 0 <= i < |v| ensures Lin(w, Scaled(t, v))[i] == Scaled(t, Lin(w, v))[i] {
      ReceivedScaled(t, pushed[i], back, w.p[i]);
    }
  }

  lemma ReceivedScaled(t: real, pushed: real, back: real, p: real)
    ensures Received(Prod(t, pushed), Prod(t, back), p) == Prod(t, Received(pushed, back, p))
  {
  }

  lemma StepMixes(w: Walk, t: real, u: seq<real>, v: seq<real>)
    requires w.Ok() && |u| == |v| == |w.p|
    ensures Step(w, Mix(t, u, v)) == Mix(t, Step(w, u), Step(w, v))
  {
    var x := Mix(t, u, v);
    assert Minus(x, u) == Scaled(t, Minus(v, u));
    LinMinus(w, x, u);
    LinScaled(w, t, Minus(v, u));
    LinMinus(w, v, u);
    hide Lin, Prod;
    forall i | 0 <= i < |u| ensures Step(w, x)[i] == Mix(t, Step(w, u), Step(w, v))[i] {
      assert Minus(Lin(w, x), Lin(w, u))[i] == Prod(t, Minus(Lin(w, v), Lin(w, u))[i]);
      BlendMixes(w.d, w.p[i], t, Lin(w, u)[i], Lin(w, v)[i], Lin(w, x)[i]);
    }
  }

  lemma BlendMixes(d: real, p: real, t: real, a: real, b: real, l: real)
    requires l - a == Prod(t, b - a)
    ensures Blend(d, p, l) == Blend(d, p, a) + Prod(t, Blend(d, p, b) - Blend(d, p, a))
  {
    assert Blend(d, p, b) - Blend(d, p, a) == d * (b - a);
    assert Blend(d, p, l) - Blend(d, p, a) == d * (l - a);
  }

  // ----- solving slot by slot

  /** A round leaves the first `k` slots of `x` as they are. */
  ghost predicate FixedBelow(w: Walk, x: seq<real>, k: nat)
    requires w.Ok()
  {
    |x| == |w.p| && forall i :: 0 <= i < k && i < |x| ==> Step(w, x)[i] == x[i]
  }

  ghost predicate SameFrom(x: seq<real>, v: seq<real>, k: nat) {
    |x| == |v| && forall i :: k <= i < |x| ==> x[i] == v[i]
  }

  /** Whatever is asked of the later slots, the first `k` can be chosen so that a round leaves
      them as they are. */
  lemma {:induction false} SolveBelow(w: Walk, k: nat, v: seq<real>) returns (x: seq<real>)
    requires w.Ok() && w.Prior() && |v| == |w.p| && k <= |v|
    ensures FixedBelow(w, x, k) && SameFrom(x, v, k)
    decreases k
  {
    if k == 0 {
      x := v;
    } else {
      var u := SolveBelow(w, k - 1, v[k - 1 := 0.0]);
      var z := SolveBelow(w, k - 1, v[k - 1 := 1.0]);
      SlopeBelowOne(w, k, u, z);
      var a, b := Step(w, u)[k - 1], Step(w, z)[k - 1];
      var t := a / (1.0 - (b - a));
      x := Mix(t, u, z);
      StepMixes(w, t, u, z);
      hide Step, Prod;
      forall i | k - 1 <= i < |x| ensures x[i] == if i == k - 1 then t else v[i] {
        MixEnds(t, u[i], z[i]);
      }
      MixSolves(t, a, b);
    }
  }

  lemma MixEnds(t: real, u: real, z: real)
    ensures u == z ==> u + Prod(t, z - u) == u
    ensures u == 0.0 && z == 1.0 ==> u + Prod(t, z - u) == t
  {
  }

  lemma MixSolves(t: real, a: real, b: real)
    requires b - a < 1.0 && t == a / (1.0 - (b - a))
    ensures a + Prod(t, b - a) == t
  {
    assert t * (1.0 - (b - a)) == a;
  }

  /** Were the slope in the solved slot 1 or more, a round would not bring the two closer. */
  lemma SlopeBelowOne(w: Walk, k: nat, u: seq<real>, z: seq<real>)
    requires w.Ok() && w.Prior() && 0 < k <= |w.p|
    requires FixedBelow(w, u, k - 1) && FixedBelow(w, z, k - 1) && SameFrom(u, z, k)
    requires u[k - 1] == 0.0 && z[k - 1] == 1.0
    ensures Step(w, z)[k - 1] - Step(w, u)[k - 1] < 1.0
  {
    hide Step, Sum;
    var before, after := Minus(z, u), Minus(Step(w, z), Step(w, u));
    if Step(w, z)[k - 1] - Step(w, u)[k - 1] >= 1.0 {
      SumLe(AbsAll(before), AbsAll(after));
    }
    SumNonneg(AbsAll(before));
    assert AbsAll(before)[k - 1] == 1.0;
    Contraction(w, z, u);
    Shrinks(w.d, Norm(before), Norm(after));
  }

  lemma Shrinks(d: real, a: real, b: real)
    requires 0.0 < d < 1.0 && a > 0.0 && b <= d * a
    ensures b < a
  {
    assert (1.0 - d) * a > 0.0;
  }

  lemma FixedExists(w: Walk) returns (x: seq<real>)
    requires w.Ok() && w.Prior()
    ensures Fixed(w, x)
  {
    x := SolveBelow(w, |w.p|, w.p);
    assert Step(w, x) == x;
  }

  /** Rounds converge to the fixed point: each brings the vector closer by at least the damping. */
  lemma {:induction false} RoundsApproach(w: Walk, k: nat, x: seq<real>)
    requires w.Ok() && w.Prior() && Fixed(w, x)
    ensures Norm(Minus(After(w, k), x)) <= Prod(Pow(w.d, k), Norm(Minus(w.p, x)))
    decreases k
  {
    hide Norm, Step, Minus;
    if k == 0 {
    } else {
      RoundsApproach(w, k - 1, x);
      Contraction(w, After(w, k - 1), x);
      TimesAtMost(w.d, Norm(Minus(After(w, k - 1), x)), Prod(Pow(w.d, k - 1), Norm(Minus(w.p, x))));
      ProdNests(w.d, Pow(w.d, k - 1), Norm(Minus(w.p, x)));
    }
  }

  // ----- how near a stopped run is

  ghost predicate OnlyFixed(w: Walk, x: seq<real>)
    requires w.Ok()
  {
    Fixed(w, x) && forall y :: Fixed(w, y) ==> y == x
  }

  /** The vector after round `m` is within `d / (1 - d) * epsilon` of `x` and of every later one. */
  ghost predicate Near(w: Walk, m: nat, epsilon: real, x: seq<real>)
    requires w.Ok() && |x| == |w.p|
  {
    && Norm(Minus(After(w, m), x)) < Slack(w.d, epsilon)
    && forall k: nat :: k >= m ==> Norm(Minus(After(w, k), After(w, m))) < Slack(w.d, epsilon)
  }

  lemma OneFixed(w: Walk) returns (x: seq<real>)
    requires w.Ok() && w.Prior()
    ensures OnlyFixed(w, x) && |x| == |w.p|
  {
    x := FixedExists(w);
    forall y | Fixed(w, y) ensures y == x {
      FixedUnique(w, x, y);
    }
  }

  lemma NearWhenSmall(w: Walk, m: nat, epsilon: real, x: seq<real>)
    requires w.Ok() && w.Prior() && m > 0 && ChangeAt(w, m) < epsilon
    requires Fixed(w, x) && |x| == |w.p|
    ensures Near(w, m, epsilon, x)
  {
    hide After, Norm, Minus, Fixed, ChangeAt, Slack;
    SlackIncreases(w.d, ChangeAt(w, m), epsilon);
    NearFixed(w, m, x);
    forall k: nat | k >= m ensures Norm(Minus(After(w, k), After(w, m))) < Slack(w.d, epsilon) {
      NearLater(w, m, k - m);
    }
  }

  lemma StoppedAccuracy(w: Walk, epsilon: real, cap: nat, m: nat) returns (x: seq<real>)
    requires w.Ok() && w.Prior() && StopsAfter(w, epsilon, cap, m)
    ensures OnlyFixed(w, x) && |x| == |w.p|
    ensures m > 0 ==> Norm(Minus(After(w, m), x)) <= Slack(w.d, ChangeAt(w, m))
    ensures m > 0 && ChangeAt(w, m) < epsilon ==> Near(w, m, epsilon, x)
    ensures m < cap ==> m > 0 && ChangeAt(w, m) < epsilon
  {
    assert m < cap ==> m > 0 && ChangeAt(w, m) < epsilon;
    x := OneFixed(w);
    assert Fixed(w, x);
    hide *;
    if m > 0 {
      NearFixed(w, m, x);
      if ChangeAt(w, m) < epsilon {
        NearWhenSmall(w, m, epsilon, x);
      }
    }
  }
}
