/** Mass and distance: a round neither makes score nor loses it, and brings any two vectors closer. */
module PprMass {
  import opened Numbers
  import opened PprSpec
  import opened Sums
  import opened PprReal

  function Times(a: seq<real>, b: seq<real>): (r: seq<real>)
    requires |a| == |b|
    ensures |r| == |a|
  {
    seq(|a|, i requires 0 <= i < |a| => Prod(a[i], b[i]))
  }

  // ----- mass

  /** Counted by target or by source, the same is sent: what arrives in all is each slot's
      coefficient times the weight leaving it. */
  lemma {:induction false} SentIsReceived(evs: seq<Event<real>>, n: nat, c: seq<real>)
    requires EventsIn(evs, n) && |c| == n
    ensures Sum(Push(evs, n, c)) == Sum(Times(c, Out(evs, n)))
  {
    if evs == [] {
      SumZero(Push(evs, n, c));
      SumZero(Times(c, Out(evs, n)));
    } else {
      var init, e := evs[..|evs| - 1], evs[|evs| - 1];
      SentIsReceived(init, n, c);
      SendOne(Push(init, n, c), Out(init, n), c, e.target, e.source, e.w);
    }
  }

  lemma SendOne(pushed: seq<real>, out: seq<real>, c: seq<real>, t: nat, s: nat, w: real)
    requires |pushed| == |out| == |c| && t < |c| && s < |c|
    requires Sum(pushed) == Sum(Times(c, out))
    ensures Sum(pushed[t := pushed[t] + Prod(c[s], w)]) == Sum(Times(c, out[s := out[s] + w]))
  {
    hide Sum, Prod;
    SumUpdate(pushed, t, pushed[t] + Prod(c[s], w));
    assert Times(c, out[s := out[s] + w]) == Times(c, out)[s := Prod(c[s], out[s] + w)];
    SumUpdate(Times(c, out), s, Prod(c[s], out[s] + w));
    ProdLaws(c[s], out[s], w);
  }

  lemma {:induction false} OutNonneg(evs: seq<Event<real>>, n: nat)
    requires EventsIn(evs, n) && Positive(evs)
    ensures Nonneg(Out(evs, n))
  {
    if evs == [] {
    } else {
      OutNonneg(evs[..|evs| - 1], n);
    }
  }

  /** A slot dangles exactly when no incidence leaves it. */
  lemma {:induction false} OutPositive(evs: seq<Event<real>>, n: nat, j: nat)
    requires EventsIn(evs, n) && Positive(evs) && j < n
    ensures Out(evs, n)[j] > 0.0 <==> exists k :: 0 <= k < |evs| && evs[k].source == j
  {
    if evs == [] {
    } else {
      var init, e := evs[..|evs| - 1], evs[|evs| - 1];
      OutPositive(init, n, j);
      OutNonneg(init, n);
      if e.source == j {
        assert evs[|evs| - 1].source == j;
      } else if exists k :: 0 <= k < |evs| && evs[k].source == j {
        var k :| 0 <= k < |evs| && evs[k].source == j;
        assert init[k].source == j;
      }
    }
  }

  lemma QuotientTimes(q: real, a: real, o: real)
    requires o > 0.0 && q == a / o
    ensures Prod(q, o) == a
  {
  }

  /** A score is either sent on whole or handed back whole. */
  lemma SplitMass(outW: seq<real>, v: seq<real>)
    requires |outW| == |v| && Nonneg(outW)
    ensures Sum(Times(Coefs(outW, v), outW)) + Sum(DanglingPart(outW, v)) == Sum(v)
  {
    hide Sum;
    forall j | 0 <= j < |v| ensures v[j] == Times(Coefs(outW, v), outW)[j] + DanglingPart(outW, v)[j] {
      SplitOne(outW, v, j);
    }
    SumAdd(Times(Coefs(outW, v), outW), DanglingPart(outW, v), v);
  }

  lemma SplitOne(outW: seq<real>, v: seq<real>, j: nat)
    requires |outW| == |v| && Nonneg(outW) && j < |v|
    ensures v[j] == Times(Coefs(outW, v), outW)[j] + DanglingPart(outW, v)[j]
  {
    var q, o := Coefs(outW, v)[j], outW[j];
    if o > 0.0 {
      QuotientTimes(q, v[j], o);
    }
  }

  function Handed(w: Walk, v: seq<real>): real
    requires w.Ok() && |v| == |w.p|
  {
    Sum(DanglingPart(Out(w.evs, |v|), v))
  }

  lemma LinMass(w: Walk, v: seq<real>)
    requires w.Ok() && |v| == |w.p|
    ensures Sum(Lin(w, v)) == Sum(v) - Handed(w, v) + Handed(w, v) * Sum(w.p)
  {
    hide Sum, Push, Out, Coefs, DanglingPart, Times;
    var n, out := |v|, Out(w.evs, |v|);
    OutNonneg(w.evs, n);
    var pushed := Push(w.evs, n, Coefs(out, v));
    SentIsReceived(w.evs, n, Coefs(out, v));
    SplitMass(out, v);
    var back := Handed(w, v);
    var backs := seq(n, i requires 0 <= i < n => back * w.p[i]);
    SumScale(back, w.p, backs);
    SumAdd(pushed, backs, Lin(w, v));
  }

  lemma StepMass(w: Walk, v: seq<real>)
    requires w.Ok() && |v| == |w.p|
    ensures Sum(Step(w, v)) == (1.0 - w.d) * Sum(w.p) + w.d * Sum(Lin(w, v))
  {
    hide Sum, Lin;
    var l := Lin(w, v);
    var a := seq(|v|, i requires 0 <= i < |v| => (1.0 - w.d) * w.p[i]);
    var b := seq(|v|, i requires 0 <= i < |v| => w.d * l[i]);
    SumScale(1.0 - w.d, w.p, a);
    SumScale(w.d, l, b);
    SumAdd(a, b, Step(w, v));
  }

  lemma CoefsNonneg(outW: seq<real>, v: seq<real>)
    requires |outW| == |v| && Nonneg(v)
    ensures Nonneg(Coefs(outW, v))
  {
    forall j | 0 <= j < |v| ensures Coefs(outW, v)[j] >= 0.0 {
      if outW[j] > 0.0 {
        DivNonneg(v[j], outW[j]);
      }
    }
  }

  lemma DivNonneg(a: real, o: real)
    requires a >= 0.0 && o > 0.0
    ensures a / o >= 0.0 && (a > 0.0 ==> a / o > 0.0)
  {
    assert a / o * o == a;
  }

  lemma {:induction false} PushNonneg(evs: seq<Event<real>>, n: nat, c: seq<real>)
    requires EventsIn(evs, n) && Positive(evs) && |c| == n && Nonneg(c)
    ensures Nonneg(Push(evs, n, c))
  {
    if evs == [] {
    } else {
      var e := evs[|evs| - 1];
      PushNonneg(evs[..|evs| - 1], n, c);
      ProdLaws(c[e.source], e.w, 0.0);
    }
  }

  lemma LinNonneg(w: Walk, v: seq<real>)
    requires w.Ok() && Nonneg(w.p) && |v| == |w.p| && Nonneg(v)
    ensures Nonneg(Lin(w, v)) && Handed(w, v) >= 0.0
  {
    hide Sum, Push, Out, Coefs;
    var out := Out(w.evs, |v|);
    CoefsNonneg(out, v);
    PushNonneg(w.evs, |v|, Coefs(out, v));
    SumNonneg(DanglingPart(out, v));
    var back := Handed(w, v);
    forall i | 0 <= i < |v| ensures Lin(w, v)[i] >= 0.0 {
      assert back * w.p[i] >= 0.0;
    }
  }

  lemma StepNonneg(w: Walk, v: seq<real>)
    requires w.Ok() && Nonneg(w.p) && |v| == |w.p| && Nonneg(v)
    ensures Nonneg(Step(w, v))
  {
    hide Lin;
    LinNonneg(w, v);
    forall i | 0 <= i < |v| ensures Step(w, v)[i] >= 0.0 {
      assert (1.0 - w.d) * w.p[i] >= 0.0;
      assert w.d * Lin(w, v)[i] >= 0.0;
    }
  }

  /** Every round keeps the scores nonnegative. Their sum stays on the side of 1 where the
      personalization starts it, no nearer to 1: a personalization of mass 1 keeps mass exactly 1. */
  lemma {:induction false} MassKept(w: Walk, k: nat)
    requires w.Ok() && Nonneg(w.p)
    ensures Nonneg(After(w, k))
    ensures Sum(w.p) <= 1.0 ==> Sum(After(w, k)) <= Sum(w.p)
    ensures Sum(w.p) >= 1.0 ==> Sum(After(w, k)) >= Sum(w.p)
  {
    hide Sum, Step, Lin, Handed;
    if k == 0 {
    } else {
      MassKept(w, k - 1);
      var v := After(w, k - 1);
      StepNonneg(w, v);
      LinNonneg(w, v);
      LinMass(w, v);
      StepMass(w, v);
      MassArithmetic(w.d, Sum(w.p), Sum(v), Handed(w, v), Sum(Lin(w, v)));
    }
  }

  lemma MassArithmetic(d: real, s: real, m: real, back: real, l: real)
    requires 0.0 < d < 1.0 && back >= 0.0 && l == m - back + back * s
    ensures s <= 1.0 && m <= s ==> (1.0 - d) * s + d * l <= s
    ensures s >= 1.0 && m >= s ==> (1.0 - d) * s + d * l >= s
  {
    assert l - m == back * (s - 1.0);
    if s <= 1.0 && m <= s {
      assert back * (s - 1.0) <= 0.0;
      assert d * l <= d * s;
    }
    if s >= 1.0 && m >= s {
      assert back * (s - 1.0) >= 0.0;
      assert d * l >= d * s;
    }
  }

  /** Mass 1 is kept whatever the signs of the weights. */
  lemma {:induction false} UnitMassKept(w: Walk, k: nat)
    requires w.Ok() && Sum(w.p) == 1.0
    ensures Sum(After(w, k)) == 1.0
  {
    hide Sum, Step, Lin, Handed;
    if k == 0 {
    } else {
      UnitMassKept(w, k - 1);
      LinMass(w, After(w, k - 1));
      StepMass(w, After(w, k - 1));
    }
  }

  // ----- distance

  lemma {:induction false} PushMinus(evs: seq<Event<real>>, n: nat, a: seq<real>, b: seq<real>)
    requires EventsIn(evs, n) && |a| == |b| == n
    ensures Push(evs, n, Minus(a, b)) == Minus(Push(evs, n, a), Push(evs, n, b))
  {
    if evs == [] {
    } else {
      var init, e := evs[..|evs| - 1], evs[|evs| - 1];
      PushMinus(init, n, a, b);
      hide Prod;
      ProdLaws(a[e.source], b[e.source], e.w);
      var l, r := Push(evs, n, Minus(a, b)), Minus(Push(evs, n, a), Push(evs, n, b));
      forall i | 0 <= i < n ensures l[i] == r[i] {
        assert Push(init, n, Minus(a, b))[i] == Push(init, n, a)[i] - Push(init, n, b)[i];
      }
    }
  }

  lemma CoefsMinus(outW: seq<real>, a: seq<real>, b: seq<real>)
    requires |a| == |b| == |outW|
    ensures Coefs(outW, Minus(a, b)) == Minus(Coefs(outW, a), Coefs(outW, b))
  {
    forall j | 0 <= j < |a| && outW[j] > 0.0 ensures (a[j] - b[j]) / outW[j] == a[j] / outW[j] - b[j] / outW[j] {
    }
  }

  lemma HandedMinus(w: Walk, a: seq<real>, b: seq<real>)
    requires w.Ok() && |a| == |b| == |w.p|
    ensures Handed(w, Minus(a, b)) == Handed(w, a) - Handed(w, b)
  {
    hide Sum, Out;
    var out := Out(w.evs, |a|);
    SumAdd(DanglingPart(out, Minus(a, b)), DanglingPart(out, b), DanglingPart(out, a));
  }

  lemma LinMinus(w: Walk, a: seq<real>, b: seq<real>)
    requires w.Ok() && |a| == |b| == |w.p|
    ensures Lin(w, Minus(a, b)) == Minus(Lin(w, a), Lin(w, b))
  {
    hide Sum, Out, Push, Coefs, DanglingPart;
    var out := Out(w.evs, |a|);
    CoefsMinus(out, a, b);
    PushMinus(w.evs, |a|, Coefs(out, a), Coefs(out, b));
    HandedMinus(w, a, b);
    var x, y := Handed(w, a), Handed(w, b);
    forall i | 0 <= i < |a| ensures Lin(w, Minus(a, b))[i] == Minus(Lin(w, a), Lin(w, b))[i] {
      assert (x - y) * w.p[i] == x * w.p[i] - y * w.p[i];
    }
  }

  lemma {:induction false} PushAbs(evs: seq<Event<real>>, n: nat, c: seq<real>)
    requires EventsIn(evs, n) && Positive(evs) && |c| == n
    ensures forall i :: 0 <= i < n ==> Abs(Push(evs, n, c)[i]) <= Push(evs, n, AbsAll(c))[i]
  {
    if evs == [] {
    } else {
      var init, e := evs[..|evs| - 1], evs[|evs| - 1];
      PushAbs(init, n, c);
      hide Prod;
      ProdLaws(c[e.source], e.w, 0.0);
    }
  }

  lemma AbsTimes(x: real, y: real)
    ensures y >= 0.0 ==> Abs(x * y) == Abs(x) * y && Abs(y * x) == y * Abs(x)
  {
    if y >= 0.0 && x < 0.0 {
      assert x * y <= 0.0;
      assert -(x * y) == (-x) * y;
    } else if y >= 0.0 {
      assert x * y >= 0.0;
    }
  }

  lemma CoefsAbs(outW: seq<real>, v: seq<real>)
    requires |outW| == |v|
    ensures AbsAll(Coefs(outW, v)) == Coefs(outW, AbsAll(v))
  {
    forall j | 0 <= j < |v| && outW[j] > 0.0 ensures Abs(v[j] / outW[j]) == Abs(v[j]) / outW[j] {
      AbsTimes(v[j] / outW[j], outW[j]);
      assert v[j] / outW[j] * outW[j] == v[j];
      assert Abs(v[j] / outW[j]) * outW[j] == Abs(v[j]);
    }
  }

  lemma HandedAbs(w: Walk, v: seq<real>)
    requires w.Ok() && |v| == |w.p|
    ensures Abs(Handed(w, v)) <= Handed(w, AbsAll(v))
  {
    hide Out;
    var out := Out(w.evs, |v|);
    var a, b := DanglingPart(out, v), DanglingPart(out, AbsAll(v));
    SumLe(a, b);
    var neg := seq(|a|, i requires 0 <= i < |a| => -1.0 * a[i]);
    SumScale(-1.0, a, neg);
    SumLe(neg, b);
  }

  lemma LinAbs(w: Walk, v: seq<real>)
    requires w.Ok() && w.Prior() && |v| == |w.p|
    ensures forall i :: 0 <= i < |v| ==> Abs(Lin(w, v)[i]) <= Lin(w, AbsAll(v))[i]
  {
    hide Sum, Out, Push, Coefs, DanglingPart;
    var out := Out(w.evs, |v|);
    CoefsAbs(out, v);
    PushAbs(w.evs, |v|, Coefs(out, v));
    HandedAbs(w, v);
    var x, y := Handed(w, v), Handed(w, AbsAll(v));
    forall i | 0 <= i < |v| ensures Abs(Lin(w, v)[i]) <= Lin(w, AbsAll(v))[i] {
      AbsTimes(x, w.p[i]);
      assert Abs(x) * w.p[i] <= y * w.p[i];
    }
  }

  lemma LinNorm(w: Walk, v: seq<real>)
    requires w.Ok() && w.Prior() && |v| == |w.p|
    ensures Norm(Lin(w, v)) <= Norm(v)
  {
    hide Sum, Lin, Handed;
    LinAbs(w, v);
    SumLe(AbsAll(Lin(w, v)), Lin(w, AbsAll(v)));
    LinMass(w, AbsAll(v));
    LinNonneg(w, AbsAll(v));
    var back := Handed(w, AbsAll(v));
    assert back * Sum(w.p) <= back * 1.0;
  }

  /** One round shrinks every L1 distance by at least the damping. */
  lemma Contraction(w: Walk, u: seq<real>, v: seq<real>)
    requires w.Ok() && w.Prior() && |u| == |v| == |w.p|
    ensures Norm(Minus(Step(w, u), Step(w, v))) <= w.d * Norm(Minus(u, v))
  {
    hide Sum, Lin;
    LinMinus(w, u, v);
    LinNorm(w, Minus(u, v));
    var l := Lin(w, Minus(u, v));
    forall i | 0 <= i < |u| ensures AbsAll(Minus(Step(w, u), Step(w, v)))[i] == w.d * AbsAll(l)[i] {
      assert Step(w, u)[i] - Step(w, v)[i] == w.d * l[i] by {
        assert w.d * (Lin(w, u)[i] - Lin(w, v)[i]) == w.d * Lin(w, u)[i] - w.d * Lin(w, v)[i];
      }
      AbsTimes(l[i], w.d);
    }
    SumScale(w.d, AbsAll(l), AbsAll(Minus(Step(w, u), Step(w, v))));
    assert w.d * Norm(l) <= w.d * Norm(Minus(u, v));
  }
}
