/** The iteration over the reals, in closed form: one round is an affine map whose linear part
    moves every score along the incidences and hands dangling scores back to the seeds. */
module PprReal {
  import opened Numbers
  import opened PprSpec
  import opened Sums

  ghost predicate Nonneg(v: seq<real>) {
    forall i :: 0 <= i < |v| ==> v[i] >= 0.0
  }

  ghost predicate Positive(evs: seq<Event<real>>) {
    forall k :: 0 <= k < |evs| ==> evs[k].w > 0.0
  }

  /** A walk over `|p|` slots along positive-weight incidences. */
  datatype Walk = Walk(evs: seq<Event<real>>, p: seq<real>, d: real) {
    ghost predicate Ok() {
      EventsIn(evs, |p|) && Positive(evs) && 0.0 < d < 1.0
    }

    /** A personalization with no negative entry and mass at most one. */
    ghost predicate Prior() {
      Nonneg(p) && Sum(p) <= 1.0
    }
  }

  function Zeros(n: nat): seq<real> {
    seq(n, _ => 0.0)
  }

  /** The total weight leaving each slot. */
  function Out(evs: seq<Event<real>>, n: nat): (r: seq<real>)
    requires EventsIn(evs, n)
    ensures |r| == n
  {
    if evs == [] then Zeros(n)
    else
      var e := evs[|evs| - 1];
      var r := Out(evs[..|evs| - 1], n);
      r[e.source := r[e.source] + e.w]
  }

  /** What each slot receives when every event sends its weight times its source's coefficient. */
  function Push(evs: seq<Event<real>>, n: nat, c: seq<real>): (r: seq<real>)
    requires EventsIn(evs, n) && |c| == n
    ensures |r| == n
  {
    if evs == [] then Zeros(n)
    else
      var e := evs[|evs| - 1];
      var r := Push(evs[..|evs| - 1], n, c);
      r[e.target := r[e.target] + Prod(c[e.source], e.w)]
  }

  function Coefs(outW: seq<real>, v: seq<real>): (c: seq<real>)
    requires |outW| == |v|
    ensures |c| == |v|
  {
    seq(|v|, j requires 0 <= j < |v| => if outW[j] > 0.0 then v[j] / outW[j] else 0.0)
  }

  /** The scores of the slots nothing leaves. */
  function DanglingPart(outW: seq<real>, v: seq<real>): (c: seq<real>)
    requires |outW| == |v|
    ensures |c| == |v|
  {
    seq(|v|, j requires 0 <= j < |v| => if outW[j] == 0.0 then v[j] else 0.0)
  }

  function Blend(d: real, p: real, l: real): real {
    (1.0 - d) * p + d * l
  }

  function Received(pushed: real, back: real, p: real): real {
    pushed + back * p
  }

  /** The linear part of a round. */
  function Lin(w: Walk, v: seq<real>): (r: seq<real>)
    requires w.Ok() && |v| == |w.p|
    ensures |r| == |v|
  {
    var outW := Out(w.evs, |v|);
    var pushed := Push(w.evs, |v|, Coefs(outW, v));
    var back := Sum(DanglingPart(outW, v));
    seq(|v|, i requires 0 <= i < |v| => Received(pushed[i], back, w.p[i]))
  }

  function Step(w: Walk, v: seq<real>): (r: seq<real>)
    requires w.Ok() && |v| == |w.p|
    ensures |r| == |v|
  {
    var l := Lin(w, v);
    seq(|v|, i requires 0 <= i < |v| => Blend(w.d, w.p[i], l[i]))
  }

  /** The vector after `k` rounds from the personalization. */
  function After(w: Walk, k: nat): (r: seq<real>)
    requires w.Ok()
    ensures |r| == |w.p|
  {
    if k == 0 then w.p else Step(w, After(w, k - 1))
  }

  // ----- the round of any real arithmetic is this step

  lemma {:induction false} OutIsOutWeights(A: Arith<real>, evs: seq<Event<real>>, n: nat)
    requires IsReal(A) && EventsIn(evs, n)
    ensures OutWeights(A, evs, n) == Out(evs, n)
  {
    if evs == [] {
    } else {
      OutIsOutWeights(A, evs[..|evs| - 1], n);
      forall j | 0 <= j < n ensures OutWeight(A, evs, j) == Out(evs, n)[j] {
        assert OutWeight(A, evs[..|evs| - 1], j) == OutWeights(A, evs[..|evs| - 1], n)[j];
      }
    }
  }

  lemma ShareIsCoef(A: Arith<real>, outW: seq<real>, v: seq<real>, j: nat, x: real)
    requires IsReal(A) && |outW| == |v| && j < |v|
    ensures Share(A, outW, v, (j, x)) == Prod(Coefs(outW, v)[j], x)
  {
    if outW[j] > 0.0 {
      DivMul(v[j], x, outW[j]);
    }
  }

  lemma DivMul(a: real, x: real, o: real)
    requires o > 0.0
    ensures a * x / o == a / o * x
  {
  }

  lemma SumSnoc(a: seq<real>, x: real)
    ensures Sum(a + [x]) == Sum(a) + x
  {
    assert (a + [x])[..|a|] == a;
  }

  lemma SharesSnoc(A: Arith<real>, outW: seq<real>, v: seq<real>, row: seq<(nat, real)>, j: nat, x: real)
    requires IsReal(A) && |outW| == |v| && j < |v|
    requires forall k :: 0 <= k < |row| ==> row[k].0 < |v|
    ensures Sum(Shares(A, outW, v, row + [(j, x)])) == Sum(Shares(A, outW, v, row)) + Prod(Coefs(outW, v)[j], x)
  {
    var s := Share(A, outW, v, (j, x));
    assert Shares(A, outW, v, row + [(j, x)]) == Shares(A, outW, v, row) + [s];
    SumSnoc(Shares(A, outW, v, row), s);
    ShareIsCoef(A, outW, v, j, x);
  }

  lemma {:induction false} RowIsPush(A: Arith<real>, outW: seq<real>, v: seq<real>, evs: seq<Event<real>>, i: nat)
    requires IsReal(A) && EventsIn(evs, |v|) && |outW| == |v| && i < |v|
    ensures forall k :: 0 <= k < |Incoming(evs, i)| ==> Incoming(evs, i)[k].0 < |v|
    ensures Sum(Shares(A, outW, v, Incoming(evs, i))) == Push(evs, |v|, Coefs(outW, v))[i]
  {
    hide IsReal, Coefs, Sum, Share, Prod;
    IncomingInRange(evs, |v|, i);
    if evs == [] {
      assert Shares(A, outW, v, []) == [];
      SumZero([]);
    } else {
      var init, e := evs[..|evs| - 1], evs[|evs| - 1];
      RowIsPush(A, outW, v, init, i);
      var row := Incoming(init, i);
      if e.target == i {
        SharesSnoc(A, outW, v, row, e.source, e.w);
      } else {
        assert Incoming(evs, i) == row;
      }
    }
  }

  lemma {:induction false} DanglingIsPart(A: Arith<real>, outW: seq<real>, v: seq<real>)
    requires IsReal(A) && |outW| == |v|
    ensures Sum(Pick(v, DanglingOf(A, outW))) == Sum(DanglingPart(outW, v))
  {
    if v == [] {
    } else {
      var n := |v| - 1;
      DanglingIsPart(A, outW[..n], v[..n]);
      var a0 := Pick(v[..n], DanglingOf(A, outW[..n]));
      assert DanglingPart(outW, v)[..n] == DanglingPart(outW[..n], v[..n]);
      assert Pick(v, DanglingOf(A, outW)) == if outW[n] == 0.0 then a0 + [v[n]] else a0;
      SumSnoc(a0, v[n]);
    }
  }

  /** `sys` iterates over the incidences of `w`. */
  ghost predicate Realizes(A: Arith<real>, sys: System<real>, w: Walk) {
    && IsReal(A) && sys.Ok() && w.Ok()
    && sys.rows == IncomingLists(w.evs, |w.p|)
    && sys.outW == OutWeights(A, w.evs, |w.p|)
    && sys.dangling == DanglingOf(A, sys.outW)
    && sys.p == w.p && sys.d == w.d
  }

  lemma RealizesUnfolded(A: Arith<real>, sys: System<real>, w: Walk)
    requires Realizes(A, sys, w)
    ensures IsReal(A) && sys.Ok() && w.Ok() && sys.p == w.p && sys.d == w.d
  {
  }

  lemma RoundIsStep(A: Arith<real>, sys: System<real>, w: Walk, v: seq<real>)
    requires Realizes(A, sys, w) && |v| == |w.p|
    ensures Round(A, sys, v) == Step(w, v)
  {
    hide Realizes, IsReal, NewScore, Propagated, DanglingSum, Push, Out, Coefs, DanglingPart, Sum;
    assert IsReal(A) && sys.Ok() && w.Ok() && sys.p == w.p && sys.d == w.d by {
      RealizesUnfolded(A, sys, w);
    }
    forall i | 0 <= i < |v| ensures NewScore(A, sys, v, i) == Step(w, v)[i] {
      DanglingSumIsPart(A, sys, w, v);
      PropagatedIsPush(A, sys, w, v, i);
      NewScoreOverReals(A, sys, v, i);
      assert Lin(w, v)[i] == Propagated(A, sys, v, i) + DanglingSum(A, sys, v) * w.p[i];
    }
  }

  lemma NewScoreOverReals(A: Arith<real>, sys: System<real>, v: seq<real>, i: nat)
    requires IsReal(A) && sys.Ok() && |v| == |sys.p| && i < |v|
    ensures NewScore(A, sys, v, i)
         == (1.0 - sys.d) * sys.p[i] + sys.d * (Propagated(A, sys, v, i) + DanglingSum(A, sys, v) * sys.p[i])
  {
    hide Propagated, DanglingSum, System.Ok;
    var p, pushed, back := sys.p[i], Propagated(A, sys, v, i), DanglingSum(A, sys, v);
    assert A.mul(back, p) == back * p;
    assert A.add(pushed, A.mul(back, p)) == pushed + back * p;
    assert A.mul(A.sub(A.one, sys.d), p) == (1.0 - sys.d) * p;
  }

  lemma PropagatedIsPush(A: Arith<real>, sys: System<real>, w: Walk, v: seq<real>, i: nat)
    requires Realizes(A, sys, w) && |v| == |w.p| && i < |v|
    ensures Propagated(A, sys, v, i) == Push(w.evs, |v|, Coefs(Out(w.evs, |v|), v))[i]
  {
    OutIsOutWeights(A, w.evs, |v|);
    RowIsPush(A, sys.outW, v, w.evs, i);
    assert sys.rows[i] == Incoming(w.evs, i);
    FoldIsSum(A, Shares(A, sys.outW, v, sys.rows[i]));
  }

  lemma DanglingSumIsPart(A: Arith<real>, sys: System<real>, w: Walk, v: seq<real>)
    requires Realizes(A, sys, w) && |v| == |w.p|
    ensures DanglingSum(A, sys, v) == Sum(DanglingPart(Out(w.evs, |v|), v))
  {
    OutIsOutWeights(A, w.evs, |v|);
    DanglingIsPart(A, sys.outW, v);
    FoldIsSum(A, Pick(v, sys.dangling));
  }

  lemma ChangeIsNorm(A: Arith<real>, u: seq<real>, v: seq<real>)
    requires IsReal(A) && |u| == |v|
    ensures Change(A, u, v) == Norm(Minus(u, v))
  {
    assert Changes(A, u, v) == AbsAll(Minus(u, v));
    FoldIsSum(A, Changes(A, u, v));
  }

  // ----- what a run returns

  /** The change of round `k`, counted from 1. */
  function ChangeAt(w: Walk, k: nat): real
    requires w.Ok() && k > 0
  {
    Norm(Minus(After(w, k - 1), After(w, k)))
  }

  /** The rounds strictly between `k` and `k + m` all change by at least `epsilon`. */
  ghost predicate Restless(w: Walk, epsilon: real, k: nat, m: nat)
    requires w.Ok()
  {
    forall j :: k < j < k + m ==> ChangeAt(w, j) >= epsilon
  }

  /** `m` rounds are run: every one before the last changes by at least `epsilon`, and the
      last by less unless the cap ended the run. */
  ghost predicate StopsAfter(w: Walk, epsilon: real, cap: nat, m: nat)
    requires w.Ok()
  {
    && m <= cap
    && Restless(w, epsilon, 0, m)
    && (m < cap ==> 0 < m && ChangeAt(w, m) < epsilon)
  }

  /** The run of `sys` is the run of `w`: same rounds, same stop test. */
  ghost predicate Simulates(A: Arith<real>, sys: System<real>, w: Walk) {
    && sys.Ok() && w.Ok() && sys.p == w.p
    && (forall v {:trigger Round(A, sys, v)} :: |v| == |w.p| ==> Round(A, sys, v) == Step(w, v))
    && (forall u, v {:trigger Change(A, u, v)} :: |u| == |v| ==> Change(A, u, v) == Norm(Minus(u, v)))
    && (forall x, y {:trigger A.lt(x, y)} :: A.lt(x, y) <==> x < y)
  }

  lemma RealizesSimulates(A: Arith<real>, sys: System<real>, w: Walk)
    requires Realizes(A, sys, w)
    ensures Simulates(A, sys, w)
  {
    forall v {:trigger Round(A, sys, v)} | |v| == |w.p| ensures Round(A, sys, v) == Step(w, v) {
      RoundIsStep(A, sys, w, v);
    }
    forall u, v {:trigger Change(A, u, v)} | |u| == |v| ensures Change(A, u, v) == Norm(Minus(u, v)) {
      ChangeIsNorm(A, u, v);
    }
  }

  lemma NextRound(A: Arith<real>, sys: System<real>, w: Walk, k: nat, epsilon: real)
    requires Simulates(A, sys, w)
    ensures sys.Ok() && w.Ok() && sys.p == w.p
    ensures Round(A, sys, After(w, k)) == After(w, k + 1)
    ensures A.lt(Change(A, After(w, k), After(w, k + 1)), epsilon) <==> ChangeAt(w, k + 1) < epsilon
  {
    hide Step, Round, Change;
  }

  lemma {:induction false} RunFrom(A: Arith<real>, sys: System<real>, w: Walk, epsilon: real, k: nat, cap: nat)
    returns (m: nat)
    requires Simulates(A, sys, w)
    ensures Rounds(A, sys, epsilon, After(w, k), cap) == (After(w, k + m), m)
    ensures m <= cap
    ensures Restless(w, epsilon, k, m)
    ensures m < cap ==> 0 < m && ChangeAt(w, k + m) < epsilon
    decreases cap
  {
    hide *;
    NextRound(A, sys, w, k, epsilon);
    RoundsUnfold(A, sys, epsilon, After(w, k), cap);
    RestlessBase(w, epsilon, k);
    if cap == 0 {
      m := 0;
    } else if ChangeAt(w, k + 1) < epsilon {
      m := 1;
    } else {
      var rest := RunFrom(A, sys, w, epsilon, k + 1, cap - 1);
      m := rest + 1;
      RestlessNext(w, epsilon, k, rest);
    }
  }

  lemma RoundsUnfold(A: Arith<real>, sys: System<real>, epsilon: real, v: seq<real>, cap: nat)
    requires sys.Ok() && |v| == |sys.p|
    ensures cap == 0 ==> Rounds(A, sys, epsilon, v, cap) == (v, 0)
    ensures cap > 0 ==>
      var v' := Round(A, sys, v);
      var (r, m) := Rounds(A, sys, epsilon, v', cap - 1);
      Rounds(A, sys, epsilon, v, cap) == if A.lt(Change(A, v, v'), epsilon) then (v', 1) else (r, m + 1)
  {
  }

  lemma RestlessBase(w: Walk, epsilon: real, k: nat)
    requires w.Ok()
    ensures Restless(w, epsilon, k, 0) && Restless(w, epsilon, k, 1)
  {
  }

  lemma RestlessNext(w: Walk, epsilon: real, k: nat, m: nat)
    requires w.Ok() && ChangeAt(w, k + 1) >= epsilon && Restless(w, epsilon, k + 1, m)
    ensures Restless(w, epsilon, k, m + 1)
  {
    hide ChangeAt;
  }

  /** The run returns the vector of the round it stops after, and that round's number. */
  lemma RunStops(A: Arith<real>, sys: System<real>, w: Walk, epsilon: real, cap: nat) returns (m: nat)
    requires Simulates(A, sys, w)
    ensures Rounds(A, sys, epsilon, w.p, cap) == (After(w, m), m)
    ensures StopsAfter(w, epsilon, cap, m)
  {
    StartsAtPrior(w);
    hide *;
    NextRound(A, sys, w, 0, epsilon);
    m := RunFrom(A, sys, w, epsilon, 0, cap);
    RestIsStop(w, epsilon, cap, m);
  }

  lemma StartsAtPrior(w: Walk)
    ensures w.Ok() ==> After(w, 0) == w.p
  {
  }

  lemma RestIsStop(w: Walk, epsilon: real, cap: nat, m: nat)
    requires w.Ok() && m <= cap && Restless(w, epsilon, 0, m)
    requires m < cap ==> 0 < m && ChangeAt(w, 0 + m) < epsilon
    ensures StopsAfter(w, epsilon, cap, m)
  {
    hide ChangeAt, Restless;
  }
}
