/** Greedy in-parameter-order growth of a cover, for every tie-break choice. */
module CoverBuilds {
  import opened Bags
  import opened Covers

  // ----- invariants

  ghost predicate HeldBy(c: Cover, tests: seq<Case>, p: Pair) {
    exists i :: 0 <= i < |tests| && c.Holds(tests[i], p)
  }

  /** What is uncovered is exactly what is required and not yet held, and every test can still
      be completed to a valid case. */
  ghost predicate Sound(c: Cover, tests: seq<Case>, uncovered: set<Pair>, req: set<Pair>) {
    && (forall i :: 0 <= i < |tests| ==> c.Feasible(tests[i]))
    && (forall p :: p in uncovered <==> p in req && !HeldBy(c, tests, p))
  }

  /** The tests give listed values to the first `k` axes only. */
  ghost predicate Below(c: Cover, tests: seq<Case>, k: nat)
    requires c.Ok()
  {
    forall i :: 0 <= i < |tests| ==> BelowOne(c, tests[i], k)
  }

  ghost predicate BelowOne(c: Cover, t: Case, k: nat)
    requires c.Ok()
  {
    t.Keys <= c.axes.Keys && forall n :: n in t ==> c.rank[n] < k && t[n] in c.axes[n]
  }

  /** Every pair among the first `k` axes is covered. */
  ghost predicate DoneBelow(c: Cover, uncovered: set<Pair>, k: nat)
    requires c.Ok()
  {
    forall p :: p in uncovered ==> p.b.axis in c.rank && c.rank[p.b.axis] >= k
  }

  ghost predicate Grows(t: Case, t': Case) {
    forall n :: n in t ==> n in t' && t'[n] == t[n]
  }

  lemma GrownHolds(c: Cover, t: Case, t': Case, p: Pair)
    requires Grows(t, t') && c.Holds(t, p)
    ensures c.Holds(t', p)
  {
  }

  /** Growing one test and striking out what it holds keeps the books exact. */
  lemma GrowKeepsSound(c: Cover, tests: seq<Case>, i: nat, t': Case, uncovered: set<Pair>, req: set<Pair>)
    requires Sound(c, tests, uncovered, req) && i < |tests|
    requires Grows(tests[i], t') && c.Feasible(t') && t'.Keys <= c.rank.Keys
    ensures Sound(c, tests[i := t'], uncovered - c.PairsOf(t'), req)
  {
    var tests' := tests[i := t'];
    PairsAreHeld(c, t');
    forall p ensures HeldBy(c, tests', p) <==> HeldBy(c, tests, p) || c.Holds(t', p) {
      if HeldBy(c, tests, p) {
        var j :| 0 <= j < |tests| && c.Holds(tests[j], p);
        if j == i {
          GrownHolds(c, tests[i], t', p);
        }
        assert c.Holds(tests'[j], p);
      }
      if c.Holds(t', p) {
        assert c.Holds(tests'[i], p);
      }
    }
  }

  lemma AppendKeepsSound(c: Cover, tests: seq<Case>, t: Case, uncovered: set<Pair>, req: set<Pair>)
    requires Sound(c, tests, uncovered, req) && c.Feasible(t) && t.Keys <= c.rank.Keys
    ensures Sound(c, tests + [t], uncovered - c.PairsOf(t), req)
  {
    var tests' := tests + [t];
    PairsAreHeld(c, t);
    forall p ensures HeldBy(c, tests', p) <==> HeldBy(c, tests, p) || c.Holds(t, p) {
      if HeldBy(c, tests, p) {
        var j :| 0 <= j < |tests| && c.Holds(tests[j], p);
        assert c.Holds(tests'[j], p);
      }
      if c.Holds(t, p) {
        assert c.Holds(tests'[|tests|], p);
      }
    }
  }

  // ----- required

  /** The pairs of two axes, split by whether a valid full case holds them. */
  method RequiredOf(c: Cover, a: Name, b: Name) returns (req: set<Pair>, implied: set<Pair>)
    requires c.Ok() && a in c.axes && b in c.axes && c.rank[a] < c.rank[b]
    ensures forall p :: p in req <==> c.Required(p) && p.a.axis == a && p.b.axis == b
    ensures forall p :: p in implied <==> c.Implied(p) && p.a.axis == a && p.b.axis == b
  {
    req, implied := {}, {};
    for i := 0 to |c.axes[a]|
      invariant forall p :: p in req <==> c.Required(p) && p.a.axis == a && p.b.axis == b && p.a.value in c.axes[a][..i]
      invariant forall p :: p in implied <==>
        c.Implied(p) && p.a.axis == a && p.b.axis == b && p.a.value in c.axes[a][..i]
    {
      var more, moreImplied := RequiredRow(c, a, c.axes[a][i], b);
      req, implied := req + more, implied + moreImplied;
      assert c.axes[a][..i + 1] == c.axes[a][..i] + [c.axes[a][i]];
    }
    assert c.axes[a][..|c.axes[a]|] == c.axes[a];
  }

  method RequiredRow(c: Cover, a: Name, x: Value, b: Name) returns (req: set<Pair>, implied: set<Pair>)
    requires c.Ok() && a in c.axes && b in c.axes && c.rank[a] < c.rank[b] && x in c.axes[a]
    ensures forall p :: p in req <==> c.Required(p) && p.a == Slot(a, x) && p.b.axis == b
    ensures forall p :: p in implied <==> c.Implied(p) && p.a == Slot(a, x) && p.b.axis == b
  {
    req, implied := {}, {};
    var ys := c.axes[b];
    for j := 0 to |ys|
      invariant forall p :: p in req <==> c.Required(p) && p.a == Slot(a, x) && p.b.axis == b && p.b.value in ys[..j]
      invariant forall p :: p in implied <==> c.Implied(p) && p.a == Slot(a, x) && p.b.axis == b && p.b.value in ys[..j]
    {
      var p := Pair(Slot(a, x), Slot(b, ys[j]));
      assert ys[..j + 1] == ys[..j] + [ys[j]];
      assert c.IsPair(p);
      if p !in c.forbid {
        var ok := Completable(c, map[a := x, b := ys[j]]);
        assert c.CaseOf(p) == map[a := x, b := ys[j]];
        if ok {
          req := req + {p};
        } else {
          implied := implied + {p};
        }
      }
    }
    assert ys[..|ys|] == ys;
  }

  /** The pairs of one axis with every later one. */
  method RequiredFrom(c: Cover, i: nat) returns (req: set<Pair>, implied: set<Pair>)
    requires c.Ok() && i < |c.order|
    ensures forall p :: p in req <==> c.Required(p) && p.a.axis == c.order[i]
    ensures forall p :: p in implied <==> c.Implied(p) && p.a.axis == c.order[i]
  {
    hide Cover.Feasible;
    req, implied := {}, {};
    for j := i + 1 to |c.order|
      invariant forall p :: p in req <==> c.Required(p) && p.a.axis == c.order[i] && c.rank[p.b.axis] < j
      invariant forall p :: p in implied <==> c.Implied(p) && p.a.axis == c.order[i] && c.rank[p.b.axis] < j
    {
      var more, moreImplied := RequiredOf(c, c.order[i], c.order[j]);
      req, implied := req + more, implied + moreImplied;
    }
  }

  /** Every non-forbidden pair is required or implied, and never both. */
  method RequiredPairs(c: Cover) returns (req: set<Pair>, implied: set<Pair>)
    requires c.Ok()
    ensures forall p :: p in req <==> c.Required(p)
    ensures forall p :: p in implied <==> c.Implied(p)
  {
    hide Cover.Feasible;
    req, implied := {}, {};
    for i := 0 to |c.order|
      invariant forall p :: p in req <==> c.Required(p) && c.rank[p.a.axis] < i
      invariant forall p :: p in implied <==> c.Implied(p) && c.rank[p.a.axis] < i
    {
      var more, moreImplied := RequiredFrom(c, i);
      req, implied := req + more, implied + moreImplied;
    }
  }

  // ----- growing

  /** How many uncovered pairs `t` would newly hold with `v` on `pk`. */
  function Gain(c: Cover, t: Case, pk: Name, v: Value, uncovered: set<Pair>): nat
    requires t.Keys <= c.rank.Keys && pk in c.rank
  {
    |set n | n in t && c.MakePair(Slot(n, t[n]), Slot(pk, v)) in uncovered|
  }

  /** The uncovered pairs that `t` does not hold and holds with `v` on `pk`. */
  ghost function NewlyHeld(c: Cover, t: Case, pk: Name, v: Value, uncovered: set<Pair>): set<Pair> {
    set p | p in uncovered && c.Holds(t[pk := v], p) && !c.Holds(t, p)
  }

  function OtherAxis(p: Pair, pk: Name): Name {
    if p.a.axis == pk then p.b.axis else p.a.axis
  }

  lemma NewPairIsHeld(c: Cover, t: Case, pk: Name, v: Value, n: Name)
    requires c.Ok() && t.Keys <= c.rank.Keys && pk in c.rank && pk !in t && n in t
    ensures var p := c.MakePair(Slot(n, t[n]), Slot(pk, v));
      c.Holds(t[pk := v], p) && !c.Holds(t, p) && OtherAxis(p, pk) == n
  {
    assert c.rank[n] != c.rank[pk];
  }

  lemma NewlyHeldIsNew(c: Cover, t: Case, pk: Name, v: Value, p: Pair)
    requires c.Ok() && t.Keys <= c.rank.Keys && pk in c.rank && pk !in t
    requires c.Holds(t[pk := v], p) && !c.Holds(t, p)
    ensures var n := OtherAxis(p, pk);
      n in t && n in c.rank && c.MakePair(Slot(n, t[n]), Slot(pk, v)) == p
  {
    assert p == Pair(Slot(p.a.axis, p.a.value), Slot(p.b.axis, p.b.value));
  }

  /** The gain is the number of pairs newly held: what `uncovered` loses by the choice. */
  lemma GainIsNewlyHeld(c: Cover, t: Case, pk: Name, v: Value, uncovered: set<Pair>)
    requires c.Ok() && t.Keys <= c.rank.Keys && pk in c.rank && pk !in t
    ensures Gain(c, t, pk, v, uncovered) == |NewlyHeld(c, t, pk, v, uncovered)|
  {
    var names := set n | n in t && c.MakePair(Slot(n, t[n]), Slot(pk, v)) in uncovered;
    var pairs := NewlyHeld(c, t, pk, v, uncovered);
    hide Cover.Ok, Cover.Holds, Cover.MakePair, OtherAxis;
    var f := (p: Pair) => OtherAxis(p, pk);
    forall p | p in pairs ensures f(p) in names && c.MakePair(Slot(f(p), t[f(p)]), Slot(pk, v)) == p {
      NewlyHeldIsNew(c, t, pk, v, p);
    }
    forall n | n in names ensures exists p :: p in pairs && f(p) == n {
      NewPairIsHeld(c, t, pk, v, n);
      assert c.MakePair(Slot(n, t[n]), Slot(pk, v)) in pairs;
    }
    assert PairsOff(f, pairs, names);
    PairedOffSameSize(f, pairs, names);
  }

  /** `v` is a value of `pk` that keeps `t` completable, and none such gains more. */
  ghost predicate BestValue(c: Cover, t: Case, pk: Name, v: Value, uncovered: set<Pair>)
    requires t.Keys <= c.rank.Keys && pk in c.rank && pk in c.axes
  {
    && v in c.axes[pk] && c.Feasible(t[pk := v])
    && forall u :: u in c.axes[pk] && c.Feasible(t[pk := u]) ==>
      Gain(c, t, pk, u, uncovered) <= Gain(c, t, pk, v, uncovered)
  }

  /** The values that keep `t` completable and gain most: all the equally good ones. */
  method BestValues(c: Cover, t: Case, pk: Name, uncovered: set<Pair>) returns (best: seq<Value>)
    requires c.Ok() && t.Keys <= c.axes.Keys && t.Keys <= c.rank.Keys && pk in c.axes && pk in c.rank && pk !in t
    ensures forall v :: v in best <==> BestValue(c, t, pk, v, uncovered)
    ensures c.Feasible(t) ==> best != []
  {
    hide Cover.Feasible;
    var values := c.axes[pk];
    var score: int := -1;
    best := [];
    for k := 0 to |values|
      invariant score >= -1 && (score == -1 <==> best == [])
      invariant forall v :: v in best <==>
        v in values[..k] && c.Feasible(t[pk := v]) && Gain(c, t, pk, v, uncovered) == score
      invariant forall u :: u in values[..k] && c.Feasible(t[pk := u]) ==> Gain(c, t, pk, u, uncovered) <= score
    {
      var v := values[k];
      assert values[..k + 1] == values[..k] + [v];
      var ok := Completable(c, t[pk := v]);
      if ok {
        var n := Gain(c, t, pk, v, uncovered);
        if n > score {
          best, score := [v], n;
        } else if n == score {
          best := best + [v];
        }
      }
    }
    assert values[..|values|] == values;
    if best != [] {
      assert best[0] in best;
    }
    FeasibleExtends(c, t, pk);
  }

  lemma OneMoreSlot(c: Cover, t: Case, k: nat, v: Value)
    requires c.Ok() && BelowOne(c, t, k) && k < |c.order| && v in c.axes[c.order[k]]
    ensures c.order[k] !in t && Grows(t, t[c.order[k] := v]) && BelowOne(c, t[c.order[k] := v], k + 1)
  {
  }

  /** What is left of `uncovered` once the first `n` tests have struck out what they hold. */
  ghost function LeftAfter(c: Cover, tests: seq<Case>, n: nat, uncovered: set<Pair>): set<Pair>
    requires n <= |tests|
  {
    set p | p in uncovered && forall j :: 0 <= j < n ==> !c.Holds(tests[j], p)
  }

  lemma LeftAfterOneMore(c: Cover, tests: seq<Case>, i: nat, t: Case, uncovered: set<Pair>)
    requires i < |tests| && t.Keys <= c.rank.Keys
    ensures LeftAfter(c, tests[i := t], i + 1, uncovered) == LeftAfter(c, tests, i, uncovered) - c.PairsOf(t)
    ensures forall n :: 0 <= n <= i ==> LeftAfter(c, tests[i := t], n, uncovered) == LeftAfter(c, tests, n, uncovered)
  {
    PairsAreHeld(c, t);
    hide Cover.Holds, Cover.PairsOf;
    var u := tests[i := t];
    forall p | p in uncovered
      ensures (forall j :: 0 <= j < i + 1 ==> !c.Holds(u[j], p)) <==>
        (forall j :: 0 <= j < i ==> !c.Holds(tests[j], p)) && p !in c.PairsOf(t)
    {
      assert u[i] == t && forall j :: 0 <= j < i ==> u[j] == tests[j];
    }
    forall n | 0 <= n <= i ensures LeftAfter(c, u, n, uncovered) == LeftAfter(c, tests, n, uncovered) {
      assert forall j :: 0 <= j < n ==> u[j] == tests[j];
    }
  }

  /** Test `i` took one of the best values on the axis, as seen after the tests before it took theirs. */
  ghost predicate TookBest(c: Cover, pk: Name, t: Case, tests': seq<Case>, i: nat, uncovered: set<Pair>)
    requires i < |tests'| && t.Keys <= c.rank.Keys && pk in c.rank && pk in c.axes
  {
    && pk in tests'[i] && tests'[i] == t[pk := tests'[i][pk]]
    && BestValue(c, t, pk, tests'[i][pk], LeftAfter(c, tests', i, uncovered))
  }

  /** Horizontal growth: every test takes a best value on axis `k`, whichever is chosen. */
  method GrowHorizontally(c: Cover, k: nat, tests: seq<Case>, uncovered: set<Pair>, ghost req: set<Pair>)
    returns (tests': seq<Case>, uncovered': set<Pair>)
    requires c.Ok() && 2 <= k < |c.order|
    requires Sound(c, tests, uncovered, req) && Below(c, tests, k) && DoneBelow(c, uncovered, k)
    ensures Sound(c, tests', uncovered', req) && Below(c, tests', k + 1) && DoneBelow(c, uncovered', k)
    ensures |tests'| == |tests| && uncovered' == LeftAfter(c, tests', |tests'|, uncovered)
    ensures forall i :: 0 <= i < |tests| ==>
      tests[i].Keys <= c.rank.Keys && TookBest(c, c.order[k], tests[i], tests', i, uncovered)
  {
    hide Cover.Feasible, Cover.Holds, Cover.PairsOf, BelowOne, Grows, LeftAfter;
    var pk := c.order[k];
    tests', uncovered' := tests, uncovered;
    forall i | 0 <= i < |tests| ensures tests[i].Keys <= c.rank.Keys {
      assert BelowOne(c, tests[i], k);
      BelowKeys(c, tests[i], k);
    }
    NothingStruck(c, tests, uncovered);
    for i := 0 to |tests|
      invariant |tests'| == |tests| && uncovered' <= uncovered
      invariant Sound(c, tests', uncovered', req)
      invariant uncovered' == LeftAfter(c, tests', i, uncovered)
      invariant forall j :: 0 <= j < i ==>
        BelowOne(c, tests'[j], k + 1) && TookBest(c, pk, tests[j], tests', j, uncovered)
      invariant forall j :: i <= j < |tests| ==> tests'[j] == tests[j]
    {
      var t := tests'[i];
      assert BelowOne(c, t, k);
      BelowKeys(c, t, k);
      var best := BestValues(c, t, pk, uncovered');
      assert c.Feasible(t);
      assert best[0] in best;
      var v :| v in best;
      assert BestValue(c, t, pk, v, uncovered');
      OneMoreSlot(c, t, k, v);
      BelowKeys(c, t[pk := v], k + 1);
      GrowKeepsSound(c, tests', i, t[pk := v], uncovered', req);
      LeftAfterOneMore(c, tests', i, t[pk := v], uncovered);
      tests' := tests'[i := t[pk := v]];
      uncovered' := uncovered' - c.PairsOf(t[pk := v]);
    }
  }

  lemma NothingStruck(c: Cover, tests: seq<Case>, uncovered: set<Pair>)
    ensures LeftAfter(c, tests, 0, uncovered) == uncovered
  {
  }

  lemma BelowKeys(c: Cover, t: Case, k: nat)
    requires c.Ok() && BelowOne(c, t, k)
    ensures t.Keys <= c.axes.Keys && t.Keys <= c.rank.Keys
    ensures k < |c.order| ==> c.order[k] !in t
  {
  }

  // ----- vertical growth

  /** `t` leaves one of the pair's axes open and says nothing against the pair. */
  predicate Admits(t: Case, p: Pair) {
    && (p.a.axis !in t || p.b.axis !in t)
    && (p.a.axis in t ==> t[p.a.axis] == p.a.value)
    && (p.b.axis in t ==> t[p.b.axis] == p.b.value)
  }

  function WithPair(t: Case, p: Pair): Case {
    t[p.a.axis := p.a.value][p.b.axis := p.b.value]
  }

  lemma WithPairHolds(c: Cover, t: Case, p: Pair, k: nat)
    requires c.Ok() && BelowOne(c, t, k + 1) && c.IsPair(p) && c.rank[p.b.axis] == k
    requires Admits(t, p)
    ensures Grows(t, WithPair(t, p)) && BelowOne(c, WithPair(t, p), k + 1) && c.Holds(WithPair(t, p), p)
  {
  }

  /** `t` admits the pair and stays completable with it. */
  ghost predicate CanTake(c: Cover, t: Case, p: Pair) {
    Admits(t, p) && c.Feasible(WithPair(t, p))
  }

  lemma TakenIsHeld(c: Cover, t: Case, p: Pair, f: Case)
    requires c.Ok() && c.IsPair(p) && Admits(t, p) && c.Extends(WithPair(t, p), f)
    ensures !c.Holds(t, p) && c.Extends(t, f) && c.Holds(f, p)
  {
  }

  lemma HeldIsTaken(c: Cover, t: Case, p: Pair, f: Case)
    requires c.Ok() && c.IsPair(p) && !c.Holds(t, p) && c.Extends(t, f) && c.Holds(f, p)
    ensures Admits(t, p) && c.Extends(WithPair(t, p), f)
  {
  }

  /** Some valid way to complete `t` holds `p`. */
  ghost predicate CompletesWith(c: Cover, t: Case, p: Pair) {
    exists f :: c.Extends(t, f) && c.Clean(f) && c.Holds(f, p)
  }

  /** A test can take a pair exactly when it does not hold it and can be completed to hold it. */
  lemma CanTakeMeans(c: Cover, t: Case, p: Pair)
    requires c.Ok() && c.IsPair(p)
    ensures CanTake(c, t, p) <==> !c.Holds(t, p) && CompletesWith(c, t, p)
  {
    hide Cover.Ok, Cover.IsPair, Cover.Clean, Cover.Extends, Cover.Holds, Admits, WithPair;
    if CanTake(c, t, p) {
      var f :| c.Extends(WithPair(t, p), f) && c.Clean(f);
      TakenIsHeld(c, t, p, f);
      assert c.Extends(t, f) && c.Clean(f) && c.Holds(f, p);
    }
    if !c.Holds(t, p) && CompletesWith(c, t, p) {
      var f :| c.Extends(t, f) && c.Clean(f) && c.Holds(f, p);
      HeldIsTaken(c, t, p, f);
    }
  }

  /** `tests'` gives the pair to the first test that can take it, or to a new one when none can. */
  ghost predicate PairPlaced(c: Cover, tests: seq<Case>, tests': seq<Case>, p: Pair) {
    if forall i :: 0 <= i < |tests| ==> !CanTake(c, tests[i], p) then tests' == tests + [c.CaseOf(p)]
    else exists i :: FirstTaker(c, tests, i, p) && tests' == tests[i := WithPair(tests[i], p)]
  }

  ghost predicate FirstTaker(c: Cover, tests: seq<Case>, i: int, p: Pair) {
    0 <= i < |tests| && CanTake(c, tests[i], p) && forall j :: 0 <= j < i ==> !CanTake(c, tests[j], p)
  }

  method CoverPair(c: Cover, k: nat, tests: seq<Case>, uncovered: set<Pair>, p: Pair, ghost req: set<Pair>)
    returns (tests': seq<Case>, uncovered': set<Pair>)
    requires c.Ok() && k < |c.order| && Sound(c, tests, uncovered, req) && Below(c, tests, k + 1)
    requires c.Required(p) && c.rank[p.b.axis] == k
    ensures Sound(c, tests', uncovered', req) && Below(c, tests', k + 1)
    ensures uncovered' <= uncovered && p !in uncovered'
    ensures PairPlaced(c, tests, tests', p)
    ensures |tests| <= |tests'| <= |tests| + 1 && forall i :: 0 <= i < |tests| ==> Grows(tests[i], tests'[i])
  {
    hide Cover.Feasible, Cover.Holds, BelowOne, Grows, Sound, Cover.Implied;
    for i := 0 to |tests|
      invariant forall j :: 0 <= j < i ==> !CanTake(c, tests[j], p)
    {
      if Admits(tests[i], p) {
        WithPairHolds(c, tests[i], p, k);
        var t := WithPair(tests[i], p);
        BelowKeys(c, t, k + 1);
        var ok := Completable(c, t);
        if ok {
          PairsAreHeld(c, t);
          GrowKeepsSound(c, tests, i, t, uncovered, req);
          forall j | 0 <= j < |tests| ensures Grows(tests[j], tests[i := t][j]) {
            GrowsSelf(tests[j]);
          }
          assert FirstTaker(c, tests, i, p);
          return tests[i := t], uncovered - c.PairsOf(t);
        }
      }
    }
    var t := c.CaseOf(p);
    CaseOfPair(c, p, k);
    BelowKeys(c, t, k + 1);
    PairsAreHeld(c, t);
    AppendKeepsSound(c, tests, t, uncovered, req);
    forall j | 0 <= j < |tests| ensures Grows(tests[j], (tests + [t])[j]) {
      GrowsSelf(tests[j]);
    }
    return tests + [t], uncovered - c.PairsOf(t);
  }

  lemma GrowsSelf(t: Case)
    ensures Grows(t, t)
  {
  }

  lemma CaseOfPair(c: Cover, p: Pair, k: nat)
    requires c.Ok() && c.IsPair(p) && c.rank[p.b.axis] == k
    ensures BelowOne(c, c.CaseOf(p), k + 1) && c.Holds(c.CaseOf(p), p)
  {
  }

  /** Vertical growth: every uncovered pair that ends on axis `k` gets a test. */
  method GrowVertically(c: Cover, k: nat, tests: seq<Case>, uncovered: set<Pair>, ghost req: set<Pair>)
    returns (tests': seq<Case>, uncovered': set<Pair>)
    requires c.Ok() && k < |c.order| && (forall p :: p in req <==> c.Required(p))
    requires Sound(c, tests, uncovered, req) && Below(c, tests, k + 1) && DoneBelow(c, uncovered, k)
    ensures Sound(c, tests', uncovered', req) && Below(c, tests', k + 1) && DoneBelow(c, uncovered', k + 1)
    ensures |tests| <= |tests'|
  {
    hide Cover.Feasible, Cover.Holds, BelowOne, Grows;
    var todo := set p | p in uncovered && p.b.axis == c.order[k];
    tests', uncovered' := tests, uncovered;
    while todo != {}
      invariant todo <= uncovered && uncovered' <= uncovered && |tests| <= |tests'|
      invariant forall p :: p in todo ==> p.b.axis == c.order[k]
      invariant forall p :: p in uncovered' && p.b.axis == c.order[k] ==> p in todo
      invariant Sound(c, tests', uncovered', req) && Below(c, tests', k + 1)
      decreases todo
    {
      var p :| p in todo;
      todo := todo - {p};
      if p in uncovered' {
        assert c.Required(p);
        tests', uncovered' := CoverPair(c, k, tests', uncovered', p, req);
      }
    }
  }

  // ----- the don't-care slots

  /** Every open axis takes some value that keeps the case completable. */
  method FillOpenAxes(c: Cover, t: Case) returns (f: Case)
    requires c.Ok() && c.Feasible(t) && t.Keys <= c.axes.Keys
    ensures c.Extends(t, f) && c.Clean(f) && Grows(t, f)
  {
    hide Cover.Feasible, Cover.Clean;
    f := t;
    for i := 0 to |c.order|
      invariant Grows(t, f) && f.Keys <= c.axes.Keys && c.Feasible(f)
      invariant forall j :: 0 <= j < i ==> c.order[j] in f
      invariant forall n :: n in f && n !in t ==> f[n] in c.axes[n]
    {
      var n := c.order[i];
      if n !in f {
        var ok := CompletableValues(c, f, n);
        assert ok[0] in ok;
        var v :| v in ok;
        f := f[n := v];
      }
    }
    OrderDistinct(c);
    assert f.Keys == c.axes.Keys;
    FeasibleIsClean(c, f);
  }

  method CompletableValues(c: Cover, t: Case, n: Name) returns (ok: seq<Value>)
    requires c.Ok() && c.Feasible(t) && t.Keys <= c.axes.Keys && n in c.axes && n !in t
    ensures forall v :: v in ok <==> v in c.axes[n] && c.Feasible(t[n := v])
    ensures ok != []
  {
    hide Cover.Feasible;
    var values := c.axes[n];
    ok := [];
    for k := 0 to |values|
      invariant forall v :: v in ok <==> v in values[..k] && c.Feasible(t[n := v])
    {
      assert values[..k + 1] == values[..k] + [values[k]];
      var yes := Completable(c, t[n := values[k]]);
      if yes {
        ok := ok + [values[k]];
      }
    }
    assert values[..|values|] == values;
    FeasibleExtends(c, t, n);
  }

  // ----- build

  /** The completable cases that take `x` on the first axis and one of `ys` on the second. */
  ghost function CasesWith(c: Cover, p0: Name, x: Value, p1: Name, ys: seq<Value>): seq<Case> {
    if ys == [] then []
    else
      var t: Case := map[p0 := x, p1 := ys[|ys| - 1]];
      CasesWith(c, p0, x, p1, ys[..|ys| - 1]) + (if c.Feasible(t) then [t] else [])
  }

  /** The completable cases of two axes, in the order of their values. */
  ghost function CasesOver(c: Cover, p0: Name, xs: seq<Value>, p1: Name, ys: seq<Value>): seq<Case> {
    if xs == [] then []
    else CasesOver(c, p0, xs[..|xs| - 1], p1, ys) + CasesWith(c, p0, xs[|xs| - 1], p1, ys)
  }

  type Places = seq<(nat, nat)>

  /** `cases` are those of the values at the `places`, by the first value and then by the second. */
  ghost predicate CasesAt(p0: Name, xs: seq<Value>, p1: Name, ys: seq<Value>, places: Places, cases: seq<Case>) {
    && |cases| == |places|
    && (forall k :: 0 <= k < |places| ==> places[k].0 < |xs| && places[k].1 < |ys|)
    && (forall k :: 0 <= k < |places| ==> cases[k] == map[p0 := xs[places[k].0], p1 := ys[places[k].1]])
    && (forall k, l :: 0 <= k < l < |places| ==>
      places[k].0 < places[l].0 || (places[k].0 == places[l].0 && places[k].1 < places[l].1))
  }

  lemma {:induction false} CasesWithAt(c: Cover, p0: Name, xs: seq<Value>, i: nat, p1: Name, ys: seq<Value>)
    returns (places: Places)
    requires i < |xs|
    ensures CasesAt(p0, xs, p1, ys, places, CasesWith(c, p0, xs[i], p1, ys))
    ensures forall p: (nat, nat) :: p in places <==>
      p.0 == i && p.1 < |ys| && c.Feasible(map[p0 := xs[i], p1 := ys[p.1]])
  {
    hide Cover.Feasible;
    if ys == [] {
      places := [];
    } else {
      var init, y := ys[..|ys| - 1], ys[|ys| - 1];
      assert ys == init + [y];
      places := CasesWithAt(c, p0, xs, i, p1, init);
      if c.Feasible(map[p0 := xs[i], p1 := y]) {
        places := places + [(i, |init|)];
      }
    }
  }

  /** The first tests are the completable cases of the first two axes, each pair of values once, in
      the order of the first axis's values and within one of them of the second's. */
  lemma {:induction false} CasesOverAt(c: Cover, p0: Name, xs: seq<Value>, p1: Name, ys: seq<Value>)
    returns (places: Places)
    ensures CasesAt(p0, xs, p1, ys, places, CasesOver(c, p0, xs, p1, ys))
    ensures forall p: (nat, nat) :: p in places <==>
      p.0 < |xs| && p.1 < |ys| && c.Feasible(map[p0 := xs[p.0], p1 := ys[p.1]])
  {
    hide Cover.Feasible, CasesWith;
    if xs == [] {
      places := [];
    } else {
      var n := |xs| - 1;
      assert xs == xs[..n] + [xs[n]];
      places := CasesOverAt(c, p0, xs[..n], p1, ys);
      var more := CasesWithAt(c, p0, xs, n, p1, ys);
      CasesAppend(p0, xs, p1, ys, places, CasesOver(c, p0, xs[..n], p1, ys), more, CasesWith(c, p0, xs[n], p1, ys));
      places := places + more;
    }
  }

  lemma CasesAppend(p0: Name, xs: seq<Value>, p1: Name, ys: seq<Value>, a: Places, s: seq<Case>, b: Places,
                    t: seq<Case>)
    requires xs != [] && CasesAt(p0, xs[..|xs| - 1], p1, ys, a, s) && CasesAt(p0, xs, p1, ys, b, t)
    requires forall p :: p in b ==> p.0 == |xs| - 1
    ensures CasesAt(p0, xs, p1, ys, a + b, s + t)
  {
    forall k | 0 <= k < |b| ensures b[k].0 == |xs| - 1 {
      assert b[k] in b;
    }
  }

  ghost predicate IsCaseOver(c: Cover, p0: Name, xs: seq<Value>, p1: Name, ys: seq<Value>, t: Case) {
    c.Feasible(t) && exists x, y :: x in xs && y in ys && t == map[p0 := x, p1 := y]
  }

  lemma {:induction false} CasesWithMembers(c: Cover, p0: Name, x: Value, p1: Name, ys: seq<Value>)
    ensures forall t: Case :: t in CasesWith(c, p0, x, p1, ys) <==> IsCaseOver(c, p0, [x], p1, ys, t)
  {
    if ys == [] {
    } else {
      var init, y := ys[..|ys| - 1], ys[|ys| - 1];
      assert ys == init + [y];
      CasesWithMembers(c, p0, x, p1, init);
      hide Cover.Feasible;
    }
  }

  lemma {:induction false} CasesOverMembers(c: Cover, p0: Name, xs: seq<Value>, p1: Name, ys: seq<Value>)
    ensures forall t: Case :: t in CasesOver(c, p0, xs, p1, ys) <==> IsCaseOver(c, p0, xs, p1, ys, t)
  {
    if xs == [] {
    } else {
      var init, x := xs[..|xs| - 1], xs[|xs| - 1];
      assert xs == init + [x];
      CasesOverMembers(c, p0, init, p1, ys);
      CasesWithMembers(c, p0, x, p1, ys);
      hide Cover.Feasible, CasesWith;
    }
  }

  /** The completable cases of the first two axes, all of them in order. */
  method FirstTests(c: Cover) returns (tests: seq<Case>)
    requires c.Ok() && |c.order| >= 2
    ensures tests == CasesOver(c, c.order[0], c.axes[c.order[0]], c.order[1], c.axes[c.order[1]])
    ensures forall i :: 0 <= i < |tests| ==> c.Feasible(tests[i])
    ensures Below(c, tests, 2)
    ensures forall p :: c.Required(p) && c.rank[p.b.axis] < 2 ==> HeldBy(c, tests, p)
  {
    var p0, p1 := c.order[0], c.order[1];
    var xs, ys := c.axes[p0], c.axes[p1];
    tests := [];
    for i := 0 to |xs|
      invariant tests == CasesOver(c, p0, xs[..i], p1, ys)
    {
      ghost var before := tests;
      for j := 0 to |ys|
        invariant tests == before + CasesWith(c, p0, xs[i], p1, ys[..j])
      {
        hide Cover.Feasible;
        var t: Case := map[p0 := xs[i], p1 := ys[j]];
        assert ys[..j + 1][..j] == ys[..j];
        var ok := Completable(c, t);
        if ok {
          tests := tests + [t];
        }
      }
      assert ys[..|ys|] == ys && xs[..i + 1][..i] == xs[..i];
    }
    assert xs[..|xs|] == xs;
    FirstTestsHold(c, tests);
  }

  lemma FirstTestsHold(c: Cover, tests: seq<Case>)
    requires c.Ok() && |c.order| >= 2
    requires tests == CasesOver(c, c.order[0], c.axes[c.order[0]], c.order[1], c.axes[c.order[1]])
    ensures forall i :: 0 <= i < |tests| ==> c.Feasible(tests[i])
    ensures Below(c, tests, 2)
    ensures forall p :: c.Required(p) && c.rank[p.b.axis] < 2 ==> HeldBy(c, tests, p)
  {
    var p0, p1 := c.order[0], c.order[1];
    var xs, ys := c.axes[p0], c.axes[p1];
    CasesOverMembers(c, p0, xs, p1, ys);
    hide Cover.Feasible, CasesOver, BelowOne, IsCaseOver, HeldBy, Cover.Required;
    forall i | 0 <= i < |tests| ensures c.Feasible(tests[i]) && BelowOne(c, tests[i], 2) {
      assert tests[i] in tests;
      CaseOverIsBelow(c, tests[i]);
    }
    forall p | c.Required(p) && c.rank[p.b.axis] < 2 ensures HeldBy(c, tests, p) {
      PairIsCaseOver(c, p);
      HeldByItsCase(c, tests, p);
    }
  }

  lemma CaseOverIsBelow(c: Cover, t: Case)
    requires c.Ok() && |c.order| >= 2
    requires IsCaseOver(c, c.order[0], c.axes[c.order[0]], c.order[1], c.axes[c.order[1]], t)
    ensures c.Feasible(t) && BelowOne(c, t, 2)
  {
    hide Cover.Feasible;
  }

  lemma PairIsCaseOver(c: Cover, p: Pair)
    requires c.Ok() && |c.order| >= 2 && c.Required(p) && c.rank[p.b.axis] < 2
    ensures IsCaseOver(c, c.order[0], c.axes[c.order[0]], c.order[1], c.axes[c.order[1]], c.CaseOf(p))
  {
    hide Cover.Feasible;
    assert p.a.axis == c.order[0] && p.b.axis == c.order[1];
  }

  lemma HeldByItsCase(c: Cover, tests: seq<Case>, p: Pair)
    requires c.Ok() && c.IsPair(p) && c.CaseOf(p) in tests
    ensures HeldBy(c, tests, p)
  {
    var i :| 0 <= i < |tests| && tests[i] == c.CaseOf(p);
    assert c.Holds(tests[i], p);
  }

  method StrikeHeld(c: Cover, tests: seq<Case>, req: set<Pair>) returns (uncovered: set<Pair>)
    requires c.Ok() && (forall i :: 0 <= i < |tests| ==> c.Feasible(tests[i])) && Below(c, tests, 2)
    ensures Sound(c, tests, uncovered, req)
  {
    hide Cover.Feasible, Cover.Holds;
    uncovered := req;
    for i := 0 to |tests|
      invariant Sound(c, tests[..i], uncovered, req)
    {
      assert BelowOne(c, tests[i], 2);
      AppendKeepsSound(c, tests[..i], tests[i], uncovered, req);
      assert tests[..i + 1] == tests[..i] + [tests[i]];
      uncovered := uncovered - c.PairsOf(tests[i]);
    }
    assert tests[..|tests|] == tests;
  }

  datatype BuildResult =
    | Built(tests: seq<Case>, req: set<Pair>, implied: set<Pair>)
    | NoSecondAxis
    | Uncovered(left: set<Pair>)

  /** The cover: it fails only for want of a second axis, never because pairs are left over;
      every test is a valid full case; and the pairs the tests hold are exactly the required
      ones, which are exactly those some valid full case holds. */
  method Build(c: Cover) returns (r: BuildResult)
    requires c.Ok()
    ensures r.NoSecondAxis? <==> |c.order| < 2
    ensures !r.Uncovered?
    ensures r.Built? ==>
      && (forall i :: 0 <= i < |r.tests| ==> c.Valid(r.tests[i]))
      && (forall p :: p in r.req <==> HeldBy(c, r.tests, p))
      && (forall p :: p in r.req <==> c.Required(p))
      && (forall p :: p in r.implied <==> c.Implied(p))
  {
    hide Cover.Feasible, Cover.Holds, BelowOne, Grows;
    var req, implied := RequiredPairs(c);
    if |c.order| < 2 {
      return NoSecondAxis;
    }
    var tests := FirstTests(c);
    var uncovered := StrikeHeld(c, tests, req);
    for k := 2 to |c.order|
      invariant Sound(c, tests, uncovered, req) && Below(c, tests, k) && DoneBelow(c, uncovered, k)
    {
      tests, uncovered := GrowHorizontally(c, k, tests, uncovered, req);
      tests, uncovered := GrowVertically(c, k, tests, uncovered, req);
    }
    NothingLeft(c, tests, uncovered, req);
    var full := FillAll(c, tests);
    CoverIsExact(c, tests, full, req, uncovered);
    r := if uncovered != {} then Uncovered(uncovered) else Built(full, req, implied);
  }

  lemma NothingLeft(c: Cover, tests: seq<Case>, uncovered: set<Pair>, req: set<Pair>)
    requires c.Ok() && Sound(c, tests, uncovered, req) && DoneBelow(c, uncovered, |c.order|)
    requires forall p :: p in req ==> c.Required(p)
    ensures uncovered == {}
  {
    hide Cover.Feasible, Cover.Holds;
    forall p ensures p !in uncovered {
      RequiredRank(c, p);
    }
  }

  lemma RequiredRank(c: Cover, p: Pair)
    requires c.Ok()
    ensures c.Required(p) ==> p.b.axis in c.rank && c.rank[p.b.axis] < |c.order|
  {
  }

  /** The don't-care pass over every test. */
  method FillAll(c: Cover, tests: seq<Case>) returns (full: seq<Case>)
    requires c.Ok() && Below(c, tests, |c.order|)
    requires forall i :: 0 <= i < |tests| ==> c.Feasible(tests[i])
    ensures |full| == |tests|
    ensures forall i :: 0 <= i < |tests| ==> c.Valid(full[i]) && Grows(tests[i], full[i])
  {
    hide Cover.Feasible, Cover.Clean, Grows;
    full := [];
    for i := 0 to |tests|
      invariant |full| == i
      invariant forall j :: 0 <= j < i ==> c.Valid(full[j]) && Grows(tests[j], full[j])
    {
      assert BelowOne(c, tests[i], |c.order|);
      var f := FillOpenAxes(c, tests[i]);
      full := full + [f];
    }
  }

  /** Valid tests hold only required pairs, and nothing required is left over. */
  lemma CoverIsExact(c: Cover, tests: seq<Case>, full: seq<Case>, req: set<Pair>, uncovered: set<Pair>)
    requires c.Ok() && Sound(c, tests, uncovered, req) && uncovered == {} && |full| == |tests|
    requires forall p :: p in req <==> c.Required(p)
    requires forall i :: 0 <= i < |tests| ==> c.Valid(full[i]) && Grows(tests[i], full[i])
    ensures forall p :: p in req <==> HeldBy(c, full, p)
  {
    hide Cover.Feasible, Grows, Cover.Required, Cover.Valid;
    forall p | p in req ensures HeldBy(c, full, p) {
      assert p !in uncovered;
      var i :| 0 <= i < |tests| && c.Holds(tests[i], p);
      GrownHolds(c, tests[i], full[i], p);
    }
    forall p | HeldBy(c, full, p) ensures p in req {
      var i :| 0 <= i < |full| && c.Holds(full[i], p);
      HeldIsRequired(c, full[i], p);
    }
  }

  lemma HeldIsRequired(c: Cover, f: Case, p: Pair)
    requires c.Ok() && c.Valid(f) && c.Holds(f, p)
    ensures c.Required(p)
  {
    assert c.IsPair(p);
    RequiredIsHeldBySome(c, p);
  }
}
