/** The ranked view over the reals: sorted, without repeats, the best of what was kept, and the
    same however the graph is listed. */
module PlanRanking {
  import opened Bags
  import opened Sorting
  import opened Numbers
  import opened PprSpec
  import opened Plans
  import opened PlanProps

  type Ranked = seq<(NodeId, real)>

  // ----- sorting

  /** Nothing ranks before an entry listed earlier. */
  ghost predicate InRankOrder(A: Arith<real>, s: Ranked) {
    Sorted(Ranking(A), s)
  }

  lemma BeforeOverReals(A: Arith<real>, a: (NodeId, real), b: (NodeId, real))
    requires IsReal(A)
    ensures Before(A, a, b) <==> a.1 > b.1 || (a.1 == b.1 && a.0 < b.0)
  {
    assert A.lt(b.1, a.1) <==> b.1 < a.1;
    assert A.lt(a.1, b.1) <==> a.1 < b.1;
  }

  /** Score and id decide every place. */
  lemma RankingIsOrder(A: Arith<real>)
    requires IsReal(A)
    ensures IsOrder(Ranking(A)) && NoTies(Ranking(A))
  {
    forall a: (NodeId, real), b: (NodeId, real)
      ensures Ranking(A)(a, b) <==> a.1 > b.1 || (a.1 == b.1 && a.0 < b.0)
    {
      BeforeOverReals(A, a, b);
    }
    hide IsReal;
  }

  /** Sorting keeps the bag, and one bag has one ranked list. */
  lemma SortRanks(A: Arith<real>, s: Ranked)
    requires IsReal(A)
    ensures InRankOrder(A, SortRanked(A, s)) && multiset(SortRanked(A, s)) == multiset(s)
    ensures forall t: Ranked :: InRankOrder(A, t) && multiset(t) == multiset(s) ==> t == SortRanked(A, s)
  {
    RankingIsOrder(A);
    SortSorts(Ranking(A), s);
    forall t: Ranked | InRankOrder(A, t) && multiset(t) == multiset(s) ensures t == SortRanked(A, s) {
      SortedUnique(Ranking(A), t, SortRanked(A, s));
    }
  }

  /** `view` and `cut` share out `s`, and nothing in `cut` ranks before anything in `view`. */
  ghost predicate CutFrom(A: Arith<real>, view: Ranked, cut: Ranked, s: Ranked) {
    && multiset(view) + multiset(cut) == multiset(s)
    && forall a, b :: a in view && b in cut ==> !Before(A, b, a)
  }

  /** The view is the head of the sorted bag, and nothing cut ranks before anything kept. */
  lemma CutIsBelow(A: Arith<real>, s: Ranked, k: nat)
    requires IsReal(A)
    ensures var view := Truncate(SortRanked(A, s), k);
      && InRankOrder(A, view)
      && exists cut: Ranked :: CutFrom(A, view, cut, s)
  {
    SortRanks(A, s);
    var sorted := SortRanked(A, s);
    var view := Truncate(sorted, k);
    var cut := sorted[|view|..];
    assert sorted == view + cut;
    forall a, b | a in view && b in cut ensures !Before(A, b, a) {
      var i :| 0 <= i < |view| && view[i] == a;
      var j :| 0 <= j < |cut| && cut[j] == b;
      assert sorted[i] == a && sorted[|view| + j] == b;
    }
    assert multiset(view) + multiset(cut) == multiset(s);
    assert CutFrom(A, view, cut, s);
  }

  // ----- distinct ids

  ghost predicate DistinctIds(s: Ranked) {
    forall i, j :: 0 <= i < j < |s| ==> s[i].0 != s[j].0
  }

  /** Any list of a distinct-id bag has distinct ids. */
  lemma {:induction false} DistinctByBag(s: Ranked, t: Ranked)
    requires multiset(s) <= multiset(t) && DistinctIds(t)
    ensures DistinctIds(s)
  {
    forall i, j | 0 <= i < j < |s| ensures s[i].0 != s[j].0 {
      assert s[i] in multiset(s) && s[j] in multiset(s);
      assert s[i] in multiset(t) && s[j] in multiset(t);
      var a :| 0 <= a < |t| && t[a] == s[i];
      var b :| 0 <= b < |t| && t[b] == s[j];
      if s[i] == s[j] {
        TwoPlaces(s, i, j);
        OnceAt(t, a);
      }
    }
  }

  lemma {:induction false} RetainSubBag(g: Graph, f: Filter<real>, s: Ranked)
    ensures multiset(Retain(g, f, s)) <= multiset(s)
  {
    if s == [] {
    } else {
      RetainSubBag(g, f, s[..|s| - 1]);
      assert s == s[..|s| - 1] + [s[|s| - 1]];
    }
  }

  lemma {:induction false} FiltersSubBag(g: Graph, filters: seq<Filter<real>>, s: Ranked)
    ensures multiset(ApplyFilters(g, filters, s).0) <= multiset(s)
  {
    if filters == [] {
    } else {
      FiltersSubBag(g, filters[..|filters| - 1], s);
      RetainSubBag(g, filters[|filters| - 1], ApplyFilters(g, filters[..|filters| - 1], s).0);
    }
  }

  /** A signal that only rescores. */
  ghost predicate Rescores(s: Signal<real>) {
    forall g: Graph, xs: Ranked {:trigger s.apply(g, xs)} ::
      |s.apply(g, xs)| == |xs| && forall i :: 0 <= i < |xs| ==> s.apply(g, xs)[i].0 == xs[i].0
  }

  lemma {:induction false} SignalsKeepIds(g: Graph, signals: seq<Signal<real>>, s: Ranked)
    requires forall k :: 0 <= k < |signals| ==> Rescores(signals[k])
    requires DistinctIds(s)
    ensures DistinctIds(ApplySignals(g, signals, s))
  {
    if signals == [] {
    } else {
      SignalsKeepIds(g, signals[..|signals| - 1], s);
      assert Rescores(signals[|signals| - 1]);
    }
  }

  /** From a universe without repeats comes a sorted view without repeats. */
  lemma FinishKeepsDistinct(A: Arith<real>, pass: Pass<real>, g: Graph, universe: Ranked, iterations: nat)
    requires IsReal(A) && DistinctIds(universe)
    requires forall k :: 0 <= k < |pass.signals| ==> Rescores(pass.signals[k])
    ensures DistinctIds(Finish(A, pass, g, universe, iterations).scores)
    ensures InRankOrder(A, Finish(A, pass, g, universe, iterations).scores)
  {
    var signalled := ApplySignals(g, pass.signals, universe);
    SignalsKeepIds(g, pass.signals, universe);
    FiltersSubBag(g, pass.filters, signalled);
    var (kept, dropped) := ApplyFilters(g, pass.filters, signalled);
    SortRanks(A, kept);
    var scores := Truncate(SortRanked(A, kept), pass.config.topK);
    assert SortRanked(A, kept) == scores + SortRanked(A, kept)[|scores|..];
    assert multiset(scores) <= multiset(SortRanked(A, kept));
    DistinctByBag(scores, signalled);
    CutIsBelow(A, kept, pass.config.topK);
    var applied := (if pass.config.nodeSpecificity.Unadjusted? then [] else [DEGREE_SPECIFICITY])
      + SignalNames(pass.signals) + FilterNames(pass.filters);
    SynthsKeepScores(g, pass.synths, View(scores, dropped, [], iterations, applied));
  }
}
