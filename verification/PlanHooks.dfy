/** What the hooks of a plan do to its view: signals and synth hooks one after the other, filters
    entry by entry. */
module PlanHooks {
  import opened Bags
  import opened Numbers
  import opened PprSpec
  import opened Plans
  import opened PlanProps
  import opened PlanRanking
  import opened Selections

  // ----- the universe

  /** The reached universe is the positive entries, in slot order. */
  lemma {:induction false} KeepPositiveSelects<N>(A: Arith<N>, s: seq<(NodeId, N)>) returns (places: seq<nat>)
    ensures Selects(s, places, KeepPositive(A, s))
    ensures forall i: nat :: i in places <==> i < |s| && A.lt(A.zero, s[i].1)
  {
    if s == [] {
      places := [];
    } else {
      var init, last := s[..|s| - 1], s[|s| - 1];
      assert s == init + [last];
      places := KeepPositiveSelects(A, init);
      SelectsSnoc(init, places, KeepPositive(A, init), last);
      if A.lt(A.zero, last.1) {
        places := places + [|init|];
      }
    }
  }

  /** Candidates are taken where they are listed first, in that order. */
  lemma {:induction false} FirstOccurrencesSelect(ids: seq<NodeId>) returns (places: seq<nat>)
    ensures Selects(ids, places, FirstOccurrences(ids))
    ensures forall i: nat :: i in places <==> i < |ids| && forall j :: 0 <= j < i ==> ids[j] != ids[i]
  {
    if ids == [] {
      places := [];
    } else {
      var init, last := ids[..|ids| - 1], ids[|ids| - 1];
      assert ids == init + [last];
      places := FirstOccurrencesSelect(init);
      SelectsSnoc(init, places, FirstOccurrences(init), last);
      if last !in init {
        places := places + [|init|];
      }
    }
  }

  // ----- filters

  /** Every filter keeps `x`. */
  ghost predicate Passes<N>(g: Graph, filters: seq<Filter<N>>, x: (NodeId, N)) {
    forall k :: 0 <= k < |filters| ==> filters[k].keep(g, x.0, x.1)
  }

  lemma PassesSnoc<N>(g: Graph, filters: seq<Filter<N>>, f: Filter<N>, x: (NodeId, N))
    ensures Passes(g, filters + [f], x) <==> Passes(g, filters, x) && f.keep(g, x.0, x.1)
  {
    if Passes(g, filters + [f], x) {
      forall k | 0 <= k < |filters| ensures filters[k].keep(g, x.0, x.1) {
        assert (filters + [f])[k] == filters[k];
      }
      assert (filters + [f])[|filters|] == f;
    }
  }

  /** A filter leaves the entries it keeps, in their order. */
  lemma {:induction false} RetainSelects<N>(g: Graph, f: Filter<N>, s: seq<(NodeId, N)>) returns (places: seq<nat>)
    ensures Selects(s, places, Retain(g, f, s))
    ensures forall i: nat :: i in places <==> i < |s| && f.keep(g, s[i].0, s[i].1)
  {
    if s == [] {
      places := [];
    } else {
      var init, last := s[..|s| - 1], s[|s| - 1];
      assert s == init + [last];
      places := RetainSelects(g, f, init);
      SelectsSnoc(init, places, Retain(g, f, init), last);
      if f.keep(g, last.0, last.1) {
        places := places + [|init|];
      }
    }
  }

  /** The filters leave the entries all of them keep, in their order. */
  lemma {:induction false} FiltersSelect<N>(g: Graph, filters: seq<Filter<N>>, s: seq<(NodeId, N)>)
    returns (places: seq<nat>)
    ensures Selects(s, places, ApplyFilters(g, filters, s).0)
    ensures forall i: nat :: i in places <==> i < |s| && Passes(g, filters, s[i])
  {
    if filters == [] {
      places := SelectsAll(s);
    } else {
      var init, f := filters[..|filters| - 1], filters[|filters| - 1];
      assert filters == init + [f];
      var outer := FiltersSelect(g, init, s);
      var before := ApplyFilters(g, init, s).0;
      var inner := RetainSelects(g, f, before);
      places := SelectsThrough(s, outer, before, inner, Retain(g, f, before));
      hide Retain, Passes;
      forall i: nat ensures i in places <==> i < |s| && Passes(g, filters, s[i]) {
        if i < |s| {
          PassesSnoc(g, init, f, s[i]);
        }
        if i in outer {
          var k :| 0 <= k < |outer| && outer[k] == i;
          assert k in inner <==> f.keep(g, before[k].0, before[k].1);
        }
      }
    }
  }

  /** The entries that pass every filter before `k` and fail filter `k`. */
  ghost function FailAt<N>(g: Graph, filters: seq<Filter<N>>, s: seq<(NodeId, N)>, k: nat): set<nat>
    requires k < |filters|
  {
    set i: nat | i < |s| && Passes(g, filters[..k], s[i]) && !filters[k].keep(g, s[i].0, s[i].1)
  }

  /** Filter `k` is reported with as many drops as entries reach and fail it. */
  lemma {:induction false} FilterDrops<N>(g: Graph, filters: seq<Filter<N>>, s: seq<(NodeId, N)>, k: nat)
    requires k < |filters|
    ensures ApplyFilters(g, filters, s).1[k] == (filters[k].name, |FailAt(g, filters, s, k)|)
  {
    var init, f := filters[..|filters| - 1], filters[|filters| - 1];
    if k < |init| {
      FilterDrops(g, init, s, k);
      assert init[..k] == filters[..k];
      assert FailAt(g, init, s, k) == FailAt(g, filters, s, k);
    } else {
      hide Retain, FailAt;
      LastDrops(g, filters, s);
    }
  }

  lemma LastDrops<N>(g: Graph, filters: seq<Filter<N>>, s: seq<(NodeId, N)>)
    requires filters != []
    ensures var n := |filters| - 1;
      |FailAt(g, filters, s, n)| == |ApplyFilters(g, filters[..n], s).0| - |ApplyFilters(g, filters, s).0|
  {
    var init, f := filters[..|filters| - 1], filters[|filters| - 1];
    assert filters == init + [f];
    var outer := FiltersSelect(g, init, s);
    var inner := FiltersSelect(g, filters, s);
    hide ApplyFilters, Passes, Selects;
    SelectedSize(s, outer, ApplyFilters(g, init, s).0);
    SelectedSize(s, inner, ApplyFilters(g, filters, s).0);
    forall i: nat | i < |s| ensures Passes(g, filters, s[i]) <==> Passes(g, init, s[i]) && f.keep(g, s[i].0, s[i].1) {
      PassesSnoc(g, init, f, s[i]);
    }
    var before, after := PlaceSet(outer), PlaceSet(inner);
    assert after <= before;
    assert FailAt(g, filters, s, |init|) == before - after;
  }

  function PlaceSet(places: seq<nat>): set<nat> {
    set i: nat | i in places
  }

  lemma SelectedSize<T>(s: seq<T>, places: seq<nat>, r: seq<T>)
    requires Selects(s, places, r)
    ensures |PlaceSet(places)| == |r|
  {
    PlacesSize(places);
  }

  lemma {:induction false} RetainBag<N>(g: Graph, f: Filter<N>, s: seq<(NodeId, N)>, x: (NodeId, N))
    ensures multiset(Retain(g, f, s))[x] == if f.keep(g, x.0, x.1) then multiset(s)[x] else 0
  {
    if s == [] {
    } else {
      var init, last := s[..|s| - 1], s[|s| - 1];
      assert s == init + [last];
      RetainBag(g, f, init, x);
    }
  }

  /** An entry stays as often as it came when every filter keeps it, and goes otherwise. */
  lemma {:induction false} FiltersBag<N>(g: Graph, filters: seq<Filter<N>>, s: seq<(NodeId, N)>, x: (NodeId, N))
    ensures multiset(ApplyFilters(g, filters, s).0)[x] == if Passes(g, filters, x) then multiset(s)[x] else 0
  {
    if filters == [] {
    } else {
      var init, f := filters[..|filters| - 1], filters[|filters| - 1];
      assert filters == init + [f];
      FiltersBag(g, init, s, x);
      PassesSnoc(g, init, f, x);
      RetainBag(g, f, ApplyFilters(g, init, s).0, x);
    }
  }

  // ----- signals and synth hooks

  /** Each signal is handed what the one before left. */
  lemma {:induction false} SignalsChain<N>(g: Graph, signals: seq<Signal<N>>, scores: seq<(NodeId, N)>)
    returns (lists: seq<seq<(NodeId, N)>>)
    ensures |lists| == |signals| + 1 && lists[0] == scores && lists[|signals|] == ApplySignals(g, signals, scores)
    ensures forall k :: 0 <= k < |signals| ==> lists[k + 1] == signals[k].apply(g, lists[k])
  {
    if signals == [] {
      lists := [scores];
    } else {
      lists := SignalsChain(g, signals[..|signals| - 1], scores);
      lists := lists + [signals[|signals| - 1].apply(g, lists[|signals| - 1])];
    }
  }

  /** Each hook is handed the view with every earlier hook's cells, and adds its own behind them. */
  lemma {:induction false} SynthsChain<N>(g: Graph, synths: seq<Synth<N>>, view: View<N>) returns (views: seq<View<N>>)
    ensures |views| == |synths| + 1 && views[0] == view && views[|synths|] == ApplySynths(g, synths, view)
    ensures forall k :: 0 <= k < |synths| ==> AddsCells(g, synths[k], views[k], views[k + 1])
  {
    if synths == [] {
      views := [view];
    } else {
      var n := |synths| - 1;
      views := SynthsChain(g, synths[..n], view);
      views := views + [ApplySynths(g, synths, view)];
    }
  }

  ghost predicate AddsCells<N>(g: Graph, h: Synth<N>, v: View<N>, v': View<N>) {
    v' == View(v.scores, v.dropped, v.synth + h.synth(g, v), v.iterations, v.applied + [h.name])
  }

  // ----- the view

  /** The view before the synth hooks: what of `s` every filter keeps, sorted and cut, and each
      filter's drops. */
  ghost predicate Filtered<N>(A: Arith<N>, pass: Pass<N>, g: Graph, s: seq<(NodeId, N)>, places: seq<nat>,
                              kept: seq<(NodeId, N)>, view: View<N>)
  {
    && Selects(s, places, kept)
    && (forall i: nat :: i in places <==> i < |s| && Passes(g, pass.filters, s[i]))
    && view.scores == Truncate(SortRanked(A, kept), pass.config.topK)
    && |view.dropped| == |pass.filters|
    && (forall k :: 0 <= k < |pass.filters| ==>
      view.dropped[k] == (pass.filters[k].name, |FailAt(g, pass.filters, s, k)|))
    && view.synth == []
    && NamesApplied(pass, view.applied)
  }

  /** The degree specificity if it is on, then the signals and the filters, by name. */
  ghost predicate NamesApplied<N>(pass: Pass<N>, applied: seq<string>) {
    var first := if pass.config.nodeSpecificity.Unadjusted? then 0 else 1;
    && |applied| == first + |pass.signals| + |pass.filters|
    && (first == 1 ==> applied[0] == "degree_specificity")
    && (forall k :: 0 <= k < |pass.signals| ==> applied[first + k] == pass.signals[k].name)
    && (forall k :: 0 <= k < |pass.filters| ==> applied[first + |pass.signals| + k] == pass.filters[k].name)
  }

  function Applied<N>(pass: Pass<N>): seq<string> {
    (if pass.config.nodeSpecificity.Unadjusted? then [] else [DEGREE_SPECIFICITY])
    + SignalNames(pass.signals) + FilterNames(pass.filters)
  }

  lemma AppliedNames<N>(pass: Pass<N>)
    ensures NamesApplied(pass, Applied(pass))
  {
  }

  lemma FilteredView<N>(A: Arith<N>, pass: Pass<N>, g: Graph, s: seq<(NodeId, N)>, iterations: nat)
    returns (places: seq<nat>, kept: seq<(NodeId, N)>, view: View<N>)
    ensures kept == ApplyFilters(g, pass.filters, s).0
    ensures Filtered(A, pass, g, s, places, kept, view) && view.iterations == iterations
    ensures view == View(Truncate(SortRanked(A, kept), pass.config.topK), ApplyFilters(g, pass.filters, s).1, [],
                         iterations, Applied(pass))
  {
    places := FiltersSelect(g, pass.filters, s);
    AppliedNames(pass);
    hide ApplyFilters, SortRanked, Selects, Passes, FailAt, Applied, NamesApplied, Truncate;
    kept := ApplyFilters(g, pass.filters, s).0;
    view := View(Truncate(SortRanked(A, kept), pass.config.topK), ApplyFilters(g, pass.filters, s).1, [],
                 iterations, Applied(pass));
    forall k | 0 <= k < |pass.filters|
      ensures view.dropped[k] == (pass.filters[k].name, |FailAt(g, pass.filters, s, k)|)
    {
      FilterDrops(g, pass.filters, s, k);
    }
  }

  /** The view a pass over one vector ends with, hook by hook: the signals over the universe, the
      filters with the sort and the cut, and the synth hooks. */
  lemma FinishUnrolled<N>(A: Arith<N>, pass: Pass<N>, g: Graph, ranked: seq<(NodeId, N)>, iterations: nat)
    returns (lists: seq<seq<(NodeId, N)>>, places: seq<nat>, kept: seq<(NodeId, N)>, views: seq<View<N>>)
    ensures |lists| == |pass.signals| + 1 && lists[0] == ranked
    ensures forall k :: 0 <= k < |pass.signals| ==> lists[k + 1] == pass.signals[k].apply(g, lists[k])
    ensures |views| == |pass.synths| + 1
    ensures Filtered(A, pass, g, lists[|pass.signals|], places, kept, views[0]) && views[0].iterations == iterations
    ensures forall k :: 0 <= k < |pass.synths| ==> AddsCells(g, pass.synths[k], views[k], views[k + 1])
    ensures views[|pass.synths|] == Finish(A, pass, g, ranked, iterations)
  {
    lists := SignalsChain(g, pass.signals, ranked);
    hide ApplySignals, ApplyFilters, ApplySynths, SortRanked, Truncate, Filtered, AddsCells;
    var first;
    places, kept, first := FilteredView(A, pass, g, ApplySignals(g, pass.signals, ranked), iterations);
    views := SynthsChain(g, pass.synths, first);
  }

  /** The places of the entries of `s` that every filter keeps. */
  ghost function PassPlaces<N>(g: Graph, filters: seq<Filter<N>>, s: seq<(NodeId, N)>): set<nat> {
    set i: nat | i < |s| && Passes(g, filters, s[i])
  }

  /** Whatever is ranked is an entry of the signalled universe that every filter keeps. With room
      for all of those each is ranked as often as it came; without, none left out ranks before
      one that is ranked. */
  ghost predicate RanksKept(A: Arith<real>, pass: Pass<real>, g: Graph, s: Ranked, scores: Ranked) {
    var room := |PassPlaces(g, pass.filters, s)| <= pass.config.topK;
    && InRankOrder(A, scores)
    && |scores| == (if room then |PassPlaces(g, pass.filters, s)| else pass.config.topK)
    && (forall x :: x in scores ==> x in s && Passes(g, pass.filters, x))
    && (room ==> forall x {:trigger multiset(scores)[x]} ::
      multiset(scores)[x] == if Passes(g, pass.filters, x) then multiset(s)[x] else 0)
    && (forall x, y :: x in s && Passes(g, pass.filters, x) && x !in scores && y in scores ==> !Before(A, x, y))
  }

  /** `kept` is the bag of what every filter keeps. */
  ghost predicate IsKept(g: Graph, filters: seq<Filter<real>>, s: Ranked, kept: Ranked) {
    && |kept| == |PassPlaces(g, filters, s)|
    && forall x {:trigger multiset(kept)[x]} :: multiset(kept)[x] == if Passes(g, filters, x) then multiset(s)[x] else 0
  }

  lemma FiltersKeep(g: Graph, filters: seq<Filter<real>>, s: Ranked)
    ensures IsKept(g, filters, s, ApplyFilters(g, filters, s).0)
  {
    var kept := ApplyFilters(g, filters, s).0;
    var places := FiltersSelect(g, filters, s);
    SelectedSize(s, places, kept);
    assert PlaceSet(places) == PassPlaces(g, filters, s);
    hide ApplyFilters, Selects, PassPlaces, Passes;
    forall x {:trigger multiset(kept)[x]}
      ensures multiset(kept)[x] == if Passes(g, filters, x) then multiset(s)[x] else 0
    {
      FiltersBag(g, filters, s, x);
    }
  }

  lemma CutRanksKept(A: Arith<real>, pass: Pass<real>, g: Graph, s: Ranked)
    requires IsReal(A)
    ensures RanksKept(A, pass, g, s, Truncate(SortRanked(A, ApplyFilters(g, pass.filters, s).0), pass.config.topK))
  {
    var kept := ApplyFilters(g, pass.filters, s).0;
    var scores := Truncate(SortRanked(A, kept), pass.config.topK);
    CutIsBelow(A, kept, pass.config.topK);
    FiltersKeep(g, pass.filters, s);
    hide *;
    var cut: Ranked :| CutFrom(A, scores, cut, kept);
    SortRanks(A, kept);
    TruncateSize(SortRanked(A, kept), pass.config.topK);
    SameBagSameSize(SortRanked(A, kept), kept);
    HeadRanksKept(A, pass, g, s, kept, scores, cut);
  }

  lemma TruncateSize<T>(s: seq<T>, k: nat)
    ensures |Truncate(s, k)| == if |s| <= k then |s| else k
    ensures |s| <= k ==> Truncate(s, k) == s
  {
  }

  lemma HeadRanksKept(A: Arith<real>, pass: Pass<real>, g: Graph, s: Ranked, kept: Ranked, scores: Ranked, cut: Ranked)
    requires IsKept(g, pass.filters, s, kept) && CutFrom(A, scores, cut, kept) && InRankOrder(A, scores)
    requires |scores| == if |kept| <= pass.config.topK then |kept| else pass.config.topK
    requires |kept| <= pass.config.topK ==> multiset(scores) == multiset(kept)
    ensures RanksKept(A, pass, g, s, scores)
  {
    hide Passes, InRankOrder, Before, PassPlaces;
    forall x | x in scores ensures x in s && Passes(g, pass.filters, x) {
      assert x in multiset(scores);
      assert multiset(kept)[x] > 0;
    }
    forall x, y | x in s && Passes(g, pass.filters, x) && x !in scores && y in scores ensures !Before(A, x, y) {
      assert multiset(kept)[x] > 0 && multiset(scores)[x] == 0;
      assert x in multiset(cut);
    }
  }

  /** What a pass straight from the graph ranks. */
  lemma FreshRanksKept(A: Arith<real>, pass: Pass<real>, g: Graph, seeds: seq<NodeId>, universe: Universe)
    returns (lists: seq<Ranked>)
    requires IsReal(A)
    ensures var view := FreshPass(A, pass, g, seeds, universe);
      if g.nodes == [] || seeds == [] then view == View([], [], [], 0, [])
      else
        && |lists| == |pass.signals| + 1
        && lists[0] == Choose(A, universe, Scored(A, pass.config, g.nodes, g.edges,
                                                   HeadVector(A, g.nodes, g.edges, seeds, pass.config).0))
        && (forall k :: 0 <= k < |pass.signals| ==> lists[k + 1] == pass.signals[k].apply(g, lists[k]))
        && RanksKept(A, pass, g, lists[|pass.signals|], view.scores)
  {
    lists := [];
    if g.nodes != [] && seeds != [] {
      hide IsReal, HeadVector, Choose, Scored, Truncate, SortRanked, ApplyFilters, RanksKept, ApplySignals, ApplySynths;
      var run := HeadVector(A, g.nodes, g.edges, seeds, pass.config);
      var u := Choose(A, universe, Scored(A, pass.config, g.nodes, g.edges, run.0));
      lists := SignalsChain(g, pass.signals, u);
      var s := ApplySignals(g, pass.signals, u);
      CutRanksKept(A, pass, g, s);
      FinishScores(A, pass, g, u, run.1);
    }
  }

  lemma FinishScores<N>(A: Arith<N>, pass: Pass<N>, g: Graph, ranked: seq<(NodeId, N)>, iterations: nat)
    ensures Finish(A, pass, g, ranked, iterations).scores
         == Truncate(SortRanked(A, ApplyFilters(g, pass.filters, ApplySignals(g, pass.signals, ranked)).0),
                     pass.config.topK)
  {
    var filtered := ApplyFilters(g, pass.filters, ApplySignals(g, pass.signals, ranked));
    var applied := (if pass.config.nodeSpecificity.Unadjusted? then [] else [DEGREE_SPECIFICITY])
      + SignalNames(pass.signals) + FilterNames(pass.filters);
    SynthsKeepScores(g, pass.synths, View(Truncate(SortRanked(A, filtered.0), pass.config.topK), filtered.1, [],
                                          iterations, applied));
  }
}
