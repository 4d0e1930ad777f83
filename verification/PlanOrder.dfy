/** The view does not depend on how the graph, the seeds or the candidates are listed. */
module PlanOrder {
  import opened Bags
  import opened Numbers
  import opened PprSpec
  import opened PprOrder
  import opened PprReorder
  import opened Plans
  import opened PlanProps
  import opened PlanRanking
  import opened PlanViews

  lemma {:induction false} DegreeIsTotal(edges: seq<Edge>, id: NodeId, f: Edge -> real)
    requires forall e {:trigger f(e)} :: f(e) == (if e.from == id then 1.0 else 0.0) + (if e.to == id then 1.0 else 0.0)
    ensures Degree(edges, id) as real == Total(edges, f)
  {
    if edges == [] {
    } else {
      DegreeIsTotal(edges[..|edges| - 1], id, f);
    }
  }

  lemma DegreePermutes(edges: seq<Edge>, edges': seq<Edge>, id: NodeId)
    requires multiset(edges) == multiset(edges')
    ensures Degree(edges, id) == Degree(edges', id)
  {
    var f: Edge -> real := (e: Edge) => (if e.from == id then 1.0 else 0.0) + (if e.to == id then 1.0 else 0.0);
    DegreeIsTotal(edges, id, f);
    DegreeIsTotal(edges', id, f);
    TotalPermutes(edges, edges', f);
  }

  /** Distinct ids and the same members make the same bag. */
  lemma SameBag(s: Ranked, t: Ranked)
    requires DistinctIds(s) && DistinctIds(t) && forall x :: x in s <==> x in t
    ensures multiset(s) == multiset(t)
  {
    NoRepeatsSameBag(s, t);
  }

  /** Two listings of one query. */
  ghost predicate SameQuery(g: Graph, seeds: seq<NodeId>, g': Graph, seeds': seq<NodeId>) {
    SameGraph(g.nodes, g.edges, g'.nodes, g'.edges) && multiset(seeds) == multiset(seeds')
  }

  lemma UniversesAlike(A: Arith<real>, c: Config<real>, nodes: seq<NodeId>, edges: seq<Edge>, v: seq<real>,
                       nodes': seq<NodeId>, edges': seq<Edge>, v': seq<real>)
    requires IsReal(A) && LnPositive(A) && SameGraph(nodes, edges, nodes', edges')
    requires v == [] <==> v' == []
    requires v != [] ==> Alike(nodes, v, nodes', v')
    ensures multiset(KeepPositive(A, Scored(A, c, nodes, edges, v)))
         == multiset(KeepPositive(A, Scored(A, c, nodes', edges', v')))
  {
    if v == [] {
      assert Scored(A, c, nodes, edges, v) == [] && Scored(A, c, nodes', edges', v') == [];
    } else {
      UniverseMembers(A, c, nodes, edges, v);
      UniverseMembers(A, c, nodes', edges', v');
      hide KeepPositive, Scored, IdToIdx, IsReal, LnPositive;
      forall id | id in nodes
        ensures FinalScore(A, c, edges, id, v[IdToIdx(nodes)[id]]) ==
          FinalScore(A, c, edges', id, v'[IdToIdx(nodes')[id]])
      {
        AtAlike(nodes, v, nodes', v', id);
        DegreePermutes(edges, edges', id);
      }
      SameBag(KeepPositive(A, Scored(A, c, nodes, edges, v)), KeepPositive(A, Scored(A, c, nodes', edges', v')));
    }
  }

  /** The activation is the same for every listing of the graph and the seeds. */
  lemma ActivationOrderIndependent(A: Arith<real>, c: Config<real>, g: Graph, seeds: seq<NodeId>, g': Graph,
                                   seeds': seq<NodeId>)
    requires IsReal(A) && LnPositive(A) && SameQuery(g, seeds, g', seeds')
    ensures FreshPass(A, NoHooks(c), g, seeds, Reached) == FreshPass(A, NoHooks(c), g', seeds', Reached)
  {
    SameEmptiness(g, seeds, g', seeds');
    OrderIndependent(A, c, g.nodes, g.edges, seeds, g'.nodes, g'.edges, seeds');
    var (v, m) := HeadVector(A, g.nodes, g.edges, seeds, c);
    var (v', m') := HeadVector(A, g'.nodes, g'.edges, seeds', c);
    UniversesAlike(A, c, g.nodes, g.edges, v, g'.nodes, g'.edges, v');
    var u := KeepPositive(A, Scored(A, c, g.nodes, g.edges, v));
    var u' := KeepPositive(A, Scored(A, c, g'.nodes, g'.edges, v'));
    hide HeadVector, KeepPositive, Scored, LnPositive, Alike;
    SameBagSameView(A, c, g, u, g', u', m);
  }

  lemma SameBagSameView(A: Arith<real>, c: Config<real>, g: Graph, u: Ranked, g': Graph, u': Ranked, m: nat)
    requires IsReal(A) && multiset(u) == multiset(u')
    ensures Finish(A, NoHooks(c), g, u, m) == Finish(A, NoHooks(c), g', u', m)
  {
    FinishNoHooks(A, c, g, u, m);
    FinishNoHooks(A, c, g', u', m);
    SortRanks(A, u);
    SortRanks(A, u');
  }

  lemma SameEmptiness(g: Graph, seeds: seq<NodeId>, g': Graph, seeds': seq<NodeId>)
    requires SameQuery(g, seeds, g', seeds')
    ensures (g.nodes == [] <==> g'.nodes == []) && (seeds == [] <==> seeds' == [])
  {
    SameBagSameSize(seeds, seeds');
    if g.nodes != [] {
      assert g.nodes[0] in g'.nodes;
    }
    if g'.nodes != [] {
      assert g'.nodes[0] in g.nodes;
    }
  }

  /** So is the ranking of candidates, in whatever order and however often they are given. */
  lemma RankOrderIndependent(A: Arith<real>, c: Config<real>, g: Graph, seeds: seq<NodeId>, ids: seq<NodeId>,
                             g': Graph, seeds': seq<NodeId>, ids': seq<NodeId>)
    requires IsReal(A) && LnPositive(A) && SameQuery(g, seeds, g', seeds')
    requires forall id :: id in ids <==> id in ids'
    ensures FreshPass(A, NoHooks(c), g, seeds, Candidates(ids)) ==
      FreshPass(A, NoHooks(c), g', seeds', Candidates(ids'))
  {
    SameEmptiness(g, seeds, g', seeds');
    if g.nodes != [] && seeds != [] {
      var room := |g.nodes| + |g'.nodes|;
      RankIsLookup(A, NoHooks(c), g, seeds, ids, room);
      RankIsLookup(A, NoHooks(c), g', seeds', ids', room);
      ActivationOrderIndependent(A, c.(topK := room), g, seeds, g', seeds');
      var s := FreshPass(A, NoHooks(c.(topK := room)), g, seeds, Reached);
      hide FreshPass, Finish, IsReal, LnPositive, ScoreOf, SortRanked;
      LookupsAlike(s.scores, ids, ids');
      var u, u' := Looked(s.scores, FirstOccurrences(ids)), Looked(s.scores, FirstOccurrences(ids'));
      SameBagSameView(A, c, g, u, g', u', s.iterations);
    }
  }

  function Looked(scores: Ranked, ids: seq<NodeId>): Ranked {
    seq(|ids|, i requires 0 <= i < |ids| => (ids[i], ScoreOf(scores, ids[i])))
  }

  lemma LookupsAlike(scores: Ranked, ids: seq<NodeId>, ids': seq<NodeId>)
    requires forall id :: id in ids <==> id in ids'
    ensures multiset(Looked(scores, FirstOccurrences(ids))) == multiset(Looked(scores, FirstOccurrences(ids')))
  {
    FirstOccurrencesOnce(ids);
    FirstOccurrencesOnce(ids');
    hide FirstOccurrences, ScoreOf;
    var a, b := FirstOccurrences(ids), FirstOccurrences(ids');
    LookedMembers(scores, a);
    LookedMembers(scores, b);
    SameBag(Looked(scores, a), Looked(scores, b));
  }

  lemma LookedMembers(scores: Ranked, ids: seq<NodeId>)
    requires Distinct(ids)
    ensures DistinctIds(Looked(scores, ids))
    ensures forall x: (NodeId, real) :: x in Looked(scores, ids) <==> x.0 in ids && x.1 == ScoreOf(scores, x.0)
  {
    hide ScoreOf;
    forall x: (NodeId, real) | x.0 in ids && x.1 == ScoreOf(scores, x.0) ensures x in Looked(scores, ids) {
      var i :| 0 <= i < |ids| && ids[i] == x.0;
      assert Looked(scores, ids)[i] == x;
    }
  }
}
