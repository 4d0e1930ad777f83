/** Following edges backward is following the reversed edges forward, and following them both
    ways is following each edge and then its reverse. */
module PprDirection {
  import opened Numbers
  import opened PprSpec
  import opened PprIndexes

  function Reversed(e: Edge): Edge {
    Edge(e.to, e.from, e.category)
  }

  function ReverseAll(edges: seq<Edge>): seq<Edge> {
    if edges == [] then []
    else ReverseAll(edges[..|edges| - 1]) + [Reversed(edges[|edges| - 1])]
  }

  /** Each edge followed by its reverse. */
  function DoubleAll(edges: seq<Edge>): seq<Edge> {
    if edges == [] then []
    else
      var e := edges[|edges| - 1];
      DoubleAll(edges[..|edges| - 1]) + [e] + [Reversed(e)]
  }

  lemma EventsSnoc<N>(A: Arith<N>, c: Config<N>, idx: map<NodeId, nat>, edges: seq<Edge>, e: Edge)
    ensures Events(A, c, idx, edges + [e]) == Events(A, c, idx, edges) + EdgeEvents(A, c, idx, e)
  {
    assert (edges + [e])[..|edges|] == edges;
  }

  lemma {:induction false} BackwardEvents<N>(A: Arith<N>, c: Config<N>, idx: map<NodeId, nat>, edges: seq<Edge>)
    ensures Events(A, c.(direction := Backward), idx, edges)
         == Events(A, c.(direction := Forward), idx, ReverseAll(edges))
  {
    if edges == [] {
    } else {
      var init, e := edges[..|edges| - 1], edges[|edges| - 1];
      BackwardEvents(A, c, idx, init);
      EventsSnoc(A, c.(direction := Forward), idx, ReverseAll(init), Reversed(e));
    }
  }

  lemma UndirectedEdge<N>(A: Arith<N>, c: Config<N>, idx: map<NodeId, nat>, e: Edge)
    ensures EdgeEvents(A, c.(direction := Undirected), idx, e)
         == EdgeEvents(A, c.(direction := Forward), idx, e)
          + EdgeEvents(A, c.(direction := Forward), idx, Reversed(e))
  {
  }

  lemma {:induction false} UndirectedEvents<N>(A: Arith<N>, c: Config<N>, idx: map<NodeId, nat>, edges: seq<Edge>)
    ensures Events(A, c.(direction := Undirected), idx, edges)
         == Events(A, c.(direction := Forward), idx, DoubleAll(edges))
  {
    if edges == [] {
    } else {
      var init, e := edges[..|edges| - 1], edges[|edges| - 1];
      UndirectedEvents(A, c, idx, init);
      UndirectedEdge(A, c, idx, e);
      EventsSnoc(A, c.(direction := Forward), idx, DoubleAll(init), e);
      EventsSnoc(A, c.(direction := Forward), idx, DoubleAll(init) + [e], Reversed(e));
    }
  }

  /** The same incidences give the same index (but for its direction tag) and the same vectors. */
  lemma SameEventsSameAnswers<N>(A: Arith<N>, nodes: seq<NodeId>, c: Config<N>, edges: seq<Edge>, c': Config<N>,
                                 edges': seq<Edge>)
    requires c' == c.(direction := c'.direction)
    requires Events(A, c, IdToIdx(nodes), edges) == Events(A, c', IdToIdx(nodes), edges')
    ensures forall ix: PprIndex<N> :: BuiltFrom(A, ix, nodes, edges, c) ==>
      BuiltFrom(A, ix.(direction := c'.direction), nodes, edges', c')
    ensures forall seeds :: HeadVector(A, nodes, edges, seeds, c) == HeadVector(A, nodes, edges', seeds, c')
  {
    forall ix: PprIndex<N> | BuiltFrom(A, ix, nodes, edges, c)
      ensures BuiltFrom(A, ix.(direction := c'.direction), nodes, edges', c')
    {
      var ix' := ix.(direction := c'.direction);
      forall i | 0 <= i < |nodes| ensures ix'.Row(i) == Incoming(Events(A, c', IdToIdx(nodes), edges'), i) {
        assert ix'.Row(i) == ix.Row(i);
      }
    }
  }

  lemma BackwardIsReversedForward<N>(A: Arith<N>, nodes: seq<NodeId>, edges: seq<Edge>, c: Config<N>)
    ensures forall ix: PprIndex<N> :: BuiltFrom(A, ix, nodes, edges, c.(direction := Backward)) ==>
      BuiltFrom(A, ix.(direction := Forward), nodes, ReverseAll(edges), c.(direction := Forward))
    ensures forall seeds :: HeadVector(A, nodes, edges, seeds, c.(direction := Backward))
                         == HeadVector(A, nodes, ReverseAll(edges), seeds, c.(direction := Forward))
  {
    BackwardEvents(A, c, IdToIdx(nodes), edges);
    SameEventsSameAnswers(A, nodes, c.(direction := Backward), edges, c.(direction := Forward), ReverseAll(edges));
  }

  lemma UndirectedIsDoubledForward<N>(A: Arith<N>, nodes: seq<NodeId>, edges: seq<Edge>, c: Config<N>)
    ensures forall ix: PprIndex<N> :: BuiltFrom(A, ix, nodes, edges, c.(direction := Undirected)) ==>
      BuiltFrom(A, ix.(direction := Forward), nodes, DoubleAll(edges), c.(direction := Forward))
    ensures forall seeds :: HeadVector(A, nodes, edges, seeds, c.(direction := Undirected))
                         == HeadVector(A, nodes, DoubleAll(edges), seeds, c.(direction := Forward))
  {
    UndirectedEvents(A, c, IdToIdx(nodes), edges);
    SameEventsSameAnswers(A, nodes, c.(direction := Undirected), edges, c.(direction := Forward), DoubleAll(edges));
  }
}
