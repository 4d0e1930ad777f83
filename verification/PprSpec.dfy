/** Personalized PageRank: the data model and the functions the index code is proved against. */
module PprSpec {
  import opened Options
  import opened Numbers

  type NodeId = nat
  type CategoryId = nat

  datatype Edge = Edge(from: NodeId, to: NodeId, category: CategoryId)

  datatype Direction = Forward | Backward | Undirected

  datatype Specificity = Unadjusted | Idf | InverseIdf

  datatype Config<+N> = Config(
    damping: N,
    direction: Direction,
    edgeWeights: map<CategoryId, N>,
    nodeSpecificity: Specificity,
    topK: nat,
    maxIterations: nat,
    epsilon: N)

  /** One incidence: `source` sends to `target` with weight `w`. */
  datatype Event<+N> = Event(target: nat, source: nat, w: N)

  // ----- the graph read under a config

  /** Each id's slot; a repeated id keeps its last one. */
  function IdToIdx(nodes: seq<NodeId>): (m: map<NodeId, nat>)
    ensures forall id :: id in m <==> id in nodes
    ensures forall id :: id in m ==> m[id] < |nodes| && nodes[m[id]] == id
    ensures forall id, j :: id in m && m[id] < j < |nodes| ==> nodes[j] != id
  {
    if nodes == [] then map[]
    else
      var last := |nodes| - 1;
      assert nodes == nodes[..last] + [nodes[last]];
      IdToIdx(nodes[..last])[nodes[last] := last]
  }

  function WeightOf<N>(A: Arith<N>, c: Config<N>, category: CategoryId): N {
    if category in c.edgeWeights then c.edgeWeights[category] else A.one
  }

  /** The incidences one edge adds, in the order they are added. */
  function EdgeEvents<N>(A: Arith<N>, c: Config<N>, idx: map<NodeId, nat>, e: Edge): seq<Event<N>> {
    var w := WeightOf(A, c, e.category);
    if A.le(w, A.zero) || e.from !in idx || e.to !in idx then []
    else
      var f, t := idx[e.from], idx[e.to];
      match c.direction
      case Forward => [Event(t, f, w)]
      case Backward => [Event(f, t, w)]
      case Undirected => [Event(t, f, w), Event(f, t, w)]
  }

  function Events<N>(A: Arith<N>, c: Config<N>, idx: map<NodeId, nat>, edges: seq<Edge>): seq<Event<N>> {
    if edges == [] then []
    else Events(A, c, idx, edges[..|edges| - 1]) + EdgeEvents(A, c, idx, edges[|edges| - 1])
  }

  /** The simple form: what sends to slot `i`, in the order the edges came. */
  function Incoming<N>(evs: seq<Event<N>>, i: nat): seq<(nat, N)> {
    if evs == [] then []
    else
      var e := evs[|evs| - 1];
      Incoming(evs[..|evs| - 1], i) + (if e.target == i then [(e.source, e.w)] else [])
  }

  /** All weight leaving slot `j`, added in event order. */
  function OutWeight<N>(A: Arith<N>, evs: seq<Event<N>>, j: nat): N {
    if evs == [] then A.zero
    else
      var e := evs[|evs| - 1];
      var before := OutWeight(A, evs[..|evs| - 1], j);
      if e.source == j then A.add(before, e.w) else before
  }

  /** The slots of `outW` that compare equal to zero, ascending. */
  function DanglingOf<N>(A: Arith<N>, outW: seq<N>): (r: seq<nat>)
    ensures forall k :: 0 <= k < |r| ==> r[k] < |outW|
  {
    if outW == [] then []
    else
      var last := |outW| - 1;
      DanglingOf(A, outW[..last]) + (if A.eq(outW[last], A.zero) then [last] else [])
  }

  ghost predicate EventsIn<N>(evs: seq<Event<N>>, n: nat) {
    forall k :: 0 <= k < |evs| ==> evs[k].target < n && evs[k].source < n
  }

  lemma EdgeEventsInRange<N>(A: Arith<N>, c: Config<N>, idx: map<NodeId, nat>, n: nat, e: Edge)
    requires forall id :: id in idx ==> idx[id] < n
    ensures EventsIn(EdgeEvents(A, c, idx, e), n)
  {
  }

  lemma EventsInConcat<N>(a: seq<Event<N>>, b: seq<Event<N>>, n: nat)
    ensures EventsIn(a + b, n) <==> EventsIn(a, n) && EventsIn(b, n)
  {
    if EventsIn(a + b, n) {
      forall k | 0 <= k < |a| ensures a[k].target < n && a[k].source < n {
        assert (a + b)[k] == a[k];
      }
      forall k | 0 <= k < |b| ensures b[k].target < n && b[k].source < n {
        assert (a + b)[|a| + k] == b[k];
      }
    }
  }

  lemma {:induction false} EventsInRange<N>(A: Arith<N>, c: Config<N>, idx: map<NodeId, nat>, n: nat, edges: seq<Edge>)
    requires forall id :: id in idx ==> idx[id] < n
    ensures EventsIn(Events(A, c, idx, edges), n)
  {
    if edges == [] {
    } else {
      var init, last := edges[..|edges| - 1], edges[|edges| - 1];
      EventsInRange(A, c, idx, n, init);
      EdgeEventsInRange(A, c, idx, n, last);
      EventsInConcat(Events(A, c, idx, init), EdgeEvents(A, c, idx, last), n);
    }
  }

  lemma {:induction false} IncomingInRange<N>(evs: seq<Event<N>>, n: nat, i: nat)
    requires EventsIn(evs, n)
    ensures forall k :: 0 <= k < |Incoming(evs, i)| ==> Incoming(evs, i)[k].0 < n
  {
    if evs == [] {
    } else {
      IncomingInRange(evs[..|evs| - 1], n, i);
    }
  }

  // ----- the iteration

  /** What one run iterates over: who sends to each slot, the out-weights, the dangling slots,
      the personalization and the clamped damping. */
  datatype System<+N> = System(
    rows: seq<seq<(nat, N)>>, outW: seq<N>, dangling: seq<nat>, p: seq<N>, d: N)
  {
    ghost predicate Ok() {
      && |rows| == |outW| == |p|
      && (forall i, k :: 0 <= i < |rows| && 0 <= k < |rows[i]| ==> rows[i][k].0 < |p|)
      && (forall k :: 0 <= k < |dangling| ==> dangling[k] < |p|)
    }
  }

  function Clamp<N>(A: Arith<N>, x: N): N {
    if A.lt(x, A.dampingLow) then A.dampingLow
    else if A.lt(A.dampingHigh, x) then A.dampingHigh
    else x
  }

  /** The scores of the listed slots, in list order. */
  function Pick<N>(v: seq<N>, slots: seq<nat>): (r: seq<N>)
    requires forall k :: 0 <= k < |slots| ==> slots[k] < |v|
  {
    seq(|slots|, k requires 0 <= k < |slots| => v[slots[k]])
  }

  function Share<N>(A: Arith<N>, outW: seq<N>, v: seq<N>, inc: (nat, N)): N
    requires inc.0 < |outW| == |v|
  {
    if A.lt(A.zero, outW[inc.0]) then A.div(A.mul(v[inc.0], inc.1), outW[inc.0]) else A.zero
  }

  /** What each entry of a row sends. */
  function Shares<N>(A: Arith<N>, outW: seq<N>, v: seq<N>, row: seq<(nat, N)>): (r: seq<N>)
    requires |outW| == |v| && forall k :: 0 <= k < |row| ==> row[k].0 < |v|
  {
    seq(|row|, k requires 0 <= k < |row| => Share(A, outW, v, row[k]))
  }

  function DanglingSum<N>(A: Arith<N>, sys: System<N>, v: seq<N>): N
    requires sys.Ok() && |v| == |sys.p|
  {
    Fold(A, Pick(v, sys.dangling))
  }

  function Propagated<N>(A: Arith<N>, sys: System<N>, v: seq<N>, i: nat): N
    requires sys.Ok() && |v| == |sys.p| && i < |sys.p|
  {
    Fold(A, Shares(A, sys.outW, v, sys.rows[i]))
  }

  function NewScore<N>(A: Arith<N>, sys: System<N>, v: seq<N>, i: nat): N
    requires sys.Ok() && |v| == |sys.p| && i < |sys.p|
  {
    A.add(A.mul(A.sub(A.one, sys.d), sys.p[i]),
          A.mul(sys.d, A.add(Propagated(A, sys, v, i), A.mul(DanglingSum(A, sys, v), sys.p[i]))))
  }

  function Round<N>(A: Arith<N>, sys: System<N>, v: seq<N>): (r: seq<N>)
    requires sys.Ok() && |v| == |sys.p|
    ensures |r| == |v|
  {
    seq(|v|, i requires 0 <= i < |v| => NewScore(A, sys, v, i))
  }

  function Changes<N>(A: Arith<N>, u: seq<N>, v: seq<N>): (r: seq<N>)
    requires |u| == |v|
  {
    seq(|u|, i requires 0 <= i < |u| => A.abs(A.sub(u[i], v[i])))
  }

  /** The L1 norm of the change of one round. */
  function Change<N>(A: Arith<N>, u: seq<N>, v: seq<N>): N
    requires |u| == |v|
  {
    Fold(A, Changes(A, u, v))
  }

  /** At most `cap` rounds from `v`, stopping after the first whose change is below `epsilon`. */
  function Rounds<N>(A: Arith<N>, sys: System<N>, epsilon: N, v: seq<N>, cap: nat): (r: (seq<N>, nat))
    requires sys.Ok() && |v| == |sys.p|
    ensures |r.0| == |v| && r.1 <= cap
    decreases cap
  {
    if cap == 0 then (v, 0)
    else
      var v' := Round(A, sys, v);
      if A.lt(Change(A, v, v'), epsilon) then (v', 1)
      else
        var rest := Rounds(A, sys, epsilon, v', cap - 1);
        (rest.0, rest.1 + 1)
  }

  // ----- personalization

  /** How many of the listed seeds are nodes, repeats counted. */
  function Hits(idx: map<NodeId, nat>, seeds: seq<NodeId>): nat {
    if seeds == [] then 0
    else Hits(idx, seeds[..|seeds| - 1]) + (if seeds[|seeds| - 1] in idx then 1 else 0)
  }

  /** `weight` at every slot a seed names, `zero` elsewhere: a repeated seed is set once. */
  function Personalize<N>(zero: N, weight: N, idx: map<NodeId, nat>, n: nat, seeds: seq<NodeId>): (p: seq<N>)
    requires forall id :: id in idx ==> idx[id] < n
    ensures |p| == n
  {
    if seeds == [] then seq(n, _ => zero)
    else
      var p := Personalize(zero, weight, idx, n, seeds[..|seeds| - 1]);
      var s := seeds[|seeds| - 1];
      if s in idx then p[idx[s] := weight] else p
  }

  /** A weighted personalization: the last weight given for a slot stays. */
  function PersonalizeWeighted<N>(zero: N, idx: map<NodeId, nat>, n: nat, pers: seq<(NodeId, N)>): (p: seq<N>)
    requires forall id :: id in idx ==> idx[id] < n
    ensures |p| == n
  {
    if pers == [] then seq(n, _ => zero)
    else
      var p := PersonalizeWeighted(zero, idx, n, pers[..|pers| - 1]);
      var (s, w) := pers[|pers| - 1];
      if s in idx then p[idx[s] := w] else p
  }

  /** The last value listed for `id`. */
  function Lookup<N>(scores: seq<(NodeId, N)>, id: NodeId): Option<N> {
    if scores == [] then None
    else if scores[|scores| - 1].0 == id then Some(scores[|scores| - 1].1)
    else Lookup(scores[..|scores| - 1], id)
  }

  // ----- the simple form: list of lists, rebuilt per call

  function OutWeights<N>(A: Arith<N>, evs: seq<Event<N>>, n: nat): seq<N> {
    seq(n, j requires 0 <= j < n => OutWeight(A, evs, j))
  }

  function IncomingLists<N>(evs: seq<Event<N>>, n: nat): seq<seq<(nat, N)>> {
    seq(n, i requires 0 <= i < n => Incoming(evs, i))
  }

  function HeadSystem<N>(A: Arith<N>, nodes: seq<NodeId>, edges: seq<Edge>, c: Config<N>, p: seq<N>): (sys: System<N>)
    requires |p| == |nodes|
    ensures sys.Ok()
  {
    var idx := IdToIdx(nodes);
    var evs := Events(A, c, idx, edges);
    var n := |nodes|;
    EventsInRange(A, c, idx, n, edges);
    assert forall i :: 0 <= i < n ==> forall k :: 0 <= k < |Incoming(evs, i)| ==> Incoming(evs, i)[k].0 < n by {
      forall i | 0 <= i < n ensures forall k :: 0 <= k < |Incoming(evs, i)| ==> Incoming(evs, i)[k].0 < n {
        IncomingInRange(evs, n, i);
      }
    }
    var outW := OutWeights(A, evs, n);
    System(IncomingLists(evs, n), outW, DanglingOf(A, outW), p, Clamp(A, c.damping))
  }

  /** The vector and the round count computed straight from the graph, without any index. */
  function HeadVector<N>(A: Arith<N>, nodes: seq<NodeId>, edges: seq<Edge>, seeds: seq<NodeId>,
                         c: Config<N>): (seq<N>, nat)
  {
    var idx := IdToIdx(nodes);
    var hits := Hits(idx, seeds);
    if |nodes| == 0 || |seeds| == 0 || hits == 0 then ([], 0)
    else
      var p := Personalize(A.zero, A.div(A.one, A.ofNat(hits)), idx, |nodes|, seeds);
      Rounds(A, HeadSystem(A, nodes, edges, c, p), c.epsilon, p, c.maxIterations)
  }
}
