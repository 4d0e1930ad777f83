/** What the edges say a run computes: which incidence each edge adds, with which weight, and, over
    the reals, what one round sends from node to node. */
module PprEdges {
  import opened Options
  import opened Numbers
  import opened PprSpec
  import opened PprIndexes
  import opened PprRuns
  import opened Sums
  import opened PprReal
  import opened PprTheorems
  import opened PprOrder
  import opened PprReorder
  import opened PprWeighted
  import opened Selections

  // ----- the incidences, in any arithmetic

  /** The weight `e` is read with and the nodes it joins let it count. */
  predicate Counts<N>(A: Arith<N>, c: Config<N>, idx: map<NodeId, nat>, e: Edge) {
    && !A.le(if e.category in c.edgeWeights then c.edgeWeights[e.category] else A.one, A.zero)
    && e.from in idx && e.to in idx
  }

  /** The incidence along `e`, or against it, as it is read from the config. */
  function Incidence<N>(A: Arith<N>, c: Config<N>, idx: map<NodeId, nat>, e: Edge, against: bool): Event<N>
    requires Counts(A, c, idx, e)
  {
    var w := if e.category in c.edgeWeights then c.edgeWeights[e.category] else A.one;
    if against then Event(idx[e.from], idx[e.to], w) else Event(idx[e.to], idx[e.from], w)
  }

  /** A place in the edge list, and whether the edge is followed against its direction. */
  type Place = (nat, bool)

  ghost predicate Earlier(a: Place, b: Place) {
    a.0 < b.0 || (a.0 == b.0 && !a.1 && b.1)
  }

  ghost predicate Eligible<N>(A: Arith<N>, c: Config<N>, idx: map<NodeId, nat>, edges: seq<Edge>, p: Place) {
    && p.0 < |edges| && Counts(A, c, idx, edges[p.0])
    && (if p.1 then c.direction != Forward else c.direction != Backward)
  }

  /** `evs` are the incidences of `edges` at the `places`: in edge order, an edge before its
      reverse, and every eligible one. */
  ghost predicate ReadAt<N>(A: Arith<N>, c: Config<N>, idx: map<NodeId, nat>, edges: seq<Edge>, places: seq<Place>,
                            evs: seq<Event<N>>)
  {
    && |evs| == |places|
    && (forall j, k :: 0 <= j < k < |places| ==> Earlier(places[j], places[k]))
    && (forall k :: 0 <= k < |places| ==> Eligible(A, c, idx, edges, places[k]))
    && (forall k :: 0 <= k < |places| ==> evs[k] == Incidence(A, c, idx, edges[places[k].0], places[k].1))
    && (forall p: Place :: Eligible(A, c, idx, edges, p) ==> p in places)
  }

  /** The places one edge adds. */
  function PlacesOf(direction: Direction, i: nat): seq<Place> {
    match direction
    case Forward => [(i, false)]
    case Backward => [(i, true)]
    case Undirected => [(i, false), (i, true)]
  }

  lemma {:induction false} EventsAreRead<N>(A: Arith<N>, c: Config<N>, idx: map<NodeId, nat>, edges: seq<Edge>)
    returns (places: seq<Place>)
    ensures ReadAt(A, c, idx, edges, places, Events(A, c, idx, edges))
  {
    if edges == [] {
      places := [];
    } else {
      var init, e := edges[..|edges| - 1], edges[|edges| - 1];
      var before := EventsAreRead(A, c, idx, init);
      places := before + (if Counts(A, c, idx, e) then PlacesOf(c.direction, |init|) else []);
      assert edges == init + [e];
      ReadSnoc(A, c, idx, init, before, Events(A, c, idx, init), e);
    }
  }

  lemma EdgeIsRead<N>(A: Arith<N>, c: Config<N>, idx: map<NodeId, nat>, e: Edge, i: nat)
    ensures if Counts(A, c, idx, e) then
        var (evs, places) := (EdgeEvents(A, c, idx, e), PlacesOf(c.direction, i));
        && |evs| == |places|
        && forall k :: 0 <= k < |places| ==> evs[k] == Incidence(A, c, idx, e, places[k].1)
      else EdgeEvents(A, c, idx, e) == []
  {
  }

  lemma ReadSnoc<N>(A: Arith<N>, c: Config<N>, idx: map<NodeId, nat>, edges: seq<Edge>, places: seq<Place>,
                    evs: seq<Event<N>>, e: Edge)
    requires ReadAt(A, c, idx, edges, places, evs)
    ensures var places' := places + (if Counts(A, c, idx, e) then PlacesOf(c.direction, |edges|) else []);
      ReadAt(A, c, idx, edges + [e], places', evs + EdgeEvents(A, c, idx, e))
  {
    EdgeIsRead(A, c, idx, e, |edges|);
    hide Counts, Incidence, EdgeEvents;
    var places' := places + (if Counts(A, c, idx, e) then PlacesOf(c.direction, |edges|) else []);
    forall p: Place | Eligible(A, c, idx, edges + [e], p) ensures p in places' {
      if p.0 < |edges| {
        assert Eligible(A, c, idx, edges, p);
      } else {
        assert p == (|edges|, p.1);
        assert p in PlacesOf(c.direction, |edges|);
      }
    }
  }

  /** What sends to a slot is the incidences with that target, in order. */
  lemma {:induction false} IncomingSelects<N>(evs: seq<Event<N>>, i: nat) returns (places: seq<nat>, to: seq<Event<N>>)
    ensures Selects(evs, places, to)
    ensures forall k: nat :: k in places <==> k < |evs| && evs[k].target == i
    ensures |Incoming(evs, i)| == |to|
    ensures forall k :: 0 <= k < |to| ==> Incoming(evs, i)[k] == (to[k].source, to[k].w)
  {
    if evs == [] {
      places, to := [], [];
    } else {
      hide Selects;
      var init, e := evs[..|evs| - 1], evs[|evs| - 1];
      assert evs == init + [e];
      places, to := IncomingSelects(init, i);
      SelectsSnoc(init, places, to, e);
      if e.target == i {
        places, to := places + [|init|], to + [e];
      }
    }
  }

  /** `sums` are the running sums of the weights of `evs`, from zero. */
  ghost predicate AddsUp<N>(A: Arith<N>, evs: seq<Event<N>>, sums: seq<N>) {
    && |sums| == |evs| + 1 && sums[0] == A.zero
    && forall k :: 0 <= k < |evs| ==> sums[k + 1] == A.add(sums[k], evs[k].w)
  }

  lemma AddsUpSnoc<N>(A: Arith<N>, evs: seq<Event<N>>, sums: seq<N>, e: Event<N>)
    requires AddsUp(A, evs, sums)
    ensures AddsUp(A, evs + [e], sums + [A.add(sums[|evs|], e.w)])
  {
  }

  /** The weight leaving a slot is that of the incidences with that source, added in order. */
  lemma {:induction false} OutWeightAdds<N>(A: Arith<N>, evs: seq<Event<N>>, j: nat)
    returns (places: seq<nat>, from: seq<Event<N>>, sums: seq<N>)
    ensures Selects(evs, places, from)
    ensures forall k: nat :: k in places <==> k < |evs| && evs[k].source == j
    ensures AddsUp(A, from, sums) && |sums| == |from| + 1 && sums[|from|] == OutWeight(A, evs, j)
  {
    if evs == [] {
      places, from, sums := [], [], [A.zero];
    } else {
      hide Selects, AddsUp;
      var init, e := evs[..|evs| - 1], evs[|evs| - 1];
      assert evs == init + [e];
      places, from, sums := OutWeightAdds(A, init, j);
      SelectsSnoc(init, places, from, e);
      if e.source == j {
        AddsUpSnoc(A, from, sums, e);
        places, from, sums := places + [|init|], from + [e], sums + [A.add(sums[|from|], e.w)];
      }
    }
  }

  // ----- the weights between nodes, over the reals

  /** What `e` lets through: its category's weight, 1 when the config names none, and nothing
      when that is not positive. */
  function Lets(c: Config<real>, e: Edge): real {
    var w := if e.category in c.edgeWeights then c.edgeWeights[e.category] else 1.0;
    if w > 0.0 then w else 0.0
  }

  /** What `e` carries from `a` to `b`; an undirected edge carries both ways, so a self-loop twice. */
  function Carries(c: Config<real>, e: Edge, a: NodeId, b: NodeId): real {
    (if c.direction != Backward && e.from == a && e.to == b then Lets(c, e) else 0.0)
    + (if c.direction != Forward && e.from == b && e.to == a then Lets(c, e) else 0.0)
  }

  function Carrying(c: Config<real>, edges: seq<Edge>, a: NodeId, b: NodeId): (r: seq<real>) {
    seq(|edges|, k requires 0 <= k < |edges| => Carries(c, edges[k], a, b))
  }

  /** All the weight from `a` to `b`. */
  function Between(c: Config<real>, edges: seq<Edge>, a: NodeId, b: NodeId): real {
    Sum(Carrying(c, edges, a, b))
  }

  /** The last slot of a node id is the one that counts. */
  predicate LastOf(nodes: seq<NodeId>, i: nat)
    requires i < |nodes|
  {
    forall j :: i < j < |nodes| ==> nodes[j] != nodes[i]
  }

  /** The weight from slot `j` to slot `i`. */
  function FromTo(c: Config<real>, nodes: seq<NodeId>, edges: seq<Edge>, j: nat, i: nat): real
    requires i < |nodes| && j < |nodes|
  {
    if LastOf(nodes, j) && LastOf(nodes, i) then Between(c, edges, nodes[j], nodes[i]) else 0.0
  }

  /** All the weight that leaves slot `j`. */
  function Leaving(c: Config<real>, nodes: seq<NodeId>, edges: seq<Edge>, j: nat): real
    requires j < |nodes|
  {
    Sum(seq(|nodes|, i requires 0 <= i < |nodes| => FromTo(c, nodes, edges, j, i)))
  }

  /** What slot `j` sends to slot `i`: its score, shared out by weight. */
  function Sends(c: Config<real>, nodes: seq<NodeId>, edges: seq<Edge>, v: seq<real>, j: nat, i: nat): real
    requires i < |nodes| == |v| && j < |nodes|
  {
    var out := Leaving(c, nodes, edges, j);
    if out > 0.0 then v[j] / out * FromTo(c, nodes, edges, j, i) else 0.0
  }

  /** All that slot `i` is sent. */
  function SentTo(c: Config<real>, nodes: seq<NodeId>, edges: seq<Edge>, v: seq<real>, i: nat): real
    requires i < |nodes| == |v|
  {
    Sum(seq(|nodes|, j requires 0 <= j < |nodes| => Sends(c, nodes, edges, v, j, i)))
  }

  /** The scores of the slots nothing leaves. */
  function Stuck(c: Config<real>, nodes: seq<NodeId>, edges: seq<Edge>, v: seq<real>): real
    requires |nodes| == |v|
  {
    Sum(seq(|nodes|, j requires 0 <= j < |nodes| => if Leaving(c, nodes, edges, j) == 0.0 then v[j] else 0.0))
  }

  // ----- what the incidences carry from slot to slot

  function Carried(evs: seq<Event<real>>, s: nat, t: nat): real {
    if evs == [] then 0.0
    else
      var e := evs[|evs| - 1];
      Carried(evs[..|evs| - 1], s, t) + (if e.source == s && e.target == t then e.w else 0.0)
  }

  lemma {:induction false} CarriedConcat(a: seq<Event<real>>, b: seq<Event<real>>, s: nat, t: nat)
    ensures Carried(a + b, s, t) == Carried(a, s, t) + Carried(b, s, t)
  {
    if b == [] {
      assert a + b == a;
    } else {
      CarriedConcat(a, b[..|b| - 1], s, t);
      assert (a + b)[..|a + b| - 1] == a + b[..|b| - 1];
    }
  }

  lemma CarriedByOne(x: Event<real>, s: nat, t: nat)
    ensures Carried([x], s, t) == if x.source == s && x.target == t then x.w else 0.0
  {
    assert [x][..0] == [];
  }

  lemma CarriedByTwo(x: Event<real>, y: Event<real>, s: nat, t: nat)
    ensures Carried([x, y], s, t) == Carried([x], s, t) + Carried([y], s, t)
  {
    assert [x, y] == [x] + [y];
    CarriedConcat([x], [y], s, t);
  }

  /** What leaves `s`, by target. */
  function OutRow(evs: seq<Event<real>>, n: nat, s: nat): (r: seq<real>) {
    seq(n, t requires 0 <= t < n => Carried(evs, s, t))
  }

  lemma {:induction false} OutIsCarried(evs: seq<Event<real>>, n: nat, s: nat)
    requires EventsIn(evs, n) && s < n
    ensures Out(evs, n)[s] == Sum(OutRow(evs, n, s))
  {
    if evs == [] {
      SumZero(OutRow(evs, n, s));
    } else {
      var init, e := evs[..|evs| - 1], evs[|evs| - 1];
      OutIsCarried(init, n, s);
      var before, after := OutRow(init, n, s), OutRow(evs, n, s);
      hide Sum;
      if e.source == s {
        assert after == before[e.target := before[e.target] + e.w];
        SumUpdate(before, e.target, before[e.target] + e.w);
      } else {
        assert after == before;
      }
    }
  }

  /** What reaches `t`, by source. */
  function InRow(evs: seq<Event<real>>, n: nat, c: seq<real>, t: nat): (r: seq<real>)
    requires |c| == n
  {
    seq(n, s requires 0 <= s < n => Prod(c[s], Carried(evs, s, t)))
  }

  lemma {:induction false} PushIsCarried(evs: seq<Event<real>>, n: nat, c: seq<real>, t: nat)
    requires EventsIn(evs, n) && t < n && |c| == n
    ensures Push(evs, n, c)[t] == Sum(InRow(evs, n, c, t))
  {
    if evs == [] {
      SumZero(InRow(evs, n, c, t));
    } else {
      var init, e := evs[..|evs| - 1], evs[|evs| - 1];
      PushIsCarried(init, n, c, t);
      var before, after := InRow(init, n, c, t), InRow(evs, n, c, t);
      ProdLaws(c[e.source], Carried(init, e.source, t), e.w);
      hide Sum, Prod;
      if e.target == t {
        var x := before[e.source] + Prod(c[e.source], e.w);
        assert after == before[e.source := x];
        SumUpdate(before, e.source, x);
      } else {
        assert after == before;
      }
    }
  }

  // ----- the two agree

  lemma EdgeCarries(A: Arith<real>, c: Config<real>, idx: map<NodeId, nat>, n: nat, e: Edge, a: NodeId, b: NodeId)
    requires IsReal(A) && Injective(idx, n) && a in idx && b in idx
    ensures Carried(EdgeEvents(A, c, idx, e), idx[a], idx[b]) == Carries(c, e, a, b)
  {
    EdgeCarried(A, c, idx, e, idx[a], idx[b]);
  }

  lemma EdgeCarried(A: Arith<real>, c: Config<real>, idx: map<NodeId, nat>, e: Edge, s: nat, t: nat)
    requires IsReal(A)
    ensures Carried(EdgeEvents(A, c, idx, e), s, t) == if e.from !in idx || e.to !in idx then 0.0 else
        (if c.direction != Backward && idx[e.from] == s && idx[e.to] == t then Lets(c, e) else 0.0)
        + (if c.direction != Forward && idx[e.from] == t && idx[e.to] == s then Lets(c, e) else 0.0)
  {
    if e.from in idx && e.to in idx {
      var w := if e.category in c.edgeWeights then c.edgeWeights[e.category] else 1.0;
      var along, against := Event(idx[e.to], idx[e.from], w), Event(idx[e.from], idx[e.to], w);
      CarriedByOne(along, s, t);
      CarriedByOne(against, s, t);
      CarriedByTwo(along, against, s, t);
    }
  }

  lemma BetweenSnoc(c: Config<real>, edges: seq<Edge>, e: Edge, a: NodeId, b: NodeId)
    ensures Between(c, edges + [e], a, b) == Between(c, edges, a, b) + Carries(c, e, a, b)
  {
    hide Carries;
    assert Carrying(c, edges + [e], a, b) == Carrying(c, edges, a, b) + [Carries(c, e, a, b)];
    SumSnoc(Carrying(c, edges, a, b), Carries(c, e, a, b));
  }

  /** The incidences carry from slot to slot what the edges carry from node to node. */
  lemma {:induction false} EventsCarry(A: Arith<real>, c: Config<real>, idx: map<NodeId, nat>, n: nat,
                                       edges: seq<Edge>, a: NodeId, b: NodeId)
    requires IsReal(A) && Injective(idx, n) && a in idx && b in idx
    ensures Carried(Events(A, c, idx, edges), idx[a], idx[b]) == Between(c, edges, a, b)
  {
    if edges == [] {
    } else {
      hide IsReal, EdgeEvents, Carries, Carried, Between;
      var init, e := edges[..|edges| - 1], edges[|edges| - 1];
      EventsCarry(A, c, idx, n, init, a, b);
      EdgeCarries(A, c, idx, n, e, a, b);
      CarriedConcat(Events(A, c, idx, init), EdgeEvents(A, c, idx, e), idx[a], idx[b]);
      BetweenSnoc(c, init, e, a, b);
      assert edges == init + [e];
      assert Events(A, c, idx, edges) == Events(A, c, idx, init) + EdgeEvents(A, c, idx, e);
      hide *;
    }
  }

  /** No incidence touches a slot that is no node's. */
  lemma {:induction false} DeadCarriesNothing(A: Arith<real>, c: Config<real>, idx: map<NodeId, nat>, edges: seq<Edge>,
                                              s: nat, t: nat)
    requires IsReal(A)
    requires (forall id :: id in idx ==> idx[id] != s) || (forall id :: id in idx ==> idx[id] != t)
    ensures Carried(Events(A, c, idx, edges), s, t) == 0.0
  {
    if edges == [] {
    } else {
      var init, e := edges[..|edges| - 1], edges[|edges| - 1];
      DeadCarriesNothing(A, c, idx, init, s, t);
      CarriedConcat(Events(A, c, idx, init), EdgeEvents(A, c, idx, e), s, t);
      EdgeCarried(A, c, idx, e, s, t);
    }
  }

  lemma LiveIsLast(nodes: seq<NodeId>, i: nat)
    requires i < |nodes|
    ensures LastOf(nodes, i) ==> IdToIdx(nodes)[nodes[i]] == i
    ensures !LastOf(nodes, i) ==> forall id :: id in IdToIdx(nodes) ==> IdToIdx(nodes)[id] != i
  {
    var k := IdToIdx(nodes)[nodes[i]];
    assert nodes[k] == nodes[i];
    if LastOf(nodes, i) {
      assert nodes[i] == nodes[k];
    }
  }

  /** The weight the run's incidences carry from slot to slot is the weight between the nodes. */
  lemma CarriedIsFromTo(A: Arith<real>, c: Config<real>, nodes: seq<NodeId>, edges: seq<Edge>, j: nat, i: nat)
    requires IsReal(A) && i < |nodes| && j < |nodes|
    ensures Carried(Events(A, c, IdToIdx(nodes), edges), j, i) == FromTo(c, nodes, edges, j, i)
  {
    var idx := IdToIdx(nodes);
    LiveIsLast(nodes, i);
    LiveIsLast(nodes, j);
    SlotsInjective(nodes);
    if LastOf(nodes, j) && LastOf(nodes, i) {
      EventsCarry(A, c, idx, |nodes|, edges, nodes[j], nodes[i]);
    } else {
      hide LastOf;
      DeadCarriesNothing(A, c, idx, edges, j, i);
    }
  }

  // ----- one round

  lemma LeavingIsOut(A: Arith<real>, c: Config<real>, nodes: seq<NodeId>, edges: seq<Edge>, j: nat)
    requires IsReal(A) && j < |nodes|
    ensures var evs := Events(A, c, IdToIdx(nodes), edges);
      EventsIn(evs, |nodes|) && Out(evs, |nodes|)[j] == Leaving(c, nodes, edges, j)
  {
    var evs := Events(A, c, IdToIdx(nodes), edges);
    EventsInRange(A, c, IdToIdx(nodes), |nodes|, edges);
    OutIsCarried(evs, |nodes|, j);
    hide IsReal, Events, EventsIn, Out, Carried, FromTo, Sum;
    forall i | 0 <= i < |nodes| ensures Carried(evs, j, i) == FromTo(c, nodes, edges, j, i) {
      CarriedIsFromTo(A, c, nodes, edges, j, i);
    }
    assert OutRow(evs, |nodes|, j) == seq(|nodes|, i requires 0 <= i < |nodes| => FromTo(c, nodes, edges, j, i));
  }

  lemma SendsIsProd(c: Config<real>, nodes: seq<NodeId>, edges: seq<Edge>, outW: seq<real>, v: seq<real>, j: nat,
                    i: nat)
    requires i < |nodes| == |v| == |outW| && j < |nodes| && outW[j] == Leaving(c, nodes, edges, j)
    ensures Prod(Coefs(outW, v)[j], FromTo(c, nodes, edges, j, i)) == Sends(c, nodes, edges, v, j, i)
  {
    hide Leaving, FromTo;
  }

  lemma PushIsSentTo(A: Arith<real>, c: Config<real>, nodes: seq<NodeId>, edges: seq<Edge>, v: seq<real>, i: nat)
    requires IsReal(A) && i < |nodes| == |v|
    ensures var evs := Events(A, c, IdToIdx(nodes), edges);
      EventsIn(evs, |v|) && Push(evs, |v|, Coefs(Out(evs, |v|), v))[i] == SentTo(c, nodes, edges, v, i)
  {
    var evs := Events(A, c, IdToIdx(nodes), edges);
    EventsInRange(A, c, IdToIdx(nodes), |nodes|, edges);
    var cs := Coefs(Out(evs, |v|), v);
    PushIsCarried(evs, |v|, cs, i);
    hide IsReal, Events, EventsIn, Out, Push, Carried, FromTo, Sum, Leaving, Sends, Prod, Coefs;
    forall j | 0 <= j < |v| ensures Prod(cs[j], Carried(evs, j, i)) == Sends(c, nodes, edges, v, j, i) {
      CarriedIsFromTo(A, c, nodes, edges, j, i);
      LeavingIsOut(A, c, nodes, edges, j);
      SendsIsProd(c, nodes, edges, Out(evs, |v|), v, j, i);
    }
    assert InRow(evs, |v|, cs, i) == seq(|nodes|, j requires 0 <= j < |nodes| => Sends(c, nodes, edges, v, j, i));
  }

  lemma DanglingIsStuck(A: Arith<real>, c: Config<real>, nodes: seq<NodeId>, edges: seq<Edge>, v: seq<real>)
    requires IsReal(A) && |nodes| == |v|
    ensures var evs := Events(A, c, IdToIdx(nodes), edges);
      EventsIn(evs, |v|) && Sum(DanglingPart(Out(evs, |v|), v)) == Stuck(c, nodes, edges, v)
  {
    var evs := Events(A, c, IdToIdx(nodes), edges);
    EventsInRange(A, c, IdToIdx(nodes), |nodes|, edges);
    hide IsReal, Events, EventsIn, Out, Sum, Leaving;
    forall j | 0 <= j < |v| ensures Out(evs, |v|)[j] == Leaving(c, nodes, edges, j) {
      LeavingIsOut(A, c, nodes, edges, j);
    }
    assert DanglingPart(Out(evs, |v|), v)
        == seq(|nodes|, j requires 0 <= j < |nodes| => if Leaving(c, nodes, edges, j) == 0.0 then v[j] else 0.0);
  }

  lemma StepAt(w: Walk, v: seq<real>, i: nat, sent: real, stuck: real)
    requires w.Ok() && i < |v| == |w.p|
    requires sent == Push(w.evs, |v|, Coefs(Out(w.evs, |v|), v))[i]
    requires stuck == Sum(DanglingPart(Out(w.evs, |v|), v))
    ensures Step(w, v)[i] == Blend(w.d, w.p[i], Received(sent, stuck, w.p[i]))
  {
    hide Push, Out, Coefs, DanglingPart, Sum, Walk.Ok, Blend, Received;
  }

  /** A slot's new score: `1 - d` of its personalization, and `d` of what it is sent and of its
      share of what is stuck. */
  function Mixed(d: real, p: real, sent: real, stuck: real): real {
    (1.0 - d) * p + d * (sent + stuck * p)
  }

  lemma BlendOfReceived(d: real, p: real, sent: real, stuck: real)
    ensures Blend(d, p, Received(sent, stuck, p)) == Mixed(d, p, sent, stuck)
  {
  }

  /** The number between 0.01 and 0.99 nearest to the configured damping. */
  function Damping(c: Config<real>): real {
    if c.damping < 0.01 then 0.01 else if c.damping > 0.99 then 0.99 else c.damping
  }

  /** The damping used is in range, and nothing in range is nearer to the one asked for. */
  lemma ClampIsNearest(A: Arith<real>, x: real, y: real)
    requires IsReal(A) && 0.01 <= y <= 0.99
    ensures 0.01 <= Clamp(A, x) <= 0.99 && Abs(Clamp(A, x) - x) <= Abs(y - x)
  {
    assert A.lt(x, A.dampingLow) <==> x < 0.01;
    assert A.lt(A.dampingHigh, x) <==> 0.99 < x;
  }

  lemma HeadRound(A: Arith<real>, nodes: seq<NodeId>, edges: seq<Edge>, c: Config<real>, p: seq<real>, v: seq<real>)
    requires IsReal(A) && |nodes| == |p| == |v|
    ensures var w := WalkOf(A, nodes, edges, c, p);
      && w.Ok() && w.evs == Events(A, c, IdToIdx(nodes), edges) && w.p == p
      && w.d == Damping(c)
      && Round(A, HeadSystem(A, nodes, edges, c, p), v) == Step(w, v)
  {
    HeadRealizes(A, nodes, edges, c, p);
    hide Round, HeadSystem, Step, Walk.Ok;
    assert A.lt(c.damping, A.dampingLow) <==> c.damping < 0.01;
    assert A.lt(A.dampingHigh, c.damping) <==> 0.99 < c.damping;
  }

  /** One round from any vector `v`, said of the edges alone. */
  lemma RoundByEdges(A: Arith<real>, nodes: seq<NodeId>, edges: seq<Edge>, c: Config<real>, p: seq<real>, v: seq<real>,
                     i: nat)
    requires IsReal(A) && i < |nodes| == |p| == |v|
    ensures Round(A, HeadSystem(A, nodes, edges, c, p), v)[i]
         == Mixed(Damping(c), p[i], SentTo(c, nodes, edges, v, i), Stuck(c, nodes, edges, v))
  {
    hide *;
    var w := WalkOf(A, nodes, edges, c, p);
    HeadRound(A, nodes, edges, c, p, v);
    PushIsSentTo(A, c, nodes, edges, v, i);
    DanglingIsStuck(A, c, nodes, edges, v);
    StepAt(w, v, i, SentTo(c, nodes, edges, v, i), Stuck(c, nodes, edges, v));
    BlendOfReceived(w.d, p[i], SentTo(c, nodes, edges, v, i), Stuck(c, nodes, edges, v));
  }

  // ----- the whole run

  /** Where the seed list names a node; a node named twice counts twice. */
  function SeedPlaces(nodes: seq<NodeId>, seeds: seq<NodeId>): set<nat> {
    set k: nat | k < |seeds| && seeds[k] in nodes
  }

  /** Equal weights on the nodes that are seeds, one part for each place that names a node. */
  ghost predicate StartsFrom(nodes: seq<NodeId>, seeds: seq<NodeId>, p: seq<real>) {
    && |p| == |nodes| && SeedPlaces(nodes, seeds) != {}
    && forall i :: 0 <= i < |nodes| ==>
      p[i] == if LastOf(nodes, i) && nodes[i] in seeds then 1.0 / |SeedPlaces(nodes, seeds)| as real else 0.0
  }

  ghost predicate RoundOf(c: Config<real>, nodes: seq<NodeId>, edges: seq<Edge>, p: seq<real>, v: seq<real>,
                          v': seq<real>)
  {
    && |p| == |v| == |v'| == |nodes|
    && forall i :: 0 <= i < |nodes| ==>
      v'[i] == Mixed(Damping(c), p[i], SentTo(c, nodes, edges, v, i), Stuck(c, nodes, edges, v))
  }

  ghost predicate RoundAt(c: Config<real>, nodes: seq<NodeId>, edges: seq<Edge>, vs: seq<seq<real>>, k: nat)
    requires k < |vs| - 1
  {
    RoundOf(c, nodes, edges, vs[0], vs[k], vs[k + 1])
  }

  /** Round `k` changes the vector by less than `epsilon`. */
  ghost predicate Settles(vs: seq<seq<real>>, k: nat, epsilon: real)
    requires 0 < k < |vs|
  {
    |vs[k - 1]| == |vs[k]| && Norm(Minus(vs[k - 1], vs[k])) < epsilon
  }

  /** `vs` are the vectors of a run: round by round from the first, up to the first that changes by
      less than epsilon or to the cap. */
  ghost predicate RunOf(c: Config<real>, nodes: seq<NodeId>, edges: seq<Edge>, vs: seq<seq<real>>) {
    && 0 < |vs| <= c.maxIterations + 1
    && |vs[0]| == |nodes|
    && (forall k: nat :: k < |vs| - 1 ==> RoundAt(c, nodes, edges, vs, k))
    && (forall k: nat :: 0 < k < |vs| - 1 ==> !Settles(vs, k, c.epsilon))
    && (|vs| <= c.maxIterations ==> |vs| > 1 && Settles(vs, |vs| - 1, c.epsilon))
  }

  lemma SeedPlacesSnoc(nodes: seq<NodeId>, seeds: seq<NodeId>, x: NodeId)
    ensures SeedPlaces(nodes, seeds + [x]) == SeedPlaces(nodes, seeds) + (if x in nodes then {|seeds|} else {})
    ensures |seeds| !in SeedPlaces(nodes, seeds)
  {
  }

  lemma {:induction false} HitsArePlaces(nodes: seq<NodeId>, seeds: seq<NodeId>)
    ensures Hits(IdToIdx(nodes), seeds) == |SeedPlaces(nodes, seeds)|
  {
    hide IdToIdx;
    if seeds == [] {
      assert SeedPlaces(nodes, seeds) == {};
    } else {
      hide SeedPlaces;
      var init, x := seeds[..|seeds| - 1], seeds[|seeds| - 1];
      HitsArePlaces(nodes, init);
      assert seeds == init + [x];
      SeedPlacesSnoc(nodes, init, x);
    }
  }

  lemma SeedVectorStarts(nodes: seq<NodeId>, seeds: seq<NodeId>)
    requires Hits(IdToIdx(nodes), seeds) > 0
    ensures StartsFrom(nodes, seeds, SeedVector(nodes, seeds))
  {
    var p := SeedVector(nodes, seeds);
    HitsArePlaces(nodes, seeds);
    SeedVectorAt(nodes, seeds);
    hide Hits, SeedVector, SeedPlaces;
    assert SeedPlaces(nodes, seeds) != {};
    forall i: nat | i < |nodes|
      ensures p[i] == if LastOf(nodes, i) && nodes[i] in seeds then 1.0 / |SeedPlaces(nodes, seeds)| as real else 0.0
    {
      LiveIsLast(nodes, i);
      hide IdToIdx, LastOf;
      if LastOf(nodes, i) {
        assert p[IdToIdx(nodes)[nodes[i]]] == p[i];
      } else {
        assert IdToIdx(nodes)[nodes[i]] != i;
      }
    }
  }

  lemma StepIsRoundOf(A: Arith<real>, nodes: seq<NodeId>, edges: seq<Edge>, c: Config<real>, p: seq<real>,
                      v: seq<real>)
    requires IsReal(A) && |nodes| == |p| == |v|
    ensures var w := WalkOf(A, nodes, edges, c, p);
      w.Ok() && RoundOf(c, nodes, edges, p, v, Step(w, v))
  {
    HeadRound(A, nodes, edges, c, p, v);
    hide IsReal, Round, HeadSystem, Step, SentTo, Stuck, Damping, Mixed, Walk.Ok;
    forall i | 0 <= i < |nodes|
      ensures Step(WalkOf(A, nodes, edges, c, p), v)[i]
           == Mixed(Damping(c), p[i], SentTo(c, nodes, edges, v, i), Stuck(c, nodes, edges, v))
    {
      RoundByEdges(A, nodes, edges, c, p, v, i);
    }
  }

  function Vectors(w: Walk, m: nat): (vs: seq<seq<real>>)
    requires w.Ok()
    ensures |vs| == m + 1
  {
    seq(m + 1, k requires 0 <= k <= m => After(w, k))
  }

  /** What a run from a seed list returns, said of the graph and the config alone: nothing when no
      seed is a node, else the last vector of its run and the number of rounds. */
  lemma RunByEdges(A: Arith<real>, nodes: seq<NodeId>, edges: seq<Edge>, seeds: seq<NodeId>, c: Config<real>)
    returns (vs: seq<seq<real>>)
    requires IsReal(A)
    ensures if SeedPlaces(nodes, seeds) == {} then HeadVector(A, nodes, edges, seeds, c) == ([], 0)
      else
        && RunOf(c, nodes, edges, vs) && StartsFrom(nodes, seeds, vs[0])
        && HeadVector(A, nodes, edges, seeds, c) == (vs[|vs| - 1], |vs| - 1)
  {
    HitsArePlaces(nodes, seeds);
    vs := [];
    if SeedPlaces(nodes, seeds) != {} {
      hide *;
      var p := SeedVector(nodes, seeds);
      var w, m := HeadIsWalk(A, nodes, edges, seeds, c);
      vs := Vectors(w, m);
      SeedVectorStarts(nodes, seeds);
      WalkStepsByEdges(A, nodes, edges, c, p);
      WalkIsRunOf(nodes, edges, c, w, m);
    } else {
      hide IdToIdx;
    }
  }

  /** Every step of `w` is a round over the edges. */
  ghost predicate StepsByEdges(c: Config<real>, nodes: seq<NodeId>, edges: seq<Edge>, w: Walk)
    requires w.Ok()
  {
    forall v: seq<real> {:trigger Step(w, v)} :: |v| == |w.p| ==> RoundOf(c, nodes, edges, w.p, v, Step(w, v))
  }

  lemma WalkStepsByEdges(A: Arith<real>, nodes: seq<NodeId>, edges: seq<Edge>, c: Config<real>, p: seq<real>)
    requires IsReal(A) && |nodes| == |p|
    ensures var w := WalkOf(A, nodes, edges, c, p);
      w.Ok() && StepsByEdges(c, nodes, edges, w)
  {
    StepIsRoundOf(A, nodes, edges, c, p, p);
    hide IsReal, Walk.Ok, RoundOf, Step;
    forall v: seq<real> | |v| == |p| ensures RoundOf(c, nodes, edges, p, v, Step(WalkOf(A, nodes, edges, c, p), v)) {
      StepIsRoundOf(A, nodes, edges, c, p, v);
    }
  }

  lemma SettlesByChange(w: Walk, m: nat, k: nat, epsilon: real)
    requires w.Ok() && 0 < k <= m
    ensures Settles(Vectors(w, m), k, epsilon) <==> ChangeAt(w, k) < epsilon
  {
    hide Norm, Minus, After;
  }

  lemma VectorAt(w: Walk, m: nat, k: nat)
    requires w.Ok() && k <= m
    ensures Vectors(w, m)[k] == After(w, k)
  {
    hide Walk.Ok, After;
  }

  lemma AfterSteps(c: Config<real>, nodes: seq<NodeId>, edges: seq<Edge>, w: Walk, k: nat)
    requires w.Ok() && StepsByEdges(c, nodes, edges, w)
    ensures RoundOf(c, nodes, edges, After(w, 0), After(w, k), After(w, k + 1))
  {
    hide Walk.Ok, Step, RoundOf;
    assert After(w, k + 1) == Step(w, After(w, k));
  }

  lemma RoundsAt(c: Config<real>, nodes: seq<NodeId>, edges: seq<Edge>, w: Walk, m: nat, k: nat)
    requires w.Ok() && StepsByEdges(c, nodes, edges, w) && k < m
    ensures RoundAt(c, nodes, edges, Vectors(w, m), k)
  {
    hide Vectors, StepsByEdges, Walk.Ok, After, RoundOf;
    VectorAt(w, m, 0);
    VectorAt(w, m, k);
    VectorAt(w, m, k + 1);
    AfterSteps(c, nodes, edges, w, k);
  }

  lemma EndsOf(w: Walk, m: nat)
    requires w.Ok()
    ensures Vectors(w, m)[m] == After(w, m) && Vectors(w, m)[0] == w.p
  {
    StartsAtPrior(w);
    hide Vectors, Walk.Ok, After;
    VectorAt(w, m, 0);
    VectorAt(w, m, m);
  }

  lemma StopsUnfolded(w: Walk, epsilon: real, cap: nat, m: nat)
    requires w.Ok() && StopsAfter(w, epsilon, cap, m)
    ensures m <= cap && (m < cap ==> 0 < m && ChangeAt(w, m) < epsilon)
    ensures forall k :: 0 < k < m ==> ChangeAt(w, k) >= epsilon
  {
    hide ChangeAt;
  }

  lemma WalkIsRunOf(nodes: seq<NodeId>, edges: seq<Edge>, c: Config<real>, w: Walk, m: nat)
    requires w.Ok() && StepsByEdges(c, nodes, edges, w) && |w.p| == |nodes|
    requires StopsAfter(w, c.epsilon, c.maxIterations, m)
    ensures RunOf(c, nodes, edges, Vectors(w, m))
    ensures Vectors(w, m)[0] == w.p && Vectors(w, m)[m] == After(w, m)
  {
    hide Walk.Ok, After, RoundAt, Settles, ChangeAt, StopsAfter, Vectors, StepsByEdges, Restless;
    var vs := Vectors(w, m);
    EndsOf(w, m);
    StopsUnfolded(w, c.epsilon, c.maxIterations, m);
    forall k: nat | k < m ensures RoundAt(c, nodes, edges, vs, k) {
      RoundsAt(c, nodes, edges, w, m, k);
    }
    forall k: nat | 0 < k <= m ensures Settles(vs, k, c.epsilon) <==> ChangeAt(w, k) < c.epsilon {
      SettlesByChange(w, m, k, c.epsilon);
    }
  }

  // ----- a weighted run

  /** Place `k` is the last that lists a weight for `id`. */
  ghost predicate LastWeight(pers: seq<(NodeId, real)>, k: nat, id: NodeId) {
    k < |pers| && pers[k].0 == id && forall j :: k < j < |pers| ==> pers[j].0 != id
  }

  /** On each node the last weight listed for it, and nothing on the others. */
  ghost predicate StartsFromWeights(nodes: seq<NodeId>, pers: seq<(NodeId, real)>, p: seq<real>) {
    && |p| == |nodes|
    && (forall i, k: nat :: 0 <= i < |nodes| && LastOf(nodes, i) && LastWeight(pers, k, nodes[i]) ==> p[i] == pers[k].1)
    && (forall i :: 0 <= i < |nodes| && (!LastOf(nodes, i) || forall k :: 0 <= k < |pers| ==> pers[k].0 != nodes[i]) ==>
      p[i] == 0.0)
  }

  lemma {:induction false} LookupOfLast(pers: seq<(NodeId, real)>, k: nat, id: NodeId)
    requires LastWeight(pers, k, id)
    ensures Lookup(pers, id) == Some(pers[k].1)
  {
    if k < |pers| - 1 {
      assert pers[|pers| - 1].0 != id;
      LookupOfLast(pers[..|pers| - 1], k, id);
    }
  }

  lemma WeightVectorStarts(nodes: seq<NodeId>, pers: seq<(NodeId, real)>)
    ensures StartsFromWeights(nodes, pers, WeightVector(nodes, pers))
  {
    var p := WeightVector(nodes, pers);
    hide WeightVector, Lookup;
    forall i, k: nat | 0 <= i < |nodes| && LastOf(nodes, i) && LastWeight(pers, k, nodes[i]) ensures p[i] == pers[k].1 {
      LiveIsLast(nodes, i);
      WeightAt(nodes, pers, nodes[i]);
      LookupOfLast(pers, k, nodes[i]);
    }
    forall i | 0 <= i < |nodes| && (!LastOf(nodes, i) || forall k :: 0 <= k < |pers| ==> pers[k].0 != nodes[i])
      ensures p[i] == 0.0
    {
      LiveIsLast(nodes, i);
      if LastOf(nodes, i) {
        WeightAt(nodes, pers, nodes[i]);
        LookupIsListed(pers, nodes[i]);
      } else {
        WeightElsewhere(nodes, pers, i);
      }
    }
  }

  /** A weighted run over an index is the same rounds over the graph it was built from, started at
      the last weight listed for each node; it is not started when no listed node is indexed. */
  lemma WeightedRunByEdges(A: Arith<real>, ix: PprIndex<real>, nodes: seq<NodeId>, edges: seq<Edge>, c: Config<real>,
                           pers: seq<(NodeId, real)>)
    returns (vs: seq<seq<real>>)
    requires IsReal(A) && BuiltFrom(A, ix, nodes, edges, c)
    ensures vs != [] && StartsFromWeights(nodes, pers, vs[0])
    ensures IndexVectorWeighted(A, ix, pers) == (vs[|vs| - 1], |vs| - 1)
    ensures if AnyHit(nodes, pers) then RunOf(c, nodes, edges, vs) else |vs| == 1
  {
    hide *;
    var w, m := WeightedIsWalk(A, ix, nodes, edges, c, pers);
    WalkStart(A, nodes, edges, c, WeightVector(nodes, pers));
    WeightVectorStarts(nodes, pers);
    vs := Vectors(w, m);
    EndsOf(w, m);
    if AnyHit(nodes, pers) {
      WalkStepsByEdges(A, nodes, edges, c, w.p);
      WalkIsRunOf(nodes, edges, c, w, m);
    }
  }

  // ----- one graph

  lemma SumOfTwo(x: real, y: real)
    ensures Sum([x, y]) == x + y
  {
    SumSnoc([x], y);
    SumSnoc([], x);
    assert [x, y] == [x] + [y] && [x] == [] + [x];
  }

  lemma SumOfThree(x: real, y: real, z: real)
    ensures Sum([x, y, z]) == x + y + z
  {
    assert [x, y, z][..2] == [x, y];
    SumOfTwo(x, y);
  }

  /** Node 1 calls node 2 at weight 5 and contains node 3 at weight 1. */
  ghost predicate CallsAndContains(c: Config<real>, nodes: seq<NodeId>, edges: seq<Edge>) {
    && c.damping == 0.5 && c.direction == Forward && c.edgeWeights == map[0 := 5.0, 1 := 1.0]
    && nodes == [1, 2, 3] && edges == [Edge(1, 2, 0), Edge(1, 3, 1)]
  }

  lemma CallsAndContainsWeights(c: Config<real>, nodes: seq<NodeId>, edges: seq<Edge>, j: nat, i: nat)
    requires CallsAndContains(c, nodes, edges) && j < 3 && i < 3
    ensures FromTo(c, nodes, edges, j, i) == if j == 0 && i == 1 then 5.0 else if j == 0 && i == 2 then 1.0 else 0.0
    ensures Leaving(c, nodes, edges, j) == if j == 0 then 6.0 else 0.0
  {
    forall k: nat | k < 3
      ensures FromTo(c, nodes, edges, j, k) == if j == 0 && k == 1 then 5.0 else if j == 0 && k == 2 then 1.0 else 0.0
    {
      var x, y := Carries(c, edges[0], nodes[j], nodes[k]), Carries(c, edges[1], nodes[j], nodes[k]);
      assert Carrying(c, edges, nodes[j], nodes[k]) == [x, y];
      SumOfTwo(x, y);
      assert LastOf(nodes, j) && LastOf(nodes, k);
    }
    hide FromTo, CallsAndContains, Sum;
    var a, b, d := FromTo(c, nodes, edges, j, 0), FromTo(c, nodes, edges, j, 1), FromTo(c, nodes, edges, j, 2);
    assert |nodes| == 3;
    assert seq(|nodes|, k requires 0 <= k < |nodes| => FromTo(c, nodes, edges, j, k)) == [a, b, d];
    SumOfThree(a, b, d);
  }

  lemma CallsAndContainsSends(c: Config<real>, nodes: seq<NodeId>, edges: seq<Edge>, i: nat)
    requires CallsAndContains(c, nodes, edges) && i < 3
    ensures SentTo(c, nodes, edges, [1.0, 0.0, 0.0], i) == [0.0, 5.0 / 6.0, 1.0 / 6.0][i]
    ensures Stuck(c, nodes, edges, [1.0, 0.0, 0.0]) == 0.0
  {
    var p := [1.0, 0.0, 0.0];
    forall j: nat | j < 3
      ensures Leaving(c, nodes, edges, j) == if j == 0 then 6.0 else 0.0
      ensures Sends(c, nodes, edges, p, j, i) == if j == 0 then [0.0, 5.0 / 6.0, 1.0 / 6.0][i] else 0.0
    {
      CallsAndContainsWeights(c, nodes, edges, j, i);
    }
    hide Leaving, Sends, Sum;
    var a, b, d := Sends(c, nodes, edges, p, 0, i), Sends(c, nodes, edges, p, 1, i), Sends(c, nodes, edges, p, 2, i);
    assert seq(|nodes|, j requires 0 <= j < |nodes| => Sends(c, nodes, edges, p, j, i)) == [a, b, d];
    SumOfThree(a, b, d);
    assert seq(|nodes|, j requires 0 <= j < |nodes| => if Leaving(c, nodes, edges, j) == 0.0 then p[j] else 0.0)
        == [0.0, 0.0, 0.0];
    SumOfThree(0.0, 0.0, 0.0);
  }

  /** After a round from node 1 with damping a half the scores are 1/2, 5/12 and 1/12. */
  lemma CallsOutweighContains(A: Arith<real>, c: Config<real>, nodes: seq<NodeId>, edges: seq<Edge>)
    requires IsReal(A) && CallsAndContains(c, nodes, edges)
    ensures var p := [1.0, 0.0, 0.0];
      Round(A, HeadSystem(A, nodes, edges, c, p), p) == [0.5, 5.0 / 12.0, 1.0 / 12.0]
  {
    var p := [1.0, 0.0, 0.0];
    assert HeadSystem(A, nodes, edges, c, p).p == p;
    hide IsReal, Round, HeadSystem, SentTo, Stuck;
    forall i: nat | i < 3
      ensures Round(A, HeadSystem(A, nodes, edges, c, p), p)[i] == [0.5, 5.0 / 12.0, 1.0 / 12.0][i]
    {
      RoundByEdges(A, nodes, edges, c, p, p, i);
      CallsAndContainsSends(c, nodes, edges, i);
    }
  }
}
