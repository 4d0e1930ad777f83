/** The prebuilt index: a counting sort of the incidences by target, and the runs over it. */
module PprIndexes {
  import opened Numbers
  import opened PprSpec

  datatype PprIndex<+N> = PprIndex(
    nodes: seq<NodeId>,
    idToIdx: map<NodeId, nat>,
    start: seq<nat>,
    inc: seq<(nat, N)>,
    outW: seq<N>,
    dangling: seq<nat>,
    damping: N,
    direction: Direction,
    weights: seq<(CategoryId, N)>,
    maxIterations: nat,
    epsilon: N)
  {
    ghost predicate Shaped() {
      && |start| == |nodes| + 1 && |outW| == |nodes|
      && (forall i :: 0 <= i < |nodes| ==> Slice(start, inc, i))
      && (forall k :: 0 <= k < |inc| ==> inc[k].0 < |nodes|)
      && (forall k :: 0 <= k < |dangling| ==> dangling[k] < |nodes|)
      && (forall id :: id in idToIdx ==> idToIdx[id] < |nodes|)
    }

    function Row(i: nat): seq<(nat, N)>
      requires Shaped() && i < |nodes|
    {
      assert Slice(start, inc, i);
      inc[start[i]..start[i + 1]]
    }
  }

  ghost predicate Slice<N>(start: seq<nat>, inc: seq<(nat, N)>, i: nat)
    requires i + 1 < |start|
  {
    start[i] <= start[i + 1] <= |inc|
  }

  /** The edge weights as a list, strictly ascending by category. */
  ghost predicate IsFingerprint<N>(m: map<CategoryId, N>, w: seq<(CategoryId, N)>) {
    && Ascending(w)
    && (forall k :: 0 <= k < |w| ==> w[k].0 in m && m[w[k].0] == w[k].1)
    && (forall c :: c in m ==> Lists(w, c))
  }

  ghost predicate Lists<N>(w: seq<(CategoryId, N)>, c: CategoryId) {
    exists k :: 0 <= k < |w| && w[k].0 == c
  }

  ghost predicate Ascending<N>(w: seq<(CategoryId, N)>) {
    forall i, j :: 0 <= i < j < |w| ==> w[i].0 < w[j].0
  }

  /** The index of this graph under this config: every field is determined, and the slice
      of `inc` between two starts is exactly the list of what sends to that slot. */
  ghost predicate BuiltFrom<N>(A: Arith<N>, ix: PprIndex<N>, nodes: seq<NodeId>, edges: seq<Edge>, c: Config<N>) {
    var idx := IdToIdx(nodes);
    var evs := Events(A, c, idx, edges);
    && ix.nodes == nodes && ix.idToIdx == idx
    && ix.outW == OutWeights(A, evs, |nodes|)
    && ix.dangling == DanglingOf(A, ix.outW)
    && ix.Shaped()
    && |ix.inc| == |evs|
    && (forall i :: 0 <= i < |nodes| ==> ix.Row(i) == Incoming(evs, i))
    && ix.damping == c.damping && ix.direction == c.direction
    && ix.maxIterations == c.maxIterations && ix.epsilon == c.epsilon
    && IsFingerprint(c.edgeWeights, ix.weights)
  }

  // ----- the counting sort

  /** How many incidences the rows before `i` hold: where row `i` starts. */
  ghost function Below<N>(rows: seq<seq<(nat, N)>>, i: nat): nat
    requires i <= |rows|
  {
    if i == 0 then 0 else Below(rows, i - 1) + |rows[i - 1]|
  }

  lemma {:induction false} BelowMonotone<N>(rows: seq<seq<(nat, N)>>, i: nat, j: nat)
    requires i <= j <= |rows|
    ensures Below(rows, i) <= Below(rows, j)
    decreases j
  {
    if i < j {
      BelowMonotone(rows, i, j - 1);
    }
  }

  lemma {:induction false} BelowAppend<N>(rows: seq<seq<(nat, N)>>, t: nat, x: (nat, N), i: nat)
    requires t < |rows| && i <= |rows|
    ensures Below(rows[t := rows[t] + [x]], i) == Below(rows, i) + (if t < i then 1 else 0)
  {
    if i == 0 {
    } else {
      BelowAppend(rows, t, x, i - 1);
    }
  }

  lemma {:induction false} BelowEmpty<N>(rows: seq<seq<(nat, N)>>, i: nat)
    requires i <= |rows| && forall k :: 0 <= k < |rows| ==> rows[k] == []
    ensures Below(rows, i) == 0
  {
    if i > 0 {
      BelowEmpty(rows, i - 1);
    }
  }

  /** One more event appends to its target's row and leaves the others. */
  lemma ListsStep<N>(evs: seq<Event<N>>, m: nat, n: nat)
    requires EventsIn(evs, n) && m < |evs|
    ensures evs[m].target < n
    ensures IncomingLists(evs[..m + 1], n)
         == var rows := IncomingLists(evs[..m], n);
            rows[evs[m].target := rows[evs[m].target] + [(evs[m].source, evs[m].w)]]
  {
    assert evs[..m + 1][..m] == evs[..m];
    assert evs[m].target < n;
    var rows, rows' := IncomingLists(evs[..m], n), IncomingLists(evs[..m + 1], n);
    forall t | 0 <= t < n
      ensures rows'[t] == if t == evs[m].target then rows[t] + [(evs[m].source, evs[m].w)] else rows[t]
    {
    }
  }

  /** The rows together hold every event once. */
  lemma {:induction false} BelowTotal<N>(evs: seq<Event<N>>, n: nat, m: nat)
    requires EventsIn(evs, n) && m <= |evs|
    ensures Below(IncomingLists(evs[..m], n), n) == m
    decreases m
  {
    var rows := IncomingLists(evs[..m], n);
    if m == 0 {
      forall k | 0 <= k < n ensures rows[k] == [] {
      }
      BelowEmpty(rows, n);
    } else {
      var before := IncomingLists(evs[..m - 1], n);
      ListsStep(evs, m - 1, n);
      BelowTotal(evs, n, m - 1);
      BelowAppend(before, evs[m - 1].target, (evs[m - 1].source, evs[m - 1].w), n);
    }
  }

  lemma EventsAllPlaced<N>(evs: seq<Event<N>>, n: nat)
    requires EventsIn(evs, n)
    ensures Below(IncomingLists(evs, n), n) == |evs|
  {
    BelowTotal(evs, n, |evs|);
    assert evs[..|evs|] == evs;
  }

  /** What a prefix of the events puts in a row is a prefix of the row. */
  lemma {:induction false} RowsGrow<N>(evs: seq<Event<N>>, n: nat, m: nat, t: nat)
    requires EventsIn(evs, n) && m <= |evs| && t < n
    ensures IncomingLists(evs[..m], n)[t] <= IncomingLists(evs, n)[t]
    decreases |evs| - m
  {
    if m == |evs| {
      assert evs[..m] == evs;
    } else {
      ListsStep(evs, m, n);
      RowsGrow(evs, n, m + 1, t);
    }
  }

  method CountTargets<N>(n: nat, evs: seq<Event<N>>) returns (counts: seq<nat>)
    requires EventsIn(evs, n)
    ensures |counts| == n + 1 && counts[0] == 0
    ensures forall i :: 0 <= i < n ==> counts[i + 1] == |IncomingLists(evs, n)[i]|
  {
    var a := new nat[n + 1](_ => 0);
    ghost var rows := IncomingLists(evs[..0], n);
    for m := 0 to |evs|
      invariant rows == IncomingLists(evs[..m], n)
      invariant a[0] == 0
      invariant forall i :: 1 <= i <= n ==> a[i] == |rows[i - 1]|
    {
      ListsStep(evs, m, n);
      var t := evs[m].target;
      a[t + 1] := a[t + 1] + 1;
      rows := rows[t := rows[t] + [(evs[m].source, evs[m].w)]];
    }
    assert evs[..|evs|] == evs;
    counts := a[..];
  }

  ghost predicate Starts<N>(start: seq<nat>, rows: seq<seq<(nat, N)>>) {
    && |start| == |rows| + 1
    && forall i {:trigger start[i]} :: 0 <= i <= |rows| ==> start[i] == Below(rows, i)
  }

  /** Prefix sums of the per-row counts, in place. */
  method PrefixSums<N>(counts: seq<nat>, ghost rows: seq<seq<(nat, N)>>) returns (start: seq<nat>)
    requires |counts| == |rows| + 1 && counts[0] == 0
    requires forall i :: 0 <= i < |rows| ==> counts[i + 1] == |rows[i]|
    ensures Starts(start, rows)
  {
    var n := |counts| - 1;
    var a := new nat[n + 1](i requires 0 <= i <= n => counts[i]);
    for i := 0 to n
      invariant forall k {:trigger a[k]} :: 0 <= k <= i ==> a[k] == Below(rows, k)
      invariant forall k {:trigger a[k]} :: i < k <= n ==> a[k] == counts[k]
    {
      assert Below(rows, i + 1) == Below(rows, i) + |rows[i]|;
      a[i + 1] := a[i + 1] + a[i];
    }
    start := a[..];
  }

  /** `start` leaves each row its own room. */
  ghost predicate Layout<N>(start: seq<nat>, rows: seq<seq<(nat, N)>>, size: nat) {
    && |start| == |rows| + 1
    && (forall t :: 0 <= t < |rows| ==> start[t] + |rows[t]| <= size)
    && (forall t, u :: 0 <= t < u < |rows| ==> start[t] + |rows[t]| <= start[u])
  }

  lemma StartsLayOut<N>(start: seq<nat>, rows: seq<seq<(nat, N)>>)
    requires Starts(start, rows)
    ensures Layout(start, rows, Below(rows, |rows|))
  {
    forall t | 0 <= t < |rows|
      ensures start[t] + |rows[t]| <= Below(rows, |rows|)
      ensures forall u :: t < u < |rows| ==> start[t] + |rows[t]| <= start[u]
    {
      BelowMonotone(rows, t + 1, |rows|);
      forall u | t < u < |rows| ensures start[t] + |rows[t]| <= start[u] {
        BelowMonotone(rows, t + 1, u);
      }
    }
  }

  ghost predicate Placed<N>(start: seq<nat>, rows: seq<seq<(nat, N)>>, inc: seq<(nat, N)>) {
    && |start| == |rows| + 1
    && forall t :: 0 <= t < |rows| ==> RowAt(start[t], rows[t], inc)
  }

  ghost predicate RowAt<N>(from: nat, row: seq<(nat, N)>, inc: seq<(nat, N)>) {
    from + |row| <= |inc| && inc[from..from + |row|] == row
  }

  /** Writing one incidence at the end of its row disturbs no other row. */
  lemma PlaceOne<N>(start: seq<nat>, full: seq<seq<(nat, N)>>, rows: seq<seq<(nat, N)>>,
                    inc: seq<(nat, N)>, t: nat, x: (nat, N))
    requires Layout(start, full, |inc|) && Placed(start, rows, inc)
    requires |rows| == |full| && t < |rows|
    requires forall u :: 0 <= u < |rows| ==> |rows[u]| <= |full[u]|
    requires |rows[t]| < |full[t]|
    ensures start[t] + |rows[t]| < |inc|
    ensures Placed(start, rows[t := rows[t] + [x]], inc[start[t] + |rows[t]| := x])
  {
    var at := start[t] + |rows[t]|;
    var inc' := inc[at := x];
    forall u | 0 <= u < |rows|
      ensures RowAt(start[u], if u == t then rows[t] + [x] else rows[u], inc')
    {
      assert RowAt(start[u], rows[u], inc);
      if u == t {
        assert inc'[start[t]..at + 1] == inc[start[t]..at] + [x];
      } else {
        assert inc'[start[u]..start[u] + |rows[u]|] == inc[start[u]..start[u] + |rows[u]|];
      }
    }
  }

  /** Each event is written at its target's cursor: a stable sort by target. */
  method PlaceEvents<N>(A: Arith<N>, n: nat, evs: seq<Event<N>>, start: seq<nat>) returns (inc: seq<(nat, N)>)
    requires EventsIn(evs, n) && Layout(start, IncomingLists(evs, n), |evs|)
    ensures |inc| == |evs| && Placed(start, IncomingLists(evs, n), inc)
  {
    var cursor := new nat[n + 1](i requires 0 <= i <= n => start[i]);
    var a := new (nat, N)[|evs|](_ => (0, A.zero));
    ghost var full := IncomingLists(evs, n);
    ghost var rows := IncomingLists(evs[..0], n);
    PlacedNothing(start, full, rows, a[..]);
    for m := 0 to |evs|
      invariant |rows| == n && rows == IncomingLists(evs[..m], n)
      invariant Cursors(cursor, start, rows)
      invariant Placed(start, rows, a[..])
    {
      hide IncomingLists, Placed, Layout, Cursors;
      var t, x := evs[m].target, (evs[m].source, evs[m].w);
      RowsFit(evs, n, m);
      ListsStep(evs, m, n);
      rows := PlaceEvent(start, full, rows, cursor, a, t, x);
    }
    assert evs[..|evs|] == evs;
    inc := a[..];
  }

  /** Every cursor stands behind what its row holds so far. */
  ghost predicate Cursors<N>(cursor: array<nat>, start: seq<nat>, rows: seq<seq<(nat, N)>>)
    reads cursor
  {
    && cursor.Length == |start| == |rows| + 1
    && forall t :: 0 <= t < |rows| ==> cursor[t] == start[t] + |rows[t]|
  }

  method PlaceEvent<N>(ghost start: seq<nat>, ghost full: seq<seq<(nat, N)>>, ghost rows: seq<seq<(nat, N)>>,
                       cursor: array<nat>, a: array<(nat, N)>, t: nat, x: (nat, N))
    returns (ghost rows': seq<seq<(nat, N)>>)
    requires Layout(start, full, a.Length) && Placed(start, rows, a[..]) && Cursors(cursor, start, rows)
    requires |rows| == |full| && t < |rows| && |rows[t]| < |full[t]|
    requires forall u :: 0 <= u < |rows| ==> |rows[u]| <= |full[u]|
    modifies cursor, a
    ensures rows' == rows[t := rows[t] + [x]]
    ensures Placed(start, rows', a[..]) && Cursors(cursor, start, rows')
  {
    PlaceOne(start, full, rows, a[..], t, x);
    hide Layout, Placed;
    rows' := rows[t := rows[t] + [x]];
    a[cursor[t]] := x;
    cursor[t] := cursor[t] + 1;
  }

  lemma PlacedNothing<N>(start: seq<nat>, full: seq<seq<(nat, N)>>, rows: seq<seq<(nat, N)>>, inc: seq<(nat, N)>)
    requires Layout(start, full, |inc|) && |rows| == |full|
    requires forall t :: 0 <= t < |rows| ==> rows[t] == []
    ensures Placed(start, rows, inc)
  {
    forall t | 0 <= t < |rows| ensures RowAt(start[t], rows[t], inc) {
      assert start[t] + |full[t]| <= |inc|;
    }
  }

  lemma RowsFit<N>(evs: seq<Event<N>>, n: nat, m: nat)
    requires EventsIn(evs, n) && m < |evs|
    ensures forall u :: 0 <= u < n ==> |IncomingLists(evs[..m], n)[u]| <= |IncomingLists(evs, n)[u]|
    ensures var t := evs[m].target; |IncomingLists(evs[..m], n)[t]| < |IncomingLists(evs, n)[t]|
  {
    forall u | 0 <= u < n ensures |IncomingLists(evs[..m], n)[u]| <= |IncomingLists(evs, n)[u]| {
      RowsGrow(evs, n, m, u);
    }
    ListsStep(evs, m, n);
    RowsGrow(evs, n, m + 1, evs[m].target);
  }

  // ----- build

  /** Incidences in push order, and the out-weights summed as they are pushed. */
  method CollectEvents<N>(A: Arith<N>, idx: map<NodeId, nat>, n: nat, edges: seq<Edge>, c: Config<N>)
    returns (evs: seq<Event<N>>, outW: seq<N>)
    requires forall id :: id in idx ==> idx[id] < n
    ensures evs == Events(A, c, idx, edges)
    ensures outW == OutWeights(A, evs, n)
  {
    evs := [];
    var out := new N[n](_ => A.zero);
    for m := 0 to |edges|
      invariant evs == Events(A, c, idx, edges[..m])
      invariant Tallied(A, evs, out)
    {
      hide Events, Tallied;
      EventsUpTo(A, c, idx, edges, m);
      var e := edges[m];
      var w := WeightOf(A, c, e.category);
      if A.le(w, A.zero) || e.from !in idx || e.to !in idx {
        continue;
      }
      var fi, ti := idx[e.from], idx[e.to];
      match c.direction
      case Forward =>
        evs := PushEvent(A, evs, Event(ti, fi, w), out);
      case Backward =>
        evs := PushEvent(A, evs, Event(fi, ti, w), out);
      case Undirected =>
        evs := PushEvent(A, evs, Event(ti, fi, w), out);
        evs := PushEvent(A, evs, Event(fi, ti, w), out);
    }
    assert edges[..|edges|] == edges;
    outW := out[..];
  }

  /** `out` holds what leaves every slot. */
  ghost predicate Tallied<N>(A: Arith<N>, evs: seq<Event<N>>, out: array<N>)
    reads out
  {
    forall j :: 0 <= j < out.Length ==> out[j] == OutWeight(A, evs, j)
  }

  method PushEvent<N>(A: Arith<N>, evs: seq<Event<N>>, e: Event<N>, out: array<N>) returns (evs': seq<Event<N>>)
    requires e.source < out.Length && Tallied(A, evs, out)
    modifies out
    ensures evs' == evs + [e] && Tallied(A, evs', out)
  {
    OutWeightSnoc(A, evs, e, out.Length);
    hide OutWeight;
    evs' := evs + [e];
    out[e.source] := A.add(out[e.source], e.w);
  }

  lemma EventsUpTo<N>(A: Arith<N>, c: Config<N>, idx: map<NodeId, nat>, edges: seq<Edge>, m: nat)
    requires m < |edges|
    ensures Events(A, c, idx, edges[..m + 1]) == Events(A, c, idx, edges[..m]) + EdgeEvents(A, c, idx, edges[m])
  {
    assert edges[..m + 1][..m] == edges[..m];
  }

  lemma OutWeightSnoc<N>(A: Arith<N>, evs: seq<Event<N>>, e: Event<N>, n: nat)
    ensures forall j :: 0 <= j < n ==>
      OutWeight(A, evs + [e], j)
      == if e.source == j then A.add(OutWeight(A, evs, j), e.w) else OutWeight(A, evs, j)
  {
    assert (evs + [e])[..|evs|] == evs;
  }

  /** Collected in whatever order the hash map yields, then kept sorted by category. */
  method WeightFingerprint<N>(m: map<CategoryId, N>) returns (w: seq<(CategoryId, N)>)
    ensures IsFingerprint(m, w)
  {
    var keys := m.Keys;
    w := [];
    while keys != {}
      invariant keys <= m.Keys
      invariant Ascending(w)
      invariant forall k :: 0 <= k < |w| ==> w[k].0 in m && m[w[k].0] == w[k].1 && w[k].0 !in keys
      invariant forall c :: c in m && c !in keys ==> Lists(w, c)
      decreases keys
    {
      var c :| c in keys;
      ghost var before := w;
      w := InsertWeight(w, c, m[c]);
      keys := keys - {c};
      forall d | d in m && d !in keys ensures Lists(w, d) {
        assert d == c || Lists(before, d);
      }
    }
  }

  /** Insertion at the place the ascending order asks for. */
  method InsertWeight<N>(w: seq<(CategoryId, N)>, c: CategoryId, x: N) returns (r: seq<(CategoryId, N)>)
    requires Ascending(w) && forall k :: 0 <= k < |w| ==> w[k].0 != c
    ensures Ascending(r)
    ensures forall k :: 0 <= k < |r| ==> r[k] == (c, x) || r[k] in w
    ensures Lists(r, c) && forall d :: Lists(w, d) ==> Lists(r, d)
  {
    var at := 0;
    while at < |w| && w[at].0 < c
      invariant 0 <= at <= |w|
      invariant forall k :: 0 <= k < at ==> w[k].0 < c
    {
      at := at + 1;
    }
    r := w[..at] + [(c, x)] + w[at..];
    InsertedAscends(w, at, (c, x));
    assert r[at].0 == c;
    forall d | Lists(w, d) ensures Lists(r, d) {
      var k :| 0 <= k < |w| && w[k].0 == d;
      assert r[if k < at then k else k + 1].0 == d;
    }
  }

  lemma InsertedAscends<N>(w: seq<(CategoryId, N)>, at: nat, e: (CategoryId, N))
    requires Ascending(w) && at <= |w|
    requires forall k :: 0 <= k < at ==> w[k].0 < e.0
    requires at < |w| ==> e.0 < w[at].0
    ensures Ascending(w[..at] + [e] + w[at..])
  {
    var r := w[..at] + [e] + w[at..];
    forall i, j | 0 <= i < j < |r| ensures r[i].0 < r[j].0 {
      assert j > at ==> r[j] == w[j - 1];
      assert i > at ==> r[i] == w[i - 1];
    }
  }

  method Build<N>(A: Arith<N>, nodes: seq<NodeId>, edges: seq<Edge>, c: Config<N>) returns (ix: PprIndex<N>)
    ensures BuiltFrom(A, ix, nodes, edges, c)
  {
    var n := |nodes|;
    var idx := IdToIdx(nodes);
    var evs, outW := CollectEvents(A, idx, n, edges, c);
    EventsInRange(A, c, idx, n, edges);
    var counts := CountTargets(n, evs);
    var start := PrefixSums(counts, IncomingLists(evs, n));
    StartsLayOut(start, IncomingLists(evs, n));
    EventsAllPlaced(evs, n);
    var inc := PlaceEvents(A, n, evs, start);
    var weights := WeightFingerprint(c.edgeWeights);
    ix := PprIndex(nodes, idx, start, inc, outW, DanglingOf(A, outW), c.damping, c.direction,
                   weights, c.maxIterations, c.epsilon);
    PlacedIsBuilt(ix, evs);
  }

  /** The slice between two starts is exactly a row. */
  lemma SliceIsRow<N>(start: seq<nat>, rows: seq<seq<(nat, N)>>, inc: seq<(nat, N)>, i: nat)
    requires Starts(start, rows) && Placed(start, rows, inc) && i < |rows|
    ensures Slice(start, inc, i) && inc[start[i]..start[i + 1]] == rows[i]
  {
    assert RowAt(start[i], rows[i], inc);
    assert start[i + 1] == Below(rows, i + 1) == Below(rows, i) + |rows[i]|;
  }

  /** The slices cover the array: whatever holds of every row holds of every place. */
  lemma SourcesInRange<N>(start: seq<nat>, rows: seq<seq<(nat, N)>>, inc: seq<(nat, N)>, n: nat, k: nat)
    requires Starts(start, rows) && Placed(start, rows, inc) && k < |inc| == Below(rows, |rows|)
    requires forall t, j :: 0 <= t < |rows| && 0 <= j < |rows[t]| ==> rows[t][j].0 < n
    ensures inc[k].0 < n
  {
    var t := SlotOf(rows, |rows|, k);
    assert RowAt(start[t], rows[t], inc);
    assert inc[k] == inc[start[t]..start[t] + |rows[t]|][k - start[t]] == rows[t][k - start[t]];
  }

  /** The finished array holds every target's list in its own slice, and nothing else. */
  lemma PlacedIsBuilt<N>(ix: PprIndex<N>, evs: seq<Event<N>>)
    requires var n := |ix.nodes|;
      && EventsIn(evs, n) && |ix.inc| == |evs| && |ix.outW| == n
      && Starts(ix.start, IncomingLists(evs, n))
      && Placed(ix.start, IncomingLists(evs, n), ix.inc)
    requires forall k :: 0 <= k < |ix.dangling| ==> ix.dangling[k] < |ix.nodes|
    requires forall id :: id in ix.idToIdx ==> ix.idToIdx[id] < |ix.nodes|
    ensures ix.Shaped()
    ensures forall i :: 0 <= i < |ix.nodes| ==> ix.Row(i) == Incoming(evs, i)
  {
    var n := |ix.nodes|;
    var rows := IncomingLists(evs, n);
    forall i | 0 <= i < n
      ensures Slice(ix.start, ix.inc, i)
      ensures ix.inc[ix.start[i]..ix.start[i + 1]] == rows[i]
    {
      SliceIsRow(ix.start, rows, ix.inc, i);
    }
    EventsAllPlaced(evs, n);
    forall t | 0 <= t < n ensures forall j :: 0 <= j < |rows[t]| ==> rows[t][j].0 < n {
      IncomingInRange(evs, n, t);
    }
    forall k | 0 <= k < |ix.inc| ensures ix.inc[k].0 < n {
      SourcesInRange(ix.start, rows, ix.inc, n, k);
    }
  }

  /** Every place of the array lies in some row's slice. */
  lemma {:induction false} SlotOf<N>(rows: seq<seq<(nat, N)>>, n: nat, k: nat) returns (t: nat)
    requires n <= |rows| && k < Below(rows, n)
    ensures t < n && Below(rows, t) <= k < Below(rows, t) + |rows[t]|
  {
    if Below(rows, n - 1) <= k {
      t := n - 1;
    } else {
      t := SlotOf(rows, n - 1, k);
    }
  }
}
