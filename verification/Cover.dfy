/** The pairwise cover generator: full cases over some axes that avoid every forbidden pair and
    together hold every pair a valid case can hold. */
module Covers {
  import opened Bags
  import opened Sorting

  type Name = string
  type Value = string

  datatype Slot = Slot(axis: Name, value: Value)

  /** Two slots, the one on the axis of lower rank first. */
  datatype Pair = Pair(a: Slot, b: Slot)

  /** A partial case: a value for some of the axes. */
  type Case = map<Name, Value>

  datatype Cover = Cover(axes: map<Name, seq<Value>>, order: seq<Name>, rank: map<Name, nat>, forbid: set<Pair>) {
    ghost predicate Ok() {
      && (forall n :: n in axes <==> n in rank)
      && (forall n :: n in rank ==> rank[n] < |order| && order[rank[n]] == n)
      && (forall i :: 0 <= i < |order| ==> order[i] in rank && rank[order[i]] == i)
    }

    function MakePair(x: Slot, y: Slot): Pair
      requires x.axis in rank && y.axis in rank
    {
      if rank[x.axis] < rank[y.axis] then Pair(x, y) else Pair(y, x)
    }

    function PairsOf(t: Case): set<Pair>
      requires t.Keys <= rank.Keys
    {
      set n, m | n in t && m in t && rank[n] < rank[m] :: Pair(Slot(n, t[n]), Slot(m, t[m]))
    }

    predicate Consistent(t: Case)
      requires t.Keys <= rank.Keys
    {
      PairsOf(t) * forbid == {}
    }

    // ----- what the generator is about

    /** Some pair of `t` lies on these two slots. */
    ghost predicate Holds(t: Case, p: Pair) {
      && p.a.axis in rank && p.b.axis in rank && rank[p.a.axis] < rank[p.b.axis]
      && p.a.axis in t && t[p.a.axis] == p.a.value
      && p.b.axis in t && t[p.b.axis] == p.b.value
    }

    ghost predicate Clean(t: Case) {
      forall p :: Holds(t, p) ==> p !in forbid
    }

    /** `f` gives every axis a value: `t`'s own, or one of the axis's. */
    ghost predicate Extends(t: Case, f: Case) {
      && f.Keys == axes.Keys
      && (forall n :: n in t ==> n in f && f[n] == t[n])
      && (forall n :: n in f && n !in t ==> f[n] in axes[n])
    }

    ghost predicate Feasible(t: Case) {
      exists f :: Extends(t, f) && Clean(f)
    }

    /** A full case of listed values that holds no forbidden pair. */
    ghost predicate Valid(t: Case) {
      && t.Keys == axes.Keys
      && (forall n :: n in t ==> t[n] in axes[n])
      && Clean(t)
    }

    /** A pair of listed values on two axes, in rank order. */
    ghost predicate IsPair(p: Pair) {
      && p.a.axis in rank && p.b.axis in rank && rank[p.a.axis] < rank[p.b.axis]
      && p.a.axis in axes && p.b.axis in axes
      && p.a.value in axes[p.a.axis] && p.b.value in axes[p.b.axis]
    }

    function CaseOf(p: Pair): Case {
      map[p.a.axis := p.a.value, p.b.axis := p.b.value]
    }

    /** What `required` asks of a pair. */
    ghost predicate Required(p: Pair) {
      IsPair(p) && p !in forbid && Feasible(CaseOf(p))
    }

    ghost predicate Implied(p: Pair) {
      IsPair(p) && p !in forbid && !Feasible(CaseOf(p))
    }
  }

  // ----- construction

  /** More values first; between equals, the one with the earlier place. */
  predicate Precedes(axes: map<Name, seq<Value>>, place: map<Name, nat>, n: Name, m: Name) {
    Size(axes, n) > Size(axes, m) || (Size(axes, n) == Size(axes, m) && PlaceOf(place, n) < PlaceOf(place, m))
  }

  function Size(axes: map<Name, seq<Value>>, n: Name): nat {
    if n in axes then |axes[n]| else 0
  }

  function PlaceOf(place: map<Name, nat>, n: Name): nat {
    if n in place then place[n] else 0
  }

  /** The sort key of the axes. */
  function LargestFirst(axes: map<Name, seq<Value>>, place: map<Name, nat>): (Name, Name) -> bool {
    (n: Name, m: Name) => Precedes(axes, place, n, m)
  }

  /** No two axes have the same place. */
  ghost predicate Placed(axes: map<Name, seq<Value>>, place: map<Name, nat>) {
    && axes.Keys <= place.Keys
    && forall n, m :: n in axes && m in axes && n != m ==> place[n] != place[m]
  }

  ghost predicate InOrder(axes: map<Name, seq<Value>>, place: map<Name, nat>, order: seq<Name>) {
    && (forall n :: n in order <==> n in axes)
    && (forall i, j :: 0 <= i < j < |order| ==> Precedes(axes, place, order[i], order[j]))
  }

  /** The axes are listed by falling number of values, those of one number by rising place. */
  lemma OrderMeans(axes: map<Name, seq<Value>>, place: map<Name, nat>, order: seq<Name>, i: nat, j: nat)
    requires Placed(axes, place) && InOrder(axes, place, order) && i < j < |order|
    ensures order[i] in axes && order[j] in axes && order[i] in place && order[j] in place
    ensures |axes[order[i]]| >= |axes[order[j]]|
    ensures |axes[order[i]]| == |axes[order[j]]| ==> place[order[i]] < place[order[j]]
  {
    assert order[i] in order && order[j] in order;
  }

  /** A pair is forbidden exactly when some row gives its two slots, whichever comes first in the
      row, and both values are listed; the slot on the axis of lower rank is the pair's first. */
  lemma ForbiddenMeans(c: Cover, rows: seq<(Slot, Slot)>, x: Slot, y: Slot)
    requires c.Ok() && x.axis in c.rank && y.axis in c.rank && c.rank[x.axis] < c.rank[y.axis]
    ensures ForbiddenBy(c, rows, Pair(x, y))
       <==> && x.value in c.axes[x.axis] && y.value in c.axes[y.axis]
            && exists r: (Slot, Slot) :: r in rows && (r == (x, y) || r == (y, x))
  {
    if ForbiddenBy(c, rows, Pair(x, y)) {
      var k :| 0 <= k < |rows| && Listed(c.axes, rows[k]) && Pair(x, y) == c.MakePair(rows[k].0, rows[k].1);
      assert rows[k] in rows && (rows[k] == (x, y) || rows[k] == (y, x));
    }
    if x.value in c.axes[x.axis] && y.value in c.axes[y.axis] {
      if r: (Slot, Slot) :| r in rows && (r == (x, y) || r == (y, x)) {
        var k :| 0 <= k < |rows| && rows[k] == r;
        assert Listed(c.axes, rows[k]) && Pair(x, y) == c.MakePair(rows[k].0, rows[k].1);
      }
    }
  }

  /** Axes largest first, and every row between listed values of two axes forbidden. */
  method MakeCover(axes: map<Name, seq<Value>>, place: map<Name, nat>, rows: seq<(Slot, Slot)>) returns (c: Cover)
    requires Placed(axes, place)
    ensures c.Ok() && c.axes == axes && InOrder(axes, place, c.order)
    ensures forall p :: p in c.forbid <==> ForbiddenBy(c, rows, p)
  {
    var order := SortAxes(axes, place);
    OrderedDistinct(axes, place, order);
    hide Cover.Ok, ForbiddenBy, InOrder;
    var rank := RankOf(order);
    var bare := Cover(axes, order, rank, {});
    RanksOk(bare);
    var forbid := ForbidRows(bare, rows);
    c := Cover(axes, order, rank, forbid);
    SameRanks(bare, c, rows);
  }

  lemma SameRanks(c: Cover, c': Cover, rows: seq<(Slot, Slot)>)
    requires c.Ok() && c.axes == c'.axes && c.order == c'.order && c.rank == c'.rank
    ensures c'.Ok()
    ensures forall p :: ForbiddenBy(c, rows, p) <==> ForbiddenBy(c', rows, p)
  {
    assert forall k :: 0 <= k < |rows| && Listed(c.axes, rows[k]) ==>
      c.MakePair(rows[k].0, rows[k].1) == c'.MakePair(rows[k].0, rows[k].1);
  }

  ghost predicate ForbiddenBy(c: Cover, rows: seq<(Slot, Slot)>, p: Pair)
    requires c.Ok()
  {
    exists k :: 0 <= k < |rows| && Listed(c.axes, rows[k]) && p == c.MakePair(rows[k].0, rows[k].1)
  }

  method ForbidRows(c: Cover, rows: seq<(Slot, Slot)>) returns (forbid: set<Pair>)
    requires c.Ok()
    ensures forall p :: p in forbid <==> ForbiddenBy(c, rows, p)
  {
    forbid := {};
    for k := 0 to |rows|
      invariant forall p :: p in forbid <==>
        exists j :: 0 <= j < k && Listed(c.axes, rows[j]) && p == c.MakePair(rows[j].0, rows[j].1)
    {
      if Listed(c.axes, rows[k]) {
        forbid := forbid + {c.MakePair(rows[k].0, rows[k].1)};
      }
    }
  }

  lemma OrderedDistinct(axes: map<Name, seq<Value>>, place: map<Name, nat>, order: seq<Name>)
    requires InOrder(axes, place, order)
    ensures forall i, j :: 0 <= i < j < |order| ==> order[i] != order[j]
  {
  }

  ghost predicate RanksOf(order: seq<Name>, rank: map<Name, nat>) {
    && (forall n :: n in rank ==> rank[n] < |order| && order[rank[n]] == n)
    && (forall i :: 0 <= i < |order| ==> order[i] in rank && rank[order[i]] == i)
  }

  method RankOf(order: seq<Name>) returns (rank: map<Name, nat>)
    requires forall i, j :: 0 <= i < j < |order| ==> order[i] != order[j]
    ensures RanksOf(order, rank)
  {
    rank := map[];
    for i := 0 to |order|
      invariant forall n :: n in rank ==> rank[n] < i && order[rank[n]] == n
      invariant forall j :: 0 <= j < i ==> order[j] in rank && rank[order[j]] == j
    {
      rank := rank[order[i] := i];
    }
  }

  lemma RanksOk(c: Cover)
    requires RanksOf(c.order, c.rank)
    requires forall n :: n in c.order <==> n in c.axes
    ensures c.Ok()
  {
    forall n | n in c.axes ensures n in c.rank {
      assert n in c.order;
    }
  }

  predicate Listed(axes: map<Name, seq<Value>>, row: (Slot, Slot)) {
    && row.0.axis in axes && row.1.axis in axes
    && row.0.value in axes[row.0.axis] && row.1.value in axes[row.1.axis]
  }

  method ListAxes(axes: map<Name, seq<Value>>) returns (names: seq<Name>)
    ensures forall n :: n in names <==> n in axes
    ensures forall i, j :: 0 <= i < j < |names| ==> names[i] != names[j]
  {
    var left := axes.Keys;
    names := [];
    while left != {}
      invariant forall n :: n in axes <==> n in names || n in left
      invariant forall n :: n in names ==> n !in left
      invariant forall i, j :: 0 <= i < j < |names| ==> names[i] != names[j]
      decreases left
    {
      var n :| n in left;
      names := names + [n];
      left := left - {n};
    }
  }

  method SortAxes(axes: map<Name, seq<Value>>, place: map<Name, nat>) returns (order: seq<Name>)
    requires Placed(axes, place)
    ensures InOrder(axes, place, order)
  {
    var names := ListAxes(axes);
    order := Sort(LargestFirst(axes, place), names);
    LargestFirstIsOrder(axes, place);
    SortSorts(LargestFirst(axes, place), names);
    SameBagSameMembers(order, names);
    forall i, j | 0 <= i < j < |order| ensures Precedes(axes, place, order[i], order[j]) {
      assert order[i] in order && order[j] in order;
      assert !LargestFirst(axes, place)(order[j], order[i]);
      SortedApart(names, order, i, j);
    }
  }

  lemma LargestFirstIsOrder(axes: map<Name, seq<Value>>, place: map<Name, nat>)
    ensures IsOrder(LargestFirst(axes, place))
  {
  }

  lemma SortedApart(names: seq<Name>, order: seq<Name>, i: nat, j: nat)
    requires multiset(order) == multiset(names) && i < j < |order|
    requires forall i, j :: 0 <= i < j < |names| ==> names[i] != names[j]
    ensures order[i] != order[j]
  {
    if order[i] == order[j] {
      TwoPlaces(order, i, j);
      assert order[i] in multiset(names);
      var k :| 0 <= k < |names| && names[k] == order[i];
      OnceAt(names, k);
    }
  }

  lemma PairsAreHeld(c: Cover, t: Case)
    requires t.Keys <= c.rank.Keys
    ensures forall p :: p in c.PairsOf(t) <==> c.Holds(t, p)
  {
    forall p | c.Holds(t, p) ensures p in c.PairsOf(t) {
      var n, m := p.a.axis, p.b.axis;
      assert p == Pair(Slot(n, t[n]), Slot(m, t[m]));
    }
  }

  lemma ConsistentIsClean(c: Cover, t: Case)
    requires t.Keys <= c.rank.Keys
    ensures c.Consistent(t) <==> c.Clean(t)
  {
    PairsAreHeld(c, t);
    if c.Consistent(t) {
      forall p | c.Holds(t, p) ensures p !in c.forbid {
        assert p !in c.PairsOf(t) * c.forbid;
      }
    }
  }

  /** A value on a fresh axis keeps a case clean exactly when it clears every slot the case has. */
  lemma CleanWithOne(c: Cover, t: Case, n: Name, v: Value)
    requires c.Ok() && t.Keys <= c.rank.Keys && n in c.rank && n !in t
    ensures c.Clean(t[n := v])
       <==> c.Clean(t) && forall m :: m in t ==> c.MakePair(Slot(n, v), Slot(m, t[m])) !in c.forbid
  {
    var t' := t[n := v];
    if c.Clean(t') {
      forall p | c.Holds(t, p) ensures p !in c.forbid {
        assert c.Holds(t', p);
      }
      forall m | m in t ensures c.MakePair(Slot(n, v), Slot(m, t[m])) !in c.forbid {
        RanksDiffer(c, n, m);
        assert c.Holds(t', c.MakePair(Slot(n, v), Slot(m, t[m])));
      }
    }
    if c.Clean(t) && forall m :: m in t ==> c.MakePair(Slot(n, v), Slot(m, t[m])) !in c.forbid {
      forall p | c.Holds(t', p) ensures p !in c.forbid {
        if p.a.axis == n {
          assert p == c.MakePair(Slot(n, v), Slot(p.b.axis, t[p.b.axis]));
        } else if p.b.axis == n {
          assert p == c.MakePair(Slot(n, v), Slot(p.a.axis, t[p.a.axis]));
        } else {
          assert c.Holds(t, p);
        }
      }
    }
  }

  lemma RanksDiffer(c: Cover, n: Name, m: Name)
    requires c.Ok() && n in c.rank && m in c.rank && n != m
    ensures c.rank[n] != c.rank[m]
  {
  }

  // ----- feasibility

  /** A feasible case takes some listed value on any axis it leaves open, and stays feasible. */
  lemma FeasibleExtends(c: Cover, t: Case, n: Name)
    requires n in c.axes && n !in t
    ensures c.Feasible(t) <==> exists v :: v in c.axes[n] && c.Feasible(t[n := v])
  {
    hide Cover.Clean;
    if c.Feasible(t) {
      var f :| c.Extends(t, f) && c.Clean(f);
      TakesItsOwn(c, t, n, f);
    }
    forall v | v in c.axes[n] && c.Feasible(t[n := v]) ensures c.Feasible(t) {
      var f :| c.Extends(t[n := v], f) && c.Clean(f);
      ExtendsThrough(c, t, n, v, f);
    }
  }

  lemma TakesItsOwn(c: Cover, t: Case, n: Name, f: Case)
    requires n in c.axes && n !in t && c.Extends(t, f)
    ensures n in f && f[n] in c.axes[n] && c.Extends(t[n := f[n]], f)
  {
  }

  lemma ExtendsThrough(c: Cover, t: Case, n: Name, v: Value, f: Case)
    requires n in c.axes && n !in t && v in c.axes[n] && c.Extends(t[n := v], f)
    ensures c.Extends(t, f)
  {
    assert f[n] == v;
    assert forall m :: m in t ==> m in t[n := v] && t[n := v][m] == t[m];
  }

  lemma FeasibleIsClean(c: Cover, t: Case)
    requires c.Feasible(t)
    ensures c.Clean(t) && t.Keys <= c.axes.Keys
  {
    var f :| c.Extends(t, f) && c.Clean(f);
    forall p | c.Holds(t, p) ensures p !in c.forbid {
      assert c.Holds(f, p);
    }
  }

  lemma FullFeasibleIsClean(c: Cover, t: Case)
    requires t.Keys == c.axes.Keys
    ensures c.Feasible(t) <==> c.Clean(t)
  {
    if c.Clean(t) {
      assert c.Extends(t, t);
    }
    if c.Feasible(t) {
      FeasibleIsClean(c, t);
    }
  }

  /** The dict a search fills and empties as it backtracks. */
  class Draft {
    var cur: Case

    constructor (t: Case)
      ensures cur == t
    {
      cur := t;
    }
  }

  /** From place `i` on, `free` lists exactly the axes `t` leaves open, each once. */
  ghost predicate OpenFrom(c: Cover, free: seq<Name>, i: nat, t: Case)
    requires i <= |free|
  {
    && t.Keys <= c.axes.Keys
    && (forall k :: i <= k < |free| ==> free[k] in c.axes && free[k] !in t)
    && (forall k, l :: i <= k < l < |free| ==> free[k] != free[l])
    && (forall n :: n in c.axes && n !in t ==> n in free[i..])
  }

  lemma OpenFromNext(c: Cover, free: seq<Name>, i: nat, t: Case, v: Value)
    requires i < |free| && OpenFrom(c, free, i, t)
    ensures OpenFrom(c, free, i + 1, t[free[i] := v])
  {
    assert free[i..] == [free[i]] + free[i + 1..];
  }

  lemma OpenHere(c: Cover, free: seq<Name>, i: nat, t: Case)
    requires c.Ok() && i < |free| && OpenFrom(c, free, i, t)
    ensures free[i] in c.axes && free[i] in c.rank && free[i] !in t
    ensures t.Keys <= c.axes.Keys && t.Keys <= c.rank.Keys
  {
  }

  lemma NothingOpen(c: Cover, free: seq<Name>, t: Case)
    requires OpenFrom(c, free, |free|, t)
    ensures c.Feasible(t) <==> c.Clean(t)
    ensures c.Extends(t, t)
  {
    assert t.Keys == c.axes.Keys;
    FullFeasibleIsClean(c, t);
  }

  /** Depth-first over the open axes: succeeds exactly when the draft has a valid extension, which
      it then holds; on failure every trial is undone. */
  method Search(c: Cover, free: seq<Name>, i: nat, d: Draft) returns (ok: bool)
    requires c.Ok() && i <= |free| && c.Clean(d.cur) && OpenFrom(c, free, i, d.cur)
    modifies d
    ensures ok <==> c.Feasible(old(d.cur))
    ensures ok ==> c.Extends(old(d.cur), d.cur) && c.Clean(d.cur)
    ensures !ok ==> d.cur == old(d.cur)
    decreases |free| - i
  {
    hide Cover.Feasible, Cover.Extends, Cover.Holds, Cover.Clean, Cover.MakePair, Cover.Ok, OpenFrom;
    ghost var t := d.cur;
    if i == |free| {
      NothingOpen(c, free, t);
      return true;
    }
    OpenHere(c, free, i, t);
    var n := free[i];
    var values := c.axes[n];
    for k := 0 to |values|
      invariant d.cur == t
      invariant forall j :: 0 <= j < k ==> !c.Feasible(t[n := values[j]])
    {
      var v := values[k];
      CleanWithOne(c, t, n, v);
      OpenFromNext(c, free, i, t, v);
      if forall m :: m in d.cur ==> c.MakePair(Slot(n, v), Slot(m, d.cur[m])) !in c.forbid {
        d.cur := d.cur[n := v];
        ok := Search(c, free, i + 1, d);
        if ok {
          FoundThrough(c, t, n, v, d.cur);
          return;
        }
        d.cur := d.cur - {n};
        assert d.cur == t;
      } else {
        NotCleanNotFeasible(c, t[n := v]);
      }
    }
    FeasibleExtends(c, t, n);
    ok := false;
  }

  lemma FoundThrough(c: Cover, t: Case, n: Name, v: Value, f: Case)
    requires n in c.axes && n !in t && v in c.axes[n] && c.Extends(t[n := v], f) && c.Clean(f)
    ensures c.Extends(t, f) && c.Feasible(t)
  {
    assert f[n] == v;
  }

  lemma NotCleanNotFeasible(c: Cover, t: Case)
    requires !c.Clean(t)
    ensures !c.Feasible(t)
  {
    if c.Feasible(t) {
      FeasibleIsClean(c, t);
    }
  }

  /** The axes `t` leaves open, in rank order. */
  function OpenAxes(order: seq<Name>, t: Case): seq<Name> {
    if order == [] then []
    else
      var last := order[|order| - 1];
      OpenAxes(order[..|order| - 1], t) + (if last in t then [] else [last])
  }

  lemma {:induction false} OpenAxesMembers(order: seq<Name>, t: Case)
    requires forall i, j :: 0 <= i < j < |order| ==> order[i] != order[j]
    ensures var o := OpenAxes(order, t);
      && (forall n :: n in o <==> n in order && n !in t)
      && (forall i, j :: 0 <= i < j < |o| ==> o[i] != o[j])
  {
    if order == [] {
    } else {
      assert order == order[..|order| - 1] + [order[|order| - 1]];
      OpenAxesMembers(order[..|order| - 1], t);
    }
  }

  /** Whether a partial case extends to a full one with no forbidden pair, decided exactly. */
  method Completable(c: Cover, t: Case) returns (ok: bool)
    requires c.Ok() && t.Keys <= c.axes.Keys
    ensures ok <==> c.Feasible(t)
  {
    assert t.Keys <= c.rank.Keys;
    ConsistentIsClean(c, t);
    if !c.Consistent(t) {
      NotCleanNotFeasible(c, t);
      return false;
    }
    var free := OpenAxes(c.order, t);
    var d := new Draft(t);
    SearchReady(c, t);
    ok := Search(c, free, 0, d);
  }

  lemma OrderDistinct(c: Cover)
    requires c.Ok()
    ensures forall i, j :: 0 <= i < j < |c.order| ==> c.order[i] != c.order[j]
    ensures forall n :: n in c.axes <==> n in c.order
  {
    forall n | n in c.axes ensures n in c.order {
      assert c.order[c.rank[n]] == n;
    }
  }

  lemma SearchReady(c: Cover, t: Case)
    requires c.Ok() && t.Keys <= c.axes.Keys
    ensures OpenFrom(c, OpenAxes(c.order, t), 0, t)
  {
    OrderDistinct(c);
    OpenAxesMembers(c.order, t);
    var free := OpenAxes(c.order, t);
    assert free[0..] == free;
    forall k | 0 <= k < |free| ensures free[k] in c.axes && free[k] !in t {
      assert free[k] in free;
    }
  }

  // ----- required pairs

  /** A pair is required exactly when it is not forbidden and some valid full case holds it. */
  lemma RequiredIsHeldBySome(c: Cover, p: Pair)
    requires c.Ok() && c.IsPair(p)
    ensures c.Required(p) <==> exists f :: c.Valid(f) && c.Holds(f, p)
    ensures c.Implied(p) <==> p !in c.forbid && !exists f :: c.Valid(f) && c.Holds(f, p)
  {
    var t := c.CaseOf(p);
    hide Cover.Clean;
    if c.Required(p) {
      var f :| c.Extends(t, f) && c.Clean(f);
      ValidIsExtension(c, p, f);
      assert c.Valid(f) && c.Holds(f, p);
    }
    forall f | c.Valid(f) && c.Holds(f, p) ensures c.Required(p) {
      ValidIsExtension(c, p, f);
      ValidIsClear(c, p, f);
    }
  }

  /** The valid cases that hold a pair are the clean extensions of the pair alone. */
  lemma ValidIsExtension(c: Cover, p: Pair, f: Case)
    requires c.Ok() && c.IsPair(p)
    ensures c.Valid(f) && c.Holds(f, p) <==> c.Extends(c.CaseOf(p), f) && c.Clean(f)
  {
    hide Cover.Clean;
  }

  lemma ValidIsClear(c: Cover, p: Pair, f: Case)
    requires c.Valid(f) && c.Holds(f, p)
    ensures p !in c.forbid
  {
  }
}
