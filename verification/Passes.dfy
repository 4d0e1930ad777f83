/** The build-pass registry: a declared order, its validator, and the run. */
module Passes {
  import opened Options
  import opened Bags
  import opened Selections
  import opened Sorting

  datatype Stage = Resolve | Post | Finalize {
    function Index(): nat {
      match this
      case Resolve => 0
      case Post => 1
      case Finalize => 2
    }
  }

  /** One pass over a domain graph `G` under a build context `C`. */
  datatype PassSpec<!G, !C> = PassSpec(name: string, stage: Stage, after: seq<string>, run: (G, C) -> G)

  datatype Problem =
    | EmptyName(place: nat)
    | DuplicateName(name: string)
    | UnknownDependency(name: string, dep: string)
    | SelfDependency(name: string)
    | LaterDependency(name: string, dep: string)

  // ----- the run order

  predicate InEarlierStage<G, C>(a: PassSpec<G, C>, b: PassSpec<G, C>) {
    a.stage.Index() < b.stage.Index()
  }

  /** The declaration, stably sorted by stage. */
  function Order<G, C>(specs: seq<PassSpec<G, C>>): (r: seq<PassSpec<G, C>>)
    ensures |r| == |specs|
  {
    Sort(InEarlierStage, specs)
  }

  /** The passes of one stage, in the order given. */
  function OfStage<G, C>(s: seq<PassSpec<G, C>>, stage: Stage): seq<PassSpec<G, C>> {
    if s == [] then []
    else OfStage(s[..|s| - 1], stage) + (if s[|s| - 1].stage == stage then [s[|s| - 1]] else [])
  }

  lemma {:induction false} OfStageConcat<G, C>(a: seq<PassSpec<G, C>>, b: seq<PassSpec<G, C>>, stage: Stage)
    ensures OfStage(a + b, stage) == OfStage(a, stage) + OfStage(b, stage)
  {
    if b == [] {
      assert a + b == a;
    } else {
      OfStageConcat(a, b[..|b| - 1], stage);
      assert (a + b)[..|a + b| - 1] == a + b[..|b| - 1];
    }
  }

  ghost predicate StageSorted<G, C>(s: seq<PassSpec<G, C>>) {
    forall i, j :: 0 <= i < j < |s| ==> s[i].stage.Index() <= s[j].stage.Index()
  }

  /** A pass lands between those of its stage or earlier and those of a later one. */
  lemma {:induction false} InsertBetween<G, C>(a: seq<PassSpec<G, C>>, b: seq<PassSpec<G, C>>, x: PassSpec<G, C>)
    requires forall i :: 0 <= i < |a| ==> a[i].stage.Index() <= x.stage.Index()
    requires forall i :: 0 <= i < |b| ==> x.stage.Index() < b[i].stage.Index()
    ensures Insert(InEarlierStage, a + b, x) == a + [x] + b
  {
    if b == [] {
      assert a + b == a;
    } else {
      InsertBetween(a, b[..|b| - 1], x);
      assert (a + b)[..|a + b| - 1] == a + b[..|b| - 1];
    }
  }

  lemma {:induction false} OfStageOnly<G, C>(s: seq<PassSpec<G, C>>, stage: Stage)
    ensures AllOf(OfStage(s, stage), stage)
  {
    if s == [] {
    } else {
      OfStageOnly(s[..|s| - 1], stage);
    }
  }

  /** The run order is the three stages one after the other, each as declared. */
  lemma {:induction false} OrderIsStages<G, C>(specs: seq<PassSpec<G, C>>)
    ensures Order(specs) == OfStage(specs, Resolve) + OfStage(specs, Post) + OfStage(specs, Finalize)
  {
    if specs == [] {
    } else {
      hide Insert;
      var init, x := specs[..|specs| - 1], specs[|specs| - 1];
      OrderIsStages(init);
      var r, p, f := OfStage(init, Resolve), OfStage(init, Post), OfStage(init, Finalize);
      OfStageOnly(init, Resolve);
      OfStageOnly(init, Post);
      OfStageOnly(init, Finalize);
      InsertAmongStages(r, p, f, x);
      OrderSnoc(specs);
      hide OfStage, Order;
      assert Order(init) == r + p + f;
      OfStageSnoc(specs, Resolve);
      OfStageSnoc(specs, Post);
      OfStageSnoc(specs, Finalize);
    }
  }

  lemma OrderSnoc<G, C>(specs: seq<PassSpec<G, C>>)
    requires specs != []
    ensures Order(specs) == Insert(InEarlierStage, Order(specs[..|specs| - 1]), specs[|specs| - 1])
  {
  }

  lemma OfStageSnoc<G, C>(s: seq<PassSpec<G, C>>, stage: Stage)
    requires s != []
    ensures var x := s[|s| - 1];
      OfStage(s, stage) == if x.stage == stage then OfStage(s[..|s| - 1], stage) + [x] else OfStage(s[..|s| - 1], stage)
  {
  }

  ghost predicate AllOf<G, C>(s: seq<PassSpec<G, C>>, stage: Stage) {
    forall i :: 0 <= i < |s| ==> s[i].stage == stage
  }

  lemma InsertAmongStages<G, C>(r: seq<PassSpec<G, C>>, p: seq<PassSpec<G, C>>, f: seq<PassSpec<G, C>>,
                                x: PassSpec<G, C>)
    requires AllOf(r, Resolve) && AllOf(p, Post) && AllOf(f, Finalize)
    ensures Insert(InEarlierStage, r + p + f, x) == match x.stage
                                           case Resolve => (r + [x]) + p + f
                                           case Post => r + (p + [x]) + f
                                           case Finalize => r + p + (f + [x])
  {
    hide Insert;
    match x.stage
    case Resolve =>
      InsertBetween(r, p + f, x);
      assert r + (p + f) == r + p + f;
    case Post =>
      InsertBetween(r + p, f, x);
    case Finalize =>
      InsertBetween(r + p + f, [], x);
      assert r + p + f + [] == r + p + f;
  }

  /** A pass appended to the declaration runs last in its stage; nothing else moves. */
  lemma AppendRunsLastInStage<G, C>(specs: seq<PassSpec<G, C>>, x: PassSpec<G, C>)
    ensures var r, p, f := OfStage(specs, Resolve), OfStage(specs, Post), OfStage(specs, Finalize);
      && Order(specs) == r + p + f
      && Order(specs + [x]) == match x.stage
                               case Resolve => r + [x] + p + f
                               case Post => r + p + [x] + f
                               case Finalize => r + p + f + [x]
  {
    OrderIsStages(specs);
    OrderIsStages(specs + [x]);
    hide Order;
    assert (specs + [x])[..|specs|] == specs;
  }

  lemma {:induction false} StagesShareOut<G, C>(specs: seq<PassSpec<G, C>>)
    ensures multiset(specs)
         == multiset(OfStage(specs, Resolve)) + multiset(OfStage(specs, Post)) + multiset(OfStage(specs, Finalize))
  {
    if specs == [] {
    } else {
      assert specs == specs[..|specs| - 1] + [specs[|specs| - 1]];
      StagesShareOut(specs[..|specs| - 1]);
    }
  }

  lemma {:induction false} OfStageAgain<G, C>(s: seq<PassSpec<G, C>>, stage: Stage, again: Stage)
    ensures OfStage(OfStage(s, stage), again) == if again == stage then OfStage(s, stage) else []
  {
    if s == [] {
    } else {
      OfStageAgain(s[..|s| - 1], stage, again);
      OfStageConcat(OfStage(s[..|s| - 1], stage), if s[|s| - 1].stage == stage then [s[|s| - 1]] else [], again);
    }
  }

  lemma StagesInOrder<G, C>(r: seq<PassSpec<G, C>>, p: seq<PassSpec<G, C>>, f: seq<PassSpec<G, C>>)
    requires AllOf(r, Resolve) && AllOf(p, Post) && AllOf(f, Finalize)
    ensures StageSorted(r + p + f)
  {
  }

  lemma StagesOfOrder<G, C>(specs: seq<PassSpec<G, C>>, stage: Stage)
    ensures OfStage(Order(specs), stage) == OfStage(specs, stage)
  {
    OrderIsStages(specs);
    var r, p, f := OfStage(specs, Resolve), OfStage(specs, Post), OfStage(specs, Finalize);
    OfStageConcat(r + p, f, stage);
    OfStageConcat(r, p, stage);
    OfStageAgain(specs, Resolve, stage);
    OfStageAgain(specs, Post, stage);
    OfStageAgain(specs, Finalize, stage);
    hide Order, OfStage;
    match stage
    case Resolve =>
    case Post =>
    case Finalize =>
  }

  /** The run order is a permutation sorted by stage that keeps the declaration order within
      every stage. */
  lemma OrderIsStableSort<G, C>(specs: seq<PassSpec<G, C>>)
    ensures StageSorted(Order(specs)) && multiset(Order(specs)) == multiset(specs)
    ensures forall stage :: OfStage(Order(specs), stage) == OfStage(specs, stage)
  {
    OrderIsStages(specs);
    StagesShareOut(specs);
    OfStageOnly(specs, Resolve);
    OfStageOnly(specs, Post);
    OfStageOnly(specs, Finalize);
    hide Order, OfStage, StageSorted, AllOf;
    StagesInOrder(OfStage(specs, Resolve), OfStage(specs, Post), OfStage(specs, Finalize));
    forall stage ensures OfStage(Order(specs), stage) == OfStage(specs, stage) {
      StagesOfOrder(specs, stage);
    }
  }

  // ----- validation

  /** Where the first pass of this name runs. */
  function Position<G, C>(order: seq<PassSpec<G, C>>, name: string): Option<nat> {
    if order == [] then None
    else match Position(order[..|order| - 1], name)
      case Some(i) => Some(i)
      case None => if order[|order| - 1].name == name then Some(|order| - 1) else None
  }

  lemma {:induction false} PositionIsFirst<G, C>(order: seq<PassSpec<G, C>>, name: string)
    ensures match Position(order, name)
      case None => forall i :: 0 <= i < |order| ==> order[i].name != name
      case Some(i) => i < |order| && order[i].name == name && forall j :: 0 <= j < i ==> order[j].name != name
  {
    if order == [] {
    } else {
      PositionIsFirst(order[..|order| - 1], name);
    }
  }

  /** What a clean declaration means for the pass at place `i` of the run. */
  ghost predicate CleanAt<G, C>(order: seq<PassSpec<G, C>>, i: nat)
    requires i < |order|
  {
    && order[i].name != ""
    && (forall j :: 0 <= j < i ==> order[j].name != order[i].name)
    && (forall k :: 0 <= k < |order[i].after| ==> RunsBefore(order, order[i].after[k], i))
  }

  /** Some pass of this name runs at a place before `i`. */
  ghost predicate RunsBefore<G, C>(order: seq<PassSpec<G, C>>, name: string, i: nat)
    requires i <= |order|
  {
    exists j :: 0 <= j < i && order[j].name == name
  }

  /** What is to be reported of the pass at place `i`. */
  ghost predicate IsProblem<G, C>(order: seq<PassSpec<G, C>>, i: nat, e: Problem)
    requires i < |order|
  {
    var spec := order[i];
    match e
    case EmptyName(place) => place == i && spec.name == ""
    case DuplicateName(name) => name == spec.name && RunsBefore(order, name, i)
    case UnknownDependency(name, dep) => name == spec.name && dep in spec.after && !RunsBefore(order, dep, |order|)
    case SelfDependency(name) => name == spec.name && name in spec.after && !RunsBefore(order, name, i)
    case LaterDependency(name, dep) =>
      && name == spec.name && dep in spec.after
      && !RunsBefore(order, dep, i + 1) && RunsBefore(order, dep, |order|)
  }

  lemma CleanMeansNoProblem<G, C>(order: seq<PassSpec<G, C>>, i: nat)
    requires i < |order|
    ensures CleanAt(order, i) <==> forall e :: !IsProblem(order, i, e)
  {
    var spec := order[i];
    if forall e :: !IsProblem(order, i, e) {
      assert !IsProblem(order, i, EmptyName(i));
      assert !IsProblem(order, i, DuplicateName(spec.name));
      forall k | 0 <= k < |spec.after| ensures RunsBefore(order, spec.after[k], i) {
        var dep := spec.after[k];
        assert !IsProblem(order, i, UnknownDependency(spec.name, dep));
        assert !IsProblem(order, i, SelfDependency(spec.name));
        assert !IsProblem(order, i, LaterDependency(spec.name, dep));
      }
    }
    if CleanAt(order, i) {
      forall dep | dep in spec.after ensures RunsBefore(order, dep, i) {
        var k :| 0 <= k < |spec.after| && spec.after[k] == dep;
      }
    }
  }

  /** Every problem of the pass at place `i` is reported, and nothing else. */
  method ValidateOne<G, C>(order: seq<PassSpec<G, C>>, i: nat) returns (errors: seq<Problem>)
    requires i < |order|
    ensures forall e :: e in errors <==> IsProblem(order, i, e)
  {
    var spec := order[i];
    errors := [];
    if spec.name == "" {
      errors := errors + [EmptyName(i)];
    }
    if exists j :: 0 <= j < i && order[j].name == spec.name {
      errors := errors + [DuplicateName(spec.name)];
    }
    ghost var own := errors;
    assert forall e :: e in own <==>
      !e.UnknownDependency? && !e.SelfDependency? && !e.LaterDependency? && IsProblem(order, i, e);
    for k := 0 to |spec.after|
      invariant forall e :: e in errors <==>
        e in own || exists l :: 0 <= l < k && DependencyProblem(order, i, spec.after[l], e)
    {
      var more := ValidateDependency(order, i, spec.after[k]);
      errors := errors + more;
    }
    forall e ensures e in errors <==> IsProblem(order, i, e) {
      DependencyProblems(order, i, e);
    }
  }

  /** What is to be reported of one `after` name of the pass at place `i`. */
  ghost predicate DependencyProblem<G, C>(order: seq<PassSpec<G, C>>, i: nat, dep: string, e: Problem)
    requires i < |order|
  {
    match e
    case EmptyName(_) => false
    case DuplicateName(_) => false
    case UnknownDependency(name, d) => name == order[i].name && d == dep && !RunsBefore(order, dep, |order|)
    case SelfDependency(name) => name == order[i].name == dep && !RunsBefore(order, dep, i)
    case LaterDependency(name, d) =>
      && name == order[i].name && d == dep
      && !RunsBefore(order, dep, i + 1) && RunsBefore(order, dep, |order|)
  }

  lemma DependencyProblems<G, C>(order: seq<PassSpec<G, C>>, i: nat, e: Problem)
    requires i < |order|
    ensures (exists l :: 0 <= l < |order[i].after| && DependencyProblem(order, i, order[i].after[l], e))
       <==> (e.UnknownDependency? || e.SelfDependency? || e.LaterDependency?) && IsProblem(order, i, e)
  {
    hide RunsBefore;
    var after := order[i].after;
    if (e.UnknownDependency? || e.SelfDependency? || e.LaterDependency?) && IsProblem(order, i, e) {
      var dep := if e.SelfDependency? then e.name else e.dep;
      var l :| 0 <= l < |after| && after[l] == dep;
      assert DependencyProblem(order, i, after[l], e);
    }
  }

  method ValidateDependency<G, C>(order: seq<PassSpec<G, C>>, i: nat, dep: string) returns (errors: seq<Problem>)
    requires i < |order|
    ensures forall e :: e in errors <==> DependencyProblem(order, i, dep, e)
  {
    var spec := order[i];
    PositionIsFirst(order, dep);
    match Position(order, dep) {
      case None =>
        return [UnknownDependency(spec.name, dep)];
      case Some(j) =>
        assert RunsBefore(order, dep, |order|);
        if j == i {
          return [SelfDependency(spec.name)];
        } else if j > i {
          return [LaterDependency(spec.name, dep)];
        } else {
          assert RunsBefore(order, dep, i) && RunsBefore(order, dep, i + 1);
          return [];
        }
    }
  }

  /** Every problem of every pass is reported, and nothing else; so none is exactly when every name
      is non-empty and unique and every dependency runs strictly earlier. */
  method Validate<G, C>(specs: seq<PassSpec<G, C>>) returns (errors: seq<Problem>)
    ensures forall e :: e in errors <==> exists i :: 0 <= i < |Order(specs)| && IsProblem(Order(specs), i, e)
    ensures errors == [] <==> Clean(specs)
  {
    var order := Order(specs);
    errors := [];
    for i := 0 to |order|
      invariant forall e :: e in errors <==> exists j :: 0 <= j < i && IsProblem(order, j, e)
    {
      hide Order, IsProblem;
      var more := ValidateOne(order, i);
      errors := errors + more;
    }
    NoErrorsIsClean(specs, errors);
  }

  lemma NoErrorsIsClean<G, C>(specs: seq<PassSpec<G, C>>, errors: seq<Problem>)
    requires forall e :: e in errors <==> exists i :: 0 <= i < |Order(specs)| && IsProblem(Order(specs), i, e)
    ensures errors == [] <==> Clean(specs)
  {
    var order := Order(specs);
    hide Order, IsProblem, CleanAt;
    forall i | 0 <= i < |order| ensures CleanAt(order, i) <==> forall e :: !IsProblem(order, i, e) {
      CleanMeansNoProblem(order, i);
    }
    if errors == [] {
      forall i, e | 0 <= i < |order| ensures !IsProblem(order, i, e) {
        assert e !in errors;
      }
    } else {
      assert errors[0] in errors;
      var i :| 0 <= i < |order| && IsProblem(order, i, errors[0]);
      assert !CleanAt(order, i);
    }
  }

  ghost predicate Clean<G, C>(specs: seq<PassSpec<G, C>>) {
    forall i :: 0 <= i < |Order(specs)| ==> CleanAt(Order(specs), i)
  }

  /** `b` names `a` in its `after`. */
  ghost predicate DependsOn<G, C>(b: PassSpec<G, C>, a: PassSpec<G, C>) {
    a.name in b.after
  }

  ghost predicate IsChain<G, C>(specs: seq<PassSpec<G, C>>, chain: seq<nat>) {
    && |chain| > 0
    && (forall k :: 0 <= k < |chain| ==> chain[k] < |Order(specs)|)
    && (forall k :: 0 < k < |chain| ==> DependsOn(Order(specs)[chain[k - 1]], Order(specs)[chain[k]]))
  }

  /** In a clean registry every chain of dependencies runs backward through the order ... */
  lemma {:induction false} ChainsGoBack<G, C>(specs: seq<PassSpec<G, C>>, chain: seq<nat>)
    requires Clean(specs) && IsChain(specs, chain)
    ensures |chain| > 1 ==> chain[|chain| - 1] < chain[0]
  {
    hide Order;
    if |chain| > 1 {
      var n := |chain| - 1;
      var order := Order(specs);
      assert DependsOn(order[chain[n - 1]], order[chain[n]]);
      DependencyRunsBefore(specs, chain[n - 1], chain[n]);
      assert IsChain(specs, chain[..n]);
      ChainsGoBack(specs, chain[..n]);
    }
  }

  lemma DependencyRunsBefore<G, C>(specs: seq<PassSpec<G, C>>, b: nat, a: nat)
    requires Clean(specs) && b < |Order(specs)| && a < |Order(specs)| && DependsOn(Order(specs)[b], Order(specs)[a])
    ensures a < b
  {
    hide Order;
    var order := Order(specs);
    var k :| 0 <= k < |order[b].after| && order[b].after[k] == order[a].name;
    assert CleanAt(order, b) && RunsBefore(order, order[b].after[k], b);
    var j :| 0 <= j < b && order[j].name == order[a].name;
    OnePlacePerName(specs, j, a);
  }

  lemma OnePlacePerName<G, C>(specs: seq<PassSpec<G, C>>, i: nat, j: nat)
    requires Clean(specs) && i < |Order(specs)| && j < |Order(specs)| && Order(specs)[i].name == Order(specs)[j].name
    ensures i == j
  {
    hide Order;
    assert CleanAt(Order(specs), i) && CleanAt(Order(specs), j);
  }

  /** ... so no pass depends on itself, directly or not. */
  lemma NoCycles<G, C>(specs: seq<PassSpec<G, C>>, chain: seq<nat>)
    requires Clean(specs) && IsChain(specs, chain) && |chain| > 1
    ensures chain[0] != chain[|chain| - 1]
  {
    ChainsGoBack(specs, chain);
  }

  // ----- the run

  /** The counts per stage, and the times per stage in run order. */
  datatype Report = Report(
    ran: seq<string>, resolve: nat, post: nat, finalize: nat, elapsed: seq<nat>, passElapsed: seq<(string, nat)>)

  function NamesOf<G, C>(order: seq<PassSpec<G, C>>): (r: seq<string>)
    ensures |r| == |order|
  {
    seq(|order|, i requires 0 <= i < |order| => order[i].name)
  }

  function StageTime<G, C>(order: seq<PassSpec<G, C>>, took: seq<nat>, stage: Stage): nat
    requires |took| == |order|
  {
    if order == [] then 0
    else
      var n := |order| - 1;
      StageTime(order[..n], took[..n], stage) + (if order[n].stage == stage then took[n] else 0)
  }

  /** A pass's time counts once, for its own stage. */
  lemma {:induction false} StageTimeMoves<G, C>(order: seq<PassSpec<G, C>>, took: seq<nat>, i: nat, t: nat,
                                                stage: Stage)
    requires |took| == |order| && i < |order|
    ensures StageTime(order, took[i := t], stage)
         == StageTime(order, took, stage) + if order[i].stage == stage then t - took[i] else 0
  {
    var n := |order| - 1;
    if i < n {
      StageTimeMoves(order[..n], took[..n], i, t, stage);
      assert took[i := t][..n] == took[..n][i := t];
    } else {
      assert took[i := t][..n] == took[..n];
    }
  }

  lemma {:induction false} NoTimeNoStageTime<G, C>(order: seq<PassSpec<G, C>>, took: seq<nat>, stage: Stage)
    requires |took| == |order| && forall i :: 0 <= i < |took| ==> took[i] == 0
    ensures StageTime(order, took, stage) == 0
  {
    if order == [] {
    } else {
      NoTimeNoStageTime(order[..|order| - 1], took[..|order| - 1], stage);
    }
  }

  /** The passes of a stage are those declared with it, in the order declared. */
  lemma {:induction false} OfStageSelects<G, C>(s: seq<PassSpec<G, C>>, stage: Stage) returns (places: seq<nat>)
    ensures Selects(s, places, OfStage(s, stage))
    ensures forall i: nat :: i in places <==> i < |s| && s[i].stage == stage
  {
    if s == [] {
      places := [];
    } else {
      var init, last := s[..|s| - 1], s[|s| - 1];
      assert s == init + [last];
      places := OfStageSelects(init, stage);
      SelectsSnoc(init, places, OfStage(init, stage), last);
      if last.stage == stage {
        places := places + [|init|];
      }
    }
  }

  lemma NothingYet<G, C>()
    ensures forall stage: Stage :: OfStage<G, C>([], stage) == [] && StageTime<G, C>([], [], stage) == 0
  {
  }

  /** What one more pass adds to the books of a stage. */
  lemma OnePassMore<G, C>(order: seq<PassSpec<G, C>>, took: seq<nat>, i: nat, stage: Stage)
    requires |took| == |order| && i < |order|
    ensures |OfStage(order[..i + 1], stage)| == |OfStage(order[..i], stage)| + if order[i].stage == stage then 1 else 0
    ensures StageTime(order[..i + 1], took[..i + 1], stage)
         == StageTime(order[..i], took[..i], stage) + if order[i].stage == stage then took[i] else 0
  {
    assert order[..i + 1][..i] == order[..i] && took[..i + 1][..i] == took[..i];
  }

  /** Each pass runs once, in order, on the graph the one before left: `gs` are the graphs between
      the passes, and `took` the clock's readings. */
  method Run<G, C>(specs: seq<PassSpec<G, C>>, g: G, ctx: C, took: seq<nat>)
    returns (g': G, report: Report, ghost gs: seq<G>)
    requires |took| == |specs|
    ensures |gs| == |specs| + 1 && gs[0] == g && g' == gs[|specs|]
    ensures forall i :: 0 <= i < |specs| ==> gs[i + 1] == Order(specs)[i].run(gs[i], ctx)
    ensures |report.ran| == |specs| && forall i :: 0 <= i < |specs| ==> report.ran[i] == Order(specs)[i].name
    ensures report.ran == NamesOf(Order(specs))
    ensures report.resolve == |OfStage(specs, Resolve)|
    ensures report.post == |OfStage(specs, Post)|
    ensures report.finalize == |OfStage(specs, Finalize)|
    ensures |report.elapsed| == 3 && report.elapsed[0] == StageTime(Order(specs), took, Resolve)
    ensures report.elapsed[1] == StageTime(Order(specs), took, Post)
    ensures report.elapsed[2] == StageTime(Order(specs), took, Finalize)
    ensures |report.passElapsed| == |specs|
    ensures forall i :: 0 <= i < |specs| ==> report.passElapsed[i] == (Order(specs)[i].name, took[i])
  {
    OrderIsStableSort(specs);
    hide Insert, Order, StageSorted, OfStage, StageTime;
    var order := Order(specs);
    NothingYet<G, C>();
    g', gs := g, [g];
    var ran: seq<string>, passElapsed: seq<(string, nat)> := [], [];
    var resolve, post, finalize := 0, 0, 0;
    var elapsed: seq<nat> := [0, 0, 0];
    for i := 0 to |order|
      invariant |gs| == i + 1 && gs[0] == g && gs[i] == g'
      invariant forall j :: 0 <= j < i ==> gs[j + 1] == order[j].run(gs[j], ctx)
      invariant ran == NamesOf(order[..i])
      invariant |passElapsed| == i && forall j :: 0 <= j < i ==> passElapsed[j] == (order[j].name, took[j])
      invariant resolve == |OfStage(order[..i], Resolve)| && post == |OfStage(order[..i], Post)|
      invariant finalize == |OfStage(order[..i], Finalize)|
      invariant |elapsed| == 3
      invariant forall stage: Stage :: elapsed[stage.Index()] == StageTime(order[..i], took[..i], stage)
    {
      forall stage: Stage {
        OnePassMore(order, took, i, stage);
      }
      var spec := order[i];
      g' := spec.run(g', ctx);
      gs := gs + [g'];
      ran := ran + [spec.name];
      elapsed := elapsed[spec.stage.Index() := elapsed[spec.stage.Index()] + took[i]];
      passElapsed := passElapsed + [(spec.name, took[i])];
      match spec.stage {
        case Resolve => resolve := resolve + 1;
        case Post => post := post + 1;
        case Finalize => finalize := finalize + 1;
      }
    }
    assert order[..|order|] == order && took[..|took|] == took;
    assert forall j: Stage :: elapsed[j.Index()] == StageTime(order, took, j);
    assert Resolve.Index() == 0 && Post.Index() == 1 && Finalize.Index() == 2;
    report := Report(ran, resolve, post, finalize, elapsed, passElapsed);
  }

  /** In a clean registry every pass runs after all its dependencies, each exactly once. */
  lemma RunsAfterDependencies<G, C>(specs: seq<PassSpec<G, C>>, i: nat, dep: string)
    requires Clean(specs) && i < |specs| && dep in Order(specs)[i].after
    ensures dep in NamesOf(Order(specs))[..i]
    ensures multiset(NamesOf(Order(specs)))[Order(specs)[i].name] == 1
  {
    hide Order;
    var order, names := Order(specs), NamesOf(Order(specs));
    assert CleanAt(order, i);
    var k :| 0 <= k < |order[i].after| && order[i].after[k] == dep;
    assert RunsBefore(order, dep, i);
    var j :| 0 <= j < i && order[j].name == dep;
    assert names[..i][j] == dep;
    forall l | 0 <= l < |order| && l != i ensures names[l] != names[i] {
      assert CleanAt(order, l);
    }
    OnceAt(names, i);
  }

  /** The stage counts add up to the passes run. */
  lemma {:induction false} CountsAddUp<G, C>(specs: seq<PassSpec<G, C>>)
    ensures |OfStage(specs, Resolve)| + |OfStage(specs, Post)| + |OfStage(specs, Finalize)| == |specs|
  {
    if specs == [] {
    } else {
      CountsAddUp(specs[..|specs| - 1]);
    }
  }

  // ----- the slowest pass

  /** None took longer than pass `i`, and every earlier one took less. */
  ghost predicate FirstSlowest(passes: seq<(string, nat)>, i: int) {
    && 0 <= i < |passes|
    && (forall j :: 0 <= j < |passes| ==> passes[j].1 <= passes[i].1)
    && (forall j :: 0 <= j < i ==> passes[j].1 < passes[i].1)
  }

  /** A fold that keeps the best so far unless the next is strictly slower. */
  method Slowest(passes: seq<(string, nat)>) returns (best: Option<(string, nat)>)
    ensures best.None? <==> passes == []
    ensures best.Some? ==> exists i :: FirstSlowest(passes, i) && passes[i] == best.value
  {
    best := None;
    ghost var at := 0;
    for k := 0 to |passes|
      invariant best.None? <==> k == 0
      invariant best.Some? ==> FirstSlowest(passes[..k], at) && passes[at] == best.value
    {
      if best.None? || best.value.1 < passes[k].1 {
        best := Some(passes[k]);
        at := k;
      }
    }
    assert passes[..|passes|] == passes;
  }
}
