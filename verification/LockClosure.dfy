/** The worklist closure over a lock, and why packaging does not move its text. */
module LockClosures {
  import opened Options
  import opened Bytes
  import opened Locks

  // ----- the graph of packages

  /** Some entry of `i` resolves to `j`. */
  ghost predicate Needs(p: Lock, i: nat, j: nat) {
    i < |p| && exists k :: 0 <= k < |p[i].dependencies| && ResolveDep(p, p[i].dependencies[k]) == Some(j)
  }

  /** Every entry of `i` resolves. */
  ghost predicate Resolves(p: Lock, i: nat) {
    i < |p| && forall k :: 0 <= k < |p[i].dependencies| ==> ResolveDep(p, p[i].dependencies[k]).Some?
  }

  ghost predicate IsRoot(p: Lock, seeds: seq<Str>, i: nat) {
    exists k :: 0 <= k < |seeds| && PickSeed(p, seeds[k]) == Some(i)
  }

  ghost predicate IsChain(p: Lock, seeds: seq<Str>, chain: seq<nat>) {
    && chain != [] && IsRoot(p, seeds, chain[0])
    && forall k :: 0 < k < |chain| ==> Needs(p, chain[k - 1], chain[k])
  }

  /** `i` is a seed's package or is needed, directly or not, by one. */
  ghost predicate Reached(p: Lock, seeds: seq<Str>, i: nat) {
    exists chain :: IsChain(p, seeds, chain) && chain[|chain| - 1] == i
  }

  lemma RootReached(p: Lock, seeds: seq<Str>, i: nat)
    requires IsRoot(p, seeds, i)
    ensures Reached(p, seeds, i)
  {
    assert IsChain(p, seeds, [i]);
    assert [i][|[i]| - 1] == i;
  }

  lemma NeededReached(p: Lock, seeds: seq<Str>, i: nat, j: nat)
    requires Reached(p, seeds, i) && Needs(p, i, j)
    ensures Reached(p, seeds, j)
  {
    hide Needs;
    var chain :| IsChain(p, seeds, chain) && chain[|chain| - 1] == i;
    var longer := chain + [j];
    forall k | 0 < k < |longer| ensures Needs(p, longer[k - 1], longer[k]) {
      if k < |chain| {
        assert longer[k - 1] == chain[k - 1] && longer[k] == chain[k];
      }
    }
    assert IsChain(p, seeds, longer) && longer[|longer| - 1] == j;
  }

  /** What holds of the roots and passes along every need holds of all that is reached. */
  lemma {:induction false} ReachedInside(p: Lock, seeds: seq<Str>, inside: set<nat>, chain: seq<nat>)
    requires IsChain(p, seeds, chain)
    requires forall i: nat :: IsRoot(p, seeds, i) ==> i in inside
    requires forall i: nat, j: nat :: i in inside && Needs(p, i, j) ==> j in inside
    ensures chain[|chain| - 1] in inside
  {
    hide Needs;
    if |chain| == 1 {
    } else {
      var init := chain[..|chain| - 1];
      assert IsChain(p, seeds, init) by {
        forall k | 0 < k < |init| ensures Needs(p, init[k - 1], init[k]) {
          assert init[k - 1] == chain[k - 1] && init[k] == chain[k];
        }
      }
      ReachedInside(p, seeds, inside, init);
      assert Needs(p, chain[|chain| - 2], chain[|chain| - 1]);
    }
  }

  // ----- the text

  function Render(pkg: Package): Str {
    pkg.name + [SPACE] + pkg.version
  }

  function Join(lines: seq<Str>, sep: Str): Str {
    if lines == [] then []
    else if |lines| == 1 then lines[0]
    else lines[0] + sep + Join(lines[1..], sep)
  }

  function OrDash(s: Option<Str>): Str {
    if s.Some? then s.value else DASH
  }

  /** What the entries resolve to, in order; entries that do not resolve are left out. */
  function Targets(p: Lock, entries: seq<Str>): (r: seq<nat>)
    ensures forall k :: 0 <= k < |r| ==> r[k] < |p|
  {
    if entries == [] then []
    else
      var last := entries[|entries| - 1];
      ResolvedInRange(p, last);
      Targets(p, entries[..|entries| - 1])
      + (match ResolveDep(p, last) case None => [] case Some(j) => [j])
  }

  lemma ResolvedInRange(p: Lock, entry: Str)
    ensures match ResolveDep(p, entry) case None => true case Some(j) => j < |p|
  {
    if ResolveDep(p, entry).Some? {
      ResolvesToTheOnly(p, entry, ResolveDep(p, entry).value);
    }
  }

  function Renders(p: Lock, targets: seq<nat>): (r: seq<Str>)
    requires forall k :: 0 <= k < |targets| ==> targets[k] < |p|
    ensures |r| == |targets|
  {
    seq(|targets|, k requires 0 <= k < |targets| => Render(p[targets[k]]))
  }

  /** One package's line: identity, source, checksum and its resolved dependencies, sorted. */
  function LineText(pkg: Package, deps: seq<Str>): Str {
    Render(pkg) + [SPACE] + OrDash(pkg.source) + [SPACE] + OrDash(pkg.checksum)
    + DEPS + Join(SortTexts(deps), COMMA) + CLOSE
  }

  function Line(p: Lock, i: nat): Str
    requires i < |p|
  {
    LineText(p[i], Renders(p, Targets(p, p[i].dependencies)))
  }

  function Lines(p: Lock, closed: seq<nat>): (r: seq<Str>)
    requires forall k :: 0 <= k < |closed| ==> closed[k] < |p|
    ensures |r| == |closed|
  {
    seq(|closed|, k requires 0 <= k < |closed| => Line(p, closed[k]))
  }

  function Text(lines: seq<Str>): Str {
    Join(SortTexts(lines), NEWLINE) + NEWLINE
  }

  /** `closed` lists exactly the reached packages, each once. */
  ghost predicate IsClosure(p: Lock, seeds: seq<Str>, closed: seq<nat>) {
    && (forall k :: 0 <= k < |closed| ==> closed[k] < |p|)
    && (forall k, l :: 0 <= k < l < |closed| ==> closed[k] != closed[l])
    && (forall i: nat :: i in closed <==> Reached(p, seeds, i))
  }

  /** `text` is made of exactly the lines of the reached packages. */
  ghost predicate HasText(p: Lock, seeds: seq<Str>, text: Str) {
    exists closed :: IsClosure(p, seeds, closed) && text == Text(Lines(p, closed))
  }

  /** Every seed is one package, and every reached package's entries resolve. */
  ghost predicate Closes(p: Lock, seeds: seq<Str>) {
    && (forall k :: 0 <= k < |seeds| ==> PickSeed(p, seeds[k]).Some?)
    && (forall i: nat :: Reached(p, seeds, i) ==> Resolves(p, i))
  }

  // ----- the worklist

  method PushSeeds(p: Lock, seeds: seq<Str>) returns (r: Option<seq<nat>>)
    ensures r.Some? <==> forall k :: 0 <= k < |seeds| ==> PickSeed(p, seeds[k]).Some?
    ensures r.Some? ==> forall i: nat :: i in r.value <==> IsRoot(p, seeds, i)
  {
    var stack: seq<nat> := [];
    for k := 0 to |seeds|
      invariant forall j :: 0 <= j < k ==> PickSeed(p, seeds[j]).Some?
      invariant forall i: nat :: i in stack <==> exists j :: 0 <= j < k && PickSeed(p, seeds[j]) == Some(i)
    {
      match PickSeed(p, seeds[k]) {
        case None => return None;
        case Some(i) => stack := stack + [i];
      }
    }
    r := Some(stack);
  }

  /** Resolve every entry of one package; none when one does not resolve. */
  method ResolveAll(p: Lock, i: nat) returns (r: Option<seq<nat>>)
    requires i < |p|
    ensures r.Some? <==> Resolves(p, i)
    ensures r.Some? ==> r.value == Targets(p, p[i].dependencies)
    ensures r.Some? ==> forall j: nat :: j in r.value <==> Needs(p, i, j)
  {
    hide ResolveDep, Targets;
    var entries := p[i].dependencies;
    var targets: seq<nat> := [];
    NoTargets(p);
    for k := 0 to |entries|
      invariant forall l :: 0 <= l < k ==> ResolveDep(p, entries[l]).Some?
      invariant targets == Targets(p, entries[..k])
      invariant forall j: nat :: j in targets <==> exists l :: 0 <= l < k && ResolveDep(p, entries[l]) == Some(j)
    {
      TargetsUpTo(p, entries, k);
      match ResolveDep(p, entries[k]) {
        case None => return None;
        case Some(j) => targets := targets + [j];
      }
    }
    assert entries[..|entries|] == entries;
    r := Some(targets);
  }

  lemma NoTargets(p: Lock)
    ensures Targets(p, []) == []
  {
  }

  lemma TargetsUpTo(p: Lock, entries: seq<Str>, k: nat)
    requires k < |entries|
    ensures Targets(p, entries[..k + 1]) == Targets(p, entries[..k])
         + match ResolveDep(p, entries[k]) case None => [] case Some(j) => [j]
  {
    assert entries[..k + 1][..k] == entries[..k];
    hide ResolveDep;
  }

  /** What a partial run knows: what is seen is reached and resolves, and everything reached from
      it in one step is seen or waiting. */
  ghost predicate Running(p: Lock, seeds: seq<Str>, stack: seq<nat>, closed: seq<nat>) {
    && (forall k :: 0 <= k < |closed| ==> closed[k] < |p|)
    && (forall k, l :: 0 <= k < l < |closed| ==> closed[k] != closed[l])
    && (forall i: nat :: i in closed ==> Reached(p, seeds, i) && Resolves(p, i))
    && (forall i: nat :: i in stack ==> Reached(p, seeds, i))
    && (forall i: nat :: IsRoot(p, seeds, i) ==> i in closed || i in stack)
    && (forall i: nat, j: nat :: i in closed && Needs(p, i, j) ==> j in closed || j in stack)
  }

  lemma StepRunning(p: Lock, seeds: seq<Str>, stack: seq<nat>, closed: seq<nat>, i: nat, targets: seq<nat>)
    requires Running(p, seeds, stack + [i], closed) && i < |p| && i !in closed && Resolves(p, i)
    requires forall j: nat :: j in targets <==> Needs(p, i, j)
    ensures Running(p, seeds, stack + targets, closed + [i])
  {
    hide Reached, Resolves, Needs, IsRoot;
    assert i in stack + [i];
    forall j: nat | j in targets ensures Reached(p, seeds, j) {
      NeededReached(p, seeds, i, j);
    }
  }

  lemma SkipRunning(p: Lock, seeds: seq<Str>, stack: seq<nat>, closed: seq<nat>, i: nat)
    requires Running(p, seeds, stack + [i], closed) && i in closed
    ensures Running(p, seeds, stack, closed)
  {
    hide Reached, Resolves, Needs, IsRoot;
    forall j: nat | j in stack ensures j in stack + [i] {
    }
  }

  lemma DoneIsClosure(p: Lock, seeds: seq<Str>, closed: seq<nat>)
    requires Running(p, seeds, [], closed)
    ensures IsClosure(p, seeds, closed)
    ensures forall i: nat :: Reached(p, seeds, i) ==> Resolves(p, i)
  {
    hide Resolves, Needs, IsRoot;
    var inside := set i | i in closed;
    forall i: nat | Reached(p, seeds, i) ensures i in closed {
      var chain :| IsChain(p, seeds, chain) && chain[|chain| - 1] == i;
      ReachedInside(p, seeds, inside, chain);
    }
  }

  /** Distinct places below a bound are no more than the bound. */
  lemma {:induction false} DistinctFit(s: seq<nat>, n: nat)
    requires forall k :: 0 <= k < |s| ==> s[k] < n
    requires forall k, l :: 0 <= k < l < |s| ==> s[k] != s[l]
    ensures |s| <= n
  {
    if s == [] {
    } else if exists k :: 0 <= k < |s| && s[k] == n - 1 {
      var k :| 0 <= k < |s| && s[k] == n - 1;
      DistinctFit(s[..k] + s[k + 1..], n - 1);
    } else {
      assert s[0] < n;
      DistinctFit(s, n - 1);
    }
  }

  /** The closure succeeds exactly when every seed is one package and every reached package's
      entries resolve; then its text is made of exactly the reached packages' lines. */
  method LockClosure(p: Lock, seeds: seq<Str>) returns (r: Option<Str>)
    ensures r.Some? <==> Closes(p, seeds)
    ensures r.Some? ==> HasText(p, seeds, r.value)
  {
    hide Reached, Resolves, Needs, Line;
    ghost var closed: seq<nat> := [];
    var roots := PushSeeds(p, seeds);
    if roots.None? {
      return None;
    }
    var stack := roots.value;
    RootsRunning(p, seeds, stack);
    var seen: set<nat> := {};
    var lines: seq<Str> := [];
    while stack != []
      invariant Running(p, seeds, stack, closed)
      invariant forall i: nat :: i in seen <==> i in closed
      invariant lines == Lines(p, closed)
      decreases |p| - |closed|, |stack|
    {
      var i := stack[|stack| - 1];
      assert stack == stack[..|stack| - 1] + [i];
      assert i in stack;
      stack := stack[..|stack| - 1];
      if i in seen {
        SkipRunning(p, seeds, stack, closed, i);
        continue;
      }
      ReachedInRange(p, seeds, i);
      var targets := ResolveAll(p, i);
      if targets.None? {
        return None;
      }
      seen := seen + {i};
      lines := lines + [LineText(p[i], Renders(p, targets.value))];
      assert LineText(p[i], Renders(p, targets.value)) == Line(p, i) by {
        LineUnfolds(p, i);
      }
      StepRunning(p, seeds, stack, closed, i, targets.value);
      closed := closed + [i];
      stack := stack + targets.value;
      DistinctFit(closed, |p|);
    }
    DoneIsClosure(p, seeds, closed);
    r := Some(Join(SortTexts(lines), NEWLINE) + NEWLINE);
  }

  lemma LineUnfolds(p: Lock, i: nat)
    requires i < |p|
    ensures Line(p, i) == LineText(p[i], Renders(p, Targets(p, p[i].dependencies)))
  {
  }

  lemma RootsRunning(p: Lock, seeds: seq<Str>, stack: seq<nat>)
    requires forall i: nat :: i in stack <==> IsRoot(p, seeds, i)
    ensures Running(p, seeds, stack, [])
  {
    hide Reached, Resolves, Needs, IsRoot;
    forall i: nat | i in stack ensures Reached(p, seeds, i) {
      RootReached(p, seeds, i);
    }
  }

  lemma ReachedInRange(p: Lock, seeds: seq<Str>, i: nat)
    requires Reached(p, seeds, i)
    ensures i < |p|
  {
    var chain :| IsChain(p, seeds, chain) && chain[|chain| - 1] == i;
    if |chain| == 1 {
      var k :| 0 <= k < |seeds| && PickSeed(p, seeds[k]) == Some(i);
      PicksTheOnly(p, seeds[k], i);
    } else {
      var h := chain[|chain| - 2];
      assert Needs(p, h, i);
      var k :| 0 <= k < |p[h].dependencies| && ResolveDep(p, p[h].dependencies[k]) == Some(i);
      ResolvedInRange(p, p[h].dependencies[k]);
    }
  }
}
