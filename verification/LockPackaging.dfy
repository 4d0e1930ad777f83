/** However a lock is packaged - reordered, trimmed of packages the closure never reaches, its
    entries spelled shorter or longer - the closure text is the same. */
module LockPackaging {
  import opened Options
  import opened Bags
  import opened Bytes
  import opened Locks
  import opened LockClosures

  // ----- bags of lines

  /** Lists that agree place by place on equal places agree as bags. */
  lemma {:induction false} LabelsPermute(a: seq<nat>, la: seq<Str>, b: seq<nat>, lb: seq<Str>)
    requires |la| == |a| && |lb| == |b| && multiset(a) == multiset(b)
    requires forall i, j :: 0 <= i < |a| && 0 <= j < |b| && a[i] == b[j] ==> la[i] == lb[j]
    ensures multiset(la) == multiset(lb)
    decreases |a|
  {
    SameBagSameSize(a, b);
    if a == [] {
    } else {
      assert a[0] in multiset(b);
      var i :| 0 <= i < |b| && b[i] == a[0];
      WithoutOne(a, 0);
      WithoutOne(b, i);
      WithoutOne(la, 0);
      WithoutOne(lb, i);
      hide Without;
      LabelsPermute(Without(a, 0), Without(la, 0), Without(b, i), Without(lb, i));
    }
  }

  function Images(f: map<nat, nat>, s: seq<nat>): (r: seq<nat>)
    requires forall k :: 0 <= k < |s| ==> s[k] in f
    ensures |r| == |s|
  {
    seq(|s|, k requires 0 <= k < |s| => f[s[k]])
  }

  // ----- two packagings of one closure

  /** `q` holds, at `f[i]`, what `p` holds at `i`. */
  ghost predicate Twins(p: Lock, q: Lock, f: map<nat, nat>, i: nat) {
    && i < |p| && i in f && f[i] < |q|
    && q[f[i]].name == p[i].name && q[f[i]].version == p[i].version
    && q[f[i]].source == p[i].source && q[f[i]].checksum == p[i].checksum
  }

  /** ... and the entries resolve to the same packages, in any order. */
  ghost predicate SameNeeds(p: Lock, q: Lock, f: map<nat, nat>, i: nat) {
    && Twins(p, q, f, i) && Resolves(q, f[i])
    && var t := Targets(p, p[i].dependencies);
       && (forall k :: 0 <= k < |t| ==> t[k] in f)
       && multiset(Targets(q, q[f[i]].dependencies)) == multiset(Images(f, t))
  }

  /** `f` carries the closure of `p` onto a part of `q`. */
  ghost predicate Carries(p: Lock, seeds: seq<Str>, q: Lock, seeds': seq<Str>, f: map<nat, nat>) {
    && (forall i: nat :: Reached(p, seeds, i) ==> SameNeeds(p, q, f, i))
    && (forall i: nat, j: nat :: i in f && j in f && f[i] == f[j] ==> i == j)
    && (forall k :: 0 <= k < |seeds'| ==> PickSeed(q, seeds'[k]).Some?)
    && (forall i: nat :: IsRoot(p, seeds, i) ==> i in f && IsRoot(q, seeds', f[i]))
    && (forall j: nat :: IsRoot(q, seeds', j) ==> exists i: nat :: IsRoot(p, seeds, i) && i in f && f[i] == j)
  }

  lemma {:induction false} TargetsAreNeeds(p: Lock, entries: seq<Str>, j: nat)
    ensures j in Targets(p, entries) <==> exists k :: 0 <= k < |entries| && ResolveDep(p, entries[k]) == Some(j)
  {
    hide ResolveDep;
    if entries == [] {
    } else {
      var init, last := entries[..|entries| - 1], entries[|entries| - 1];
      assert entries == init + [last];
      TargetsAreNeeds(p, init, j);
      if exists k :: 0 <= k < |entries| && ResolveDep(p, entries[k]) == Some(j) {
        var k :| 0 <= k < |entries| && ResolveDep(p, entries[k]) == Some(j);
        assert k < |init| ==> init[k] == entries[k];
      }
      if exists k :: 0 <= k < |init| && ResolveDep(p, init[k]) == Some(j) {
        var k :| 0 <= k < |init| && ResolveDep(p, init[k]) == Some(j);
        assert entries[k] == init[k];
      }
    }
  }

  /** Needs are carried over, and back. */
  lemma NeedsCarried(p: Lock, q: Lock, f: map<nat, nat>, i: nat)
    requires SameNeeds(p, q, f, i)
    ensures forall j: nat :: Needs(p, i, j) ==> j in f && Needs(q, f[i], f[j])
    ensures forall l: nat :: Needs(q, f[i], l) ==> exists j: nat :: Needs(p, i, j) && j in f && f[j] == l
  {
    var t, u := Targets(p, p[i].dependencies), Targets(q, q[f[i]].dependencies);
    var images := Images(f, t);
    forall j: nat | Needs(p, i, j) ensures j in f && Needs(q, f[i], f[j]) {
      TargetsAreNeeds(p, p[i].dependencies, j);
      var k :| 0 <= k < |t| && t[k] == j;
      assert images[k] == f[j];
      assert f[j] in multiset(images) && f[j] in multiset(u);
      TargetsAreNeeds(q, q[f[i]].dependencies, f[j]);
    }
    forall l: nat | Needs(q, f[i], l) ensures exists j: nat :: Needs(p, i, j) && j in f && f[j] == l {
      TargetsAreNeeds(q, q[f[i]].dependencies, l);
      assert l in multiset(u) && l in multiset(images);
      var k :| 0 <= k < |images| && images[k] == l;
      TargetsAreNeeds(p, p[i].dependencies, t[k]);
      assert Needs(p, i, t[k]);
    }
  }

  lemma {:induction false} ChainCarried(p: Lock, seeds: seq<Str>, q: Lock, seeds': seq<Str>, f: map<nat, nat>,
                                        chain: seq<nat>)
    requires Carries(p, seeds, q, seeds', f) && IsChain(p, seeds, chain)
    ensures chain[|chain| - 1] in f && Reached(q, seeds', f[chain[|chain| - 1]])
  {
    hide Needs, SameNeeds, IsRoot;
    if |chain| == 1 {
      RootReached(q, seeds', f[chain[0]]);
    } else {
      var init := chain[..|chain| - 1];
      var i, j := chain[|chain| - 2], chain[|chain| - 1];
      assert IsChain(p, seeds, init) by {
        forall k | 0 < k < |init| ensures Needs(p, init[k - 1], init[k]) {
          assert init[k - 1] == chain[k - 1] && init[k] == chain[k];
        }
      }
      assert init[|init| - 1] == i;
      assert Reached(p, seeds, i);
      ChainCarried(p, seeds, q, seeds', f, init);
      NeedsCarried(p, q, f, i);
      assert Needs(p, i, j);
      NeededReached(q, seeds', f[i], f[j]);
    }
  }

  /** What `q` reaches is exactly the image of what `p` reaches. */
  lemma ReachCarried(p: Lock, seeds: seq<Str>, q: Lock, seeds': seq<Str>, f: map<nat, nat>)
    requires Carries(p, seeds, q, seeds', f)
    ensures forall i: nat :: Reached(p, seeds, i) ==> i in f && Reached(q, seeds', f[i])
    ensures forall l: nat :: Reached(q, seeds', l) ==> exists i: nat :: Reached(p, seeds, i) && i in f && f[i] == l
  {
    hide Needs, SameNeeds, IsRoot, IsChain;
    forall i: nat | Reached(p, seeds, i) ensures i in f && Reached(q, seeds', f[i]) {
      var chain :| IsChain(p, seeds, chain) && chain != [] && chain[|chain| - 1] == i by {
        ChainNonempty(p, seeds);
      }
      ChainCarried(p, seeds, q, seeds', f, chain);
    }
    var inside := set l: nat | l in f.Values && exists i: nat :: Reached(p, seeds, i) && i in f && f[i] == l;
    forall l: nat | IsRoot(q, seeds', l) ensures l in inside {
      var i: nat :| IsRoot(p, seeds, i) && i in f && f[i] == l;
      RootReached(p, seeds, i);
    }
    forall l: nat, m: nat | l in inside && Needs(q, l, m) ensures m in inside {
      var i: nat :| Reached(p, seeds, i) && i in f && f[i] == l;
      NeedsCarried(p, q, f, i);
      var j: nat :| Needs(p, i, j) && j in f && f[j] == m;
      NeededReached(p, seeds, i, j);
    }
    forall l: nat | Reached(q, seeds', l) ensures l in inside {
      var chain :| IsChain(q, seeds', chain) && chain != [] && chain[|chain| - 1] == l by {
        ChainNonempty(q, seeds');
      }
      ReachedInside(q, seeds', inside, chain);
    }
  }

  lemma ChainNonempty(p: Lock, seeds: seq<Str>)
    ensures forall chain :: IsChain(p, seeds, chain) ==> chain != []
  {
  }

  /** A carried package has the same line. */
  lemma LineCarried(p: Lock, q: Lock, f: map<nat, nat>, i: nat)
    requires SameNeeds(p, q, f, i)
    requires forall j: nat :: j in Targets(p, p[i].dependencies) ==> Twins(p, q, f, j)
    ensures Line(p, i) == Line(q, f[i])
  {
    var t, u := Targets(p, p[i].dependencies), Targets(q, q[f[i]].dependencies);
    var images := Images(f, t);
    var rt, ru := Renders(p, t), Renders(q, u);
    forall k, l | 0 <= k < |images| && 0 <= l < |u| && images[k] == u[l] ensures rt[k] == ru[l] {
      assert t[k] in t;
    }
    LabelsPermute(images, rt, u, ru);
    SortedTextsPermute(rt, ru);
  }

  /** A carried closure closes too, with the same text. */
  lemma TextCarried(p: Lock, seeds: seq<Str>, q: Lock, seeds': seq<Str>, f: map<nat, nat>)
    requires Carries(p, seeds, q, seeds', f) && Closes(p, seeds)
    ensures Closes(q, seeds') && SameText(p, seeds, q, seeds')
  {
    ReachCarried(p, seeds, q, seeds', f);
    forall l: nat | Reached(q, seeds', l) ensures Resolves(q, l) {
      var i: nat :| Reached(p, seeds, i) && i in f && f[i] == l;
      assert SameNeeds(p, q, f, i);
    }
    assert Closes(q, seeds') by {
      hide Reached, Resolves, IsRoot, SameNeeds;
    }
    hide Reached, Resolves, IsRoot, SameNeeds, Carries, Text, Lines;
    forall s, t | HasText(p, seeds, s) && HasText(q, seeds', t) ensures s == t {
      var closed :| IsClosure(p, seeds, closed) && s == Text(Lines(p, closed));
      var closed' :| IsClosure(q, seeds', closed') && t == Text(Lines(q, closed'));
      ClosuresAgree(p, seeds, closed, q, seeds', closed', f);
    }
  }

  /** Every text of one closure is the text of the other. */
  ghost predicate SameText(p: Lock, seeds: seq<Str>, q: Lock, seeds': seq<Str>) {
    forall s, t :: HasText(p, seeds, s) && HasText(q, seeds', t) ==> s == t
  }

  lemma ClosuresAgree(p: Lock, seeds: seq<Str>, closed: seq<nat>, q: Lock, seeds': seq<Str>, closed': seq<nat>,
                      f: map<nat, nat>)
    requires Carries(p, seeds, q, seeds', f)
    requires IsClosure(p, seeds, closed) && IsClosure(q, seeds', closed')
    ensures Text(Lines(p, closed)) == Text(Lines(q, closed'))
  {
    ReachCarried(p, seeds, q, seeds', f);
    hide Reached, Resolves, Line, IsRoot;
    forall k | 0 <= k < |closed| ensures closed[k] in f {
      assert closed[k] in closed;
    }
    var images := Images(f, closed);
    ImagesListed(p, seeds, closed, q, seeds', closed', f);
    var lp, lq := Lines(p, closed), Lines(q, closed');
    forall k, l | 0 <= k < |images| && 0 <= l < |closed'| && images[k] == closed'[l] ensures lp[k] == lq[l] {
      assert closed[k] in closed;
      AllTwins(p, seeds, q, seeds', f, closed[k]);
      LineCarried(p, q, f, closed[k]);
    }
    LabelsPermute(images, lp, closed', lq);
    SortedTextsPermute(lp, lq);
  }

  lemma ImagesListed(p: Lock, seeds: seq<Str>, closed: seq<nat>, q: Lock, seeds': seq<Str>, closed': seq<nat>,
                     f: map<nat, nat>)
    requires Carries(p, seeds, q, seeds', f) && IsClosure(p, seeds, closed) && IsClosure(q, seeds', closed')
    requires forall k :: 0 <= k < |closed| ==> closed[k] in f
    ensures multiset(Images(f, closed)) == multiset(closed')
  {
    ReachCarried(p, seeds, q, seeds', f);
    hide Reached, SameNeeds, IsRoot;
    var images := Images(f, closed);
    forall l: nat ensures l in images <==> l in closed' {
      if l in images {
        var k :| 0 <= k < |images| && images[k] == l;
        assert closed[k] in closed;
      }
      if l in closed' {
        var i: nat :| Reached(p, seeds, i) && i in f && f[i] == l;
        var k :| 0 <= k < |closed| && closed[k] == i;
        assert images[k] == l;
      }
    }
    NoRepeatsSameBag(images, closed');
  }

  lemma AllTwins(p: Lock, seeds: seq<Str>, q: Lock, seeds': seq<Str>, f: map<nat, nat>, i: nat)
    requires Carries(p, seeds, q, seeds', f) && Reached(p, seeds, i)
    ensures SameNeeds(p, q, f, i)
    ensures forall j: nat :: j in Targets(p, p[i].dependencies) ==> Twins(p, q, f, j)
  {
    hide Reached, IsRoot;
    assert SameNeeds(p, q, f, i);
    forall j: nat | j in Targets(p, p[i].dependencies) ensures Twins(p, q, f, j) {
      TargetsAreNeeds(p, p[i].dependencies, j);
      NeededReached(p, seeds, i, j);
      assert SameNeeds(p, q, f, j);
    }
  }

  // ----- reordering and trimming

  /** `q` holds exactly the packages of `p` at the keys of `f`, each at its image. */
  ghost predicate Repackaged(p: Lock, q: Lock, f: map<nat, nat>) {
    && (forall i: nat :: i in f ==> i < |p| && f[i] < |q| && q[f[i]] == p[i])
    && (forall i: nat, j: nat :: i in f && j in f && f[i] == f[j] ==> i == j)
    && (forall l: nat :: l < |q| ==> HasImage(f, l))
  }

  ghost predicate HasImage(f: map<nat, nat>, l: nat) {
    exists i: nat :: i in f && f[i] == l
  }

  lemma ResolveKept(p: Lock, q: Lock, f: map<nat, nat>, entry: Str, j: nat)
    requires Repackaged(p, q, f) && ResolveDep(p, entry) == Some(j) && j in f
    ensures ResolveDep(q, entry) == Some(f[j])
  {
    ResolvesToTheOnly(p, entry, j);
    ResolvesToTheOnly(q, entry, f[j]);
    hide ParseDep, Names, ResolveDep;
    var d := ParseDep(entry).value;
    forall l | 0 <= l < |q| ensures Names(d, q[l]) <==> l == f[j] {
      assert HasImage(f, l);
      var i: nat :| i in f && f[i] == l;
    }
  }

  lemma PickKept(p: Lock, q: Lock, f: map<nat, nat>, seed: Str, i: nat)
    requires Repackaged(p, q, f) && PickSeed(p, seed) == Some(i) && i in f
    ensures PickSeed(q, seed) == Some(f[i])
  {
    PicksTheOnly(p, seed, i);
    PicksTheOnly(q, seed, f[i]);
    hide PickSeed;
    if OnlyNamed(p, seed, i) {
      forall l | 0 <= l < |q| ensures q[l].name == seed <==> l == f[i] {
        assert HasImage(f, l);
        var k: nat :| k in f && f[k] == l;
      }
      assert OnlyNamed(q, seed, f[i]);
    } else {
      forall l | 0 <= l < |q| ensures q[l].name == seed && q[l].source.None? <==> l == f[i] {
        assert HasImage(f, l);
        var k: nat :| k in f && f[k] == l;
      }
      assert OnlyMember(q, seed, f[i]);
    }
  }

  lemma {:induction false} TargetsKept(p: Lock, q: Lock, f: map<nat, nat>, entries: seq<Str>)
    requires Repackaged(p, q, f)
    requires forall k :: 0 <= k < |entries| ==> ResolveDep(p, entries[k]).Some? && ResolveDep(p, entries[k]).value in f
    ensures var t := Targets(p, entries);
      && (forall k :: 0 <= k < |t| ==> t[k] in f)
      && Targets(q, entries) == Images(f, t)
  {
    hide ResolveDep, Repackaged;
    if entries == [] {
    } else {
      var last := entries[|entries| - 1];
      TargetsKept(p, q, f, entries[..|entries| - 1]);
      ResolveKept(p, q, f, last, ResolveDep(p, last).value);
    }
  }

  lemma NeedsKept(p: Lock, seeds: seq<Str>, q: Lock, f: map<nat, nat>, i: nat)
    requires Repackaged(p, q, f) && Closes(p, seeds) && Reached(p, seeds, i)
    requires forall j: nat :: Reached(p, seeds, j) ==> j in f
    ensures SameNeeds(p, q, f, i)
  {
    hide Reached, ResolveDep;
    var entries := p[i].dependencies;
    forall k | 0 <= k < |entries| ensures ResolveDep(p, entries[k]).Some? && ResolveDep(p, entries[k]).value in f {
      var j := ResolveDep(p, entries[k]).value;
      assert Needs(p, i, j);
      NeededReached(p, seeds, i, j);
    }
    TargetsKept(p, q, f, entries);
    forall k | 0 <= k < |entries| ensures ResolveDep(q, entries[k]).Some? {
      ResolveKept(p, q, f, entries[k], ResolveDep(p, entries[k]).value);
    }
  }

  /** Reordering the packages and the seeds, or dropping packages outside the closure, leaves a
      closing lock closing with the same text. */
  lemma RepackagingKeepsText(p: Lock, seeds: seq<Str>, q: Lock, seeds': seq<Str>, f: map<nat, nat>)
    requires Closes(p, seeds)
    requires Repackaged(p, q, f) && forall i: nat :: Reached(p, seeds, i) ==> i in f
    requires forall s :: s in seeds <==> s in seeds'
    ensures Closes(q, seeds') && SameText(p, seeds, q, seeds')
  {
    forall i: nat | Reached(p, seeds, i) ensures SameNeeds(p, q, f, i) {
      NeedsKept(p, seeds, q, f, i);
    }
    SeedsKept(p, seeds, q, seeds', f);
    hide Reached, SameNeeds, PickSeed, IsRoot;
    assert Carries(p, seeds, q, seeds', f);
    TextCarried(p, seeds, q, seeds', f);
  }

  lemma SeedsKept(p: Lock, seeds: seq<Str>, q: Lock, seeds': seq<Str>, f: map<nat, nat>)
    requires Closes(p, seeds) && Repackaged(p, q, f) && forall i: nat :: Reached(p, seeds, i) ==> i in f
    requires forall s :: s in seeds <==> s in seeds'
    ensures forall k :: 0 <= k < |seeds'| ==> PickSeed(q, seeds'[k]).Some?
    ensures forall i: nat :: IsRoot(p, seeds, i) ==> i in f && IsRoot(q, seeds', f[i])
    ensures forall j: nat :: IsRoot(q, seeds', j) ==> exists i: nat :: IsRoot(p, seeds, i) && i in f && f[i] == j
  {
    hide Reached, PickSeed, Repackaged;
    forall i: nat | IsRoot(p, seeds, i) ensures i in f && IsRoot(q, seeds', f[i]) {
      RootReached(p, seeds, i);
      var k :| 0 <= k < |seeds| && PickSeed(p, seeds[k]) == Some(i);
      PickKept(p, q, f, seeds[k], i);
      assert seeds[k] in seeds';
      var l :| 0 <= l < |seeds'| && seeds'[l] == seeds[k];
    }
    forall k | 0 <= k < |seeds'|
      ensures PickSeed(q, seeds'[k]).Some?
      ensures exists i: nat :: IsRoot(p, seeds, i) && i in f && PickSeed(q, seeds'[k]) == Some(f[i])
    {
      assert seeds'[k] in seeds;
      var l :| 0 <= l < |seeds| && seeds[l] == seeds'[k];
      var i := PickSeed(p, seeds[l]).value;
      assert IsRoot(p, seeds, i);
      RootReached(p, seeds, i);
      PickKept(p, q, f, seeds[l], i);
    }
  }

  // ----- respelling entries

  /** `q` differs from `p` in the spelling and the order of entries only, and its entries resolve
      in `p` to what those of `p` do. */
  ghost predicate Respelled(p: Lock, q: Lock) {
    && |q| == |p|
    && forall i :: 0 <= i < |p| ==> RespelledAt(p, q, i)
  }

  ghost predicate RespelledAt(p: Lock, q: Lock, i: nat)
    requires i < |p| && i < |q|
  {
    && q[i] == p[i].(dependencies := q[i].dependencies)
    && (Resolves(p, i) ==>
          && (forall k :: 0 <= k < |q[i].dependencies| ==> ResolveDep(p, q[i].dependencies[k]).Some?)
          && multiset(Targets(p, q[i].dependencies)) == multiset(Targets(p, p[i].dependencies)))
  }

  /** Resolving reads names, versions and sources only. */
  lemma ResolveIgnoresEntries(p: Lock, q: Lock, d: DepRef)
    requires |q| == |p| && forall i :: 0 <= i < |p| ==> q[i] == p[i].(dependencies := q[i].dependencies)
    ensures NamedBy(q, d) == NamedBy(p, d)
  {
    if p == [] {
    } else {
      ResolveIgnoresEntries(p[..|p| - 1], q[..|p| - 1], d);
    }
  }

  lemma {:induction false} TargetsIgnoreEntries(p: Lock, q: Lock, entries: seq<Str>)
    requires |q| == |p| && forall i :: 0 <= i < |p| ==> q[i] == p[i].(dependencies := q[i].dependencies)
    ensures Targets(q, entries) == Targets(p, entries)
    ensures forall k :: 0 <= k < |entries| ==> ResolveDep(q, entries[k]) == ResolveDep(p, entries[k])
  {
    if entries == [] {
    } else {
      var last := entries[|entries| - 1];
      TargetsIgnoreEntries(p, q, entries[..|entries| - 1]);
      if ParseDep(last).Some? {
        ResolveIgnoresEntries(p, q, ParseDep(last).value);
      }
      hide NamedBy, ParseDep;
      forall k | 0 <= k < |entries| ensures ResolveDep(q, entries[k]) == ResolveDep(p, entries[k]) {
        assert k < |entries| - 1 ==> entries[..|entries| - 1][k] == entries[k];
      }
    }
  }

  lemma IdentityImages(f: map<nat, nat>, s: seq<nat>)
    requires forall k :: 0 <= k < |s| ==> s[k] in f && f[s[k]] == s[k]
    ensures Images(f, s) == s
  {
  }

  lemma PickIgnoresEntries(p: Lock, q: Lock, seed: Str)
    requires |q| == |p| && forall i :: 0 <= i < |p| ==> q[i] == p[i].(dependencies := q[i].dependencies)
    ensures PickSeed(q, seed) == PickSeed(p, seed)
  {
    forall i: nat ensures PickSeed(q, seed) == Some(i) <==> PickSeed(p, seed) == Some(i) {
      PicksTheOnly(p, seed, i);
      PicksTheOnly(q, seed, i);
      hide PickSeed;
      assert forall j: nat :: OnlyNamed(p, seed, j) <==> OnlyNamed(q, seed, j);
    }
    hide PickSeed;
    assert PickSeed(p, seed).Some? ==> PickSeed(q, seed) == Some(PickSeed(p, seed).value);
    assert PickSeed(q, seed).Some? ==> PickSeed(p, seed) == Some(PickSeed(q, seed).value);
  }

  function Identity(n: nat): (f: map<nat, nat>)
    ensures forall j: nat :: j in f <==> j < n
    ensures forall j: nat :: j in f ==> f[j] == j
  {
    if n == 0 then map[] else Identity(n - 1)[n - 1 := n - 1]
  }

  /** Spelling an entry shorter or longer, while it names the same package, keeps the text. */
  lemma RespellingKeepsText(p: Lock, seeds: seq<Str>, q: Lock)
    requires Closes(p, seeds) && Respelled(p, q)
    ensures Closes(q, seeds) && SameText(p, seeds, q, seeds)
  {
    var f := Identity(|p|);
    forall k | 0 <= k < |seeds| ensures PickSeed(q, seeds[k]) == PickSeed(p, seeds[k]) {
      forall i | 0 <= i < |p| ensures q[i] == p[i].(dependencies := q[i].dependencies) {
        assert RespelledAt(p, q, i);
      }
      PickIgnoresEntries(p, q, seeds[k]);
    }
    forall i: nat | Reached(p, seeds, i) ensures SameNeeds(p, q, f, i) {
      ReachedInRange(p, seeds, i);
      RespelledNeeds(p, q, f, i);
    }
    forall i: nat | IsRoot(p, seeds, i) ensures i in f && IsRoot(q, seeds, f[i]) {
      RootReached(p, seeds, i);
      ReachedInRange(p, seeds, i);
    }
    forall j: nat | IsRoot(q, seeds, j) ensures IsRoot(p, seeds, j) && j in f && f[j] == j {
      var k :| 0 <= k < |seeds| && PickSeed(q, seeds[k]) == Some(j);
      assert IsRoot(p, seeds, j);
      RootReached(p, seeds, j);
      ReachedInRange(p, seeds, j);
    }
    hide Reached, SameNeeds, PickSeed, IsRoot, Respelled;
    assert Carries(p, seeds, q, seeds, f);
    TextCarried(p, seeds, q, seeds, f);
  }

  lemma RespelledNeeds(p: Lock, q: Lock, f: map<nat, nat>, i: nat)
    requires Respelled(p, q) && i < |p| && Resolves(p, i)
    requires forall j: nat :: j in f <==> j < |p|
    requires forall j: nat :: j in f ==> f[j] == j
    ensures SameNeeds(p, q, f, i)
  {
    assert RespelledAt(p, q, i);
    forall j | 0 <= j < |p| ensures q[j] == p[j].(dependencies := q[j].dependencies) {
      assert RespelledAt(p, q, j);
    }
    TargetsIgnoreEntries(p, q, q[i].dependencies);
    IdentityImages(f, Targets(p, p[i].dependencies));
  }

  /** A closure has one text, in whatever order the worklist meets the packages. */
  lemma TextUnique(p: Lock, seeds: seq<Str>, s: Str, t: Str)
    requires Closes(p, seeds) && HasText(p, seeds, s) && HasText(p, seeds, t)
    ensures s == t
  {
    forall i | 0 <= i < |p| ensures RespelledAt(p, p, i) {
    }
    hide Closes, HasText;
    RespellingKeepsText(p, seeds, p);
  }
}
