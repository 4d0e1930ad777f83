/** What packages added to a lock do to a closure: nothing, unless a seed or a reached entry names
    one of them. */
module LockAdding {
  import opened Options
  import opened Bytes
  import opened Locks
  import opened LockClosures
  import opened LockPackaging

  /** `entry` names one of the packages. */
  ghost predicate NamesOne(entry: Str, added: Lock) {
    ParseDep(entry).Some? && exists a :: 0 <= a < |added| && Names(ParseDep(entry).value, added[a])
  }

  /** No entry of a reached package names an added one. */
  ghost predicate EntriesClear(p: Lock, seeds: seq<Str>, added: Lock) {
    forall i: nat :: Reached(p, seeds, i) ==> EntriesOfClear(p, i, added)
  }

  ghost predicate EntriesOfClear(p: Lock, i: nat, added: Lock) {
    i < |p| ==> forall k :: 0 <= k < |p[i].dependencies| ==> !NamesOne(p[i].dependencies[k], added)
  }

  /** An added package of a seed's name comes from a source, and the seed's own package does not. */
  ghost predicate SeedsClear(p: Lock, seeds: seq<Str>, added: Lock) {
    forall k, a :: 0 <= k < |seeds| && 0 <= a < |added| && added[a].name == seeds[k] ==>
      added[a].source.Some? && IsMember(p, PickSeed(p, seeds[k]))
  }

  ghost predicate IsMember(p: Lock, picked: Option<nat>) {
    picked.Some? && picked.value < |p| && p[picked.value].source.None?
  }

  // ----- one entry, one seed

  /** An entry goes on resolving as it did exactly when it names no added package. */
  lemma ResolvesAmong(p: Lock, added: Lock, entry: Str, j: nat)
    requires ResolveDep(p, entry) == Some(j)
    ensures NamesOne(entry, added) ==> ResolveDep(p + added, entry) == None
    ensures !NamesOne(entry, added) ==> ResolveDep(p + added, entry) == Some(j)
  {
    var q := p + added;
    ResolvesToTheOnly(p, entry, j);
    var d := ParseDep(entry).value;
    forall l: nat ensures OnlyNames(q, d, l) <==> l == j && !NamesOne(entry, added) {
      if NamesOne(entry, added) {
        var a :| 0 <= a < |added| && Names(d, added[a]);
        assert q[|p| + a] == added[a] && q[j] == p[j];
      } else if l == j {
        forall i | 0 <= i < |q| ensures Names(d, q[i]) <==> i == j {
          assert q[i] == if i < |p| then p[i] else added[i - |p|];
        }
      } else {
        assert q[j] == p[j];
      }
    }
    hide ResolveDep, ParseDep, Names, NamesOne, OnlyNames;
    forall l: nat ensures ResolveDep(q, entry) == Some(l) <==> OnlyNames(q, d, l) {
      ResolvesToTheOnly(q, entry, l);
    }
    if ResolveDep(q, entry).Some? {
      assert OnlyNames(q, d, ResolveDep(q, entry).value);
    }
  }

  /** A seed goes on picking its package when every added one of its name has a source and its own
      has none. */
  lemma PicksAmong(p: Lock, added: Lock, seed: Str, i: nat)
    requires PickSeed(p, seed) == Some(i)
    requires forall a :: 0 <= a < |added| && added[a].name == seed ==> added[a].source.Some? && IsMember(p, Some(i))
    ensures PickSeed(p + added, seed) == Some(i)
  {
    var q := p + added;
    PicksTheOnly(p, seed, i);
    PicksTheOnly(q, seed, i);
    hide PickSeed;
    assert forall j :: 0 <= j < |p| ==> q[j] == p[j];
    assert forall a :: 0 <= a < |added| ==> q[|p| + a] == added[a];
    assert forall j :: |p| <= j < |q| ==> q[j] == added[j - |p|];
    if exists a :: 0 <= a < |added| && added[a].name == seed {
      var a :| 0 <= a < |added| && added[a].name == seed;
      assert OnlyMember(p, seed, i);
      assert OnlyMember(q, seed, i);
      forall j: nat ensures !OnlyNamed(q, seed, j) {
        assert q[|p| + a].name == seed && q[i].name == seed;
      }
    } else {
      forall j: nat ensures OnlyNamed(q, seed, j) <==> OnlyNamed(p, seed, j) {
        if OnlyNamed(q, seed, j) {
          assert q[j].name == seed;
        }
      }
      assert OnlyMember(p, seed, i) ==> OnlyMember(q, seed, i);
    }
  }

  // ----- the whole closure

  lemma {:induction false} TargetsAmong(p: Lock, added: Lock, entries: seq<Str>)
    requires forall k :: 0 <= k < |entries| ==> ResolveDep(p, entries[k]).Some? && !NamesOne(entries[k], added)
    ensures Targets(p + added, entries) == Targets(p, entries)
    ensures forall k :: 0 <= k < |entries| ==> ResolveDep(p + added, entries[k]).Some?
  {
    hide ResolveDep, NamesOne;
    if entries == [] {
    } else {
      var n := |entries| - 1;
      TargetsAmong(p, added, entries[..n]);
      ResolvesAmong(p, added, entries[n], ResolveDep(p, entries[n]).value);
      forall k | 0 <= k < |entries| ensures ResolveDep(p + added, entries[k]).Some? {
        assert k < n ==> entries[..n][k] == entries[k];
      }
    }
  }

  lemma NeedsAmong(p: Lock, added: Lock, i: nat, f: map<nat, nat>)
    requires i < |p| && Resolves(p, i) && EntriesOfClear(p, i, added) && f == Identity(|p|)
    ensures SameNeeds(p, p + added, f, i)
  {
    hide ResolveDep, NamesOne;
    assert (p + added)[i] == p[i];
    TargetsAmong(p, added, p[i].dependencies);
    IdentityImages(f, Targets(p, p[i].dependencies));
  }

  lemma RootsAmong(p: Lock, seeds: seq<Str>, added: Lock)
    requires Closes(p, seeds) && SeedsClear(p, seeds, added)
    ensures forall k :: 0 <= k < |seeds| ==> PickSeed(p + added, seeds[k]) == PickSeed(p, seeds[k])
    ensures forall i: nat :: IsRoot(p + added, seeds, i) <==> IsRoot(p, seeds, i)
  {
    hide PickSeed;
    forall k | 0 <= k < |seeds| ensures PickSeed(p + added, seeds[k]) == PickSeed(p, seeds[k]) {
      PicksAmong(p, added, seeds[k], PickSeed(p, seeds[k]).value);
    }
  }

  lemma ClearKeepsText(p: Lock, seeds: seq<Str>, added: Lock)
    requires Closes(p, seeds) && SeedsClear(p, seeds, added) && EntriesClear(p, seeds, added)
    ensures Closes(p + added, seeds) && SameText(p, seeds, p + added, seeds)
  {
    var f := Identity(|p|);
    RootsAmong(p, seeds, added);
    forall i: nat | Reached(p, seeds, i) ensures SameNeeds(p, p + added, f, i) {
      ReachedInRange(p, seeds, i);
      NeedsAmong(p, added, i, f);
    }
    forall i: nat | IsRoot(p, seeds, i) ensures i in f && f[i] == i {
      RootReached(p, seeds, i);
      ReachedInRange(p, seeds, i);
    }
    hide Reached, SameNeeds, PickSeed, IsRoot, EntriesClear, SeedsClear;
    assert Carries(p, seeds, p + added, seeds, f);
    TextCarried(p, seeds, p + added, seeds, f);
  }

  /** When the lock with the packages closes too, what was reached still is. */
  lemma {:induction false} ChainAmong(p: Lock, seeds: seq<Str>, added: Lock, chain: seq<nat>)
    requires Closes(p, seeds) && SeedsClear(p, seeds, added) && Closes(p + added, seeds)
    requires IsChain(p, seeds, chain)
    ensures chain[|chain| - 1] < |p| && Reached(p + added, seeds, chain[|chain| - 1])
  {
    var q, n := p + added, |chain| - 1;
    RootsAmong(p, seeds, added);
    assert Reached(p, seeds, chain[n]);
    ReachedInRange(p, seeds, chain[n]);
    hide SeedsClear, IsRoot;
    if n == 0 {
      RootReached(q, seeds, chain[0]);
    } else {
      assert IsChain(p, seeds, chain[..n]);
      ChainAmong(p, seeds, added, chain[..n]);
      var i, j := chain[n - 1], chain[n];
      assert Needs(p, i, j);
      NeedAmong(p, added, i, j);
      NeededReached(q, seeds, i, j);
    }
  }

  lemma NeedAmong(p: Lock, added: Lock, i: nat, j: nat)
    requires i < |p| && Needs(p, i, j) && Resolves(p + added, i)
    ensures Needs(p + added, i, j)
  {
    hide ResolveDep;
    var q := p + added;
    assert q[i] == p[i];
    var k :| 0 <= k < |p[i].dependencies| && ResolveDep(p, p[i].dependencies[k]) == Some(j);
    ResolvesAmong(p, added, p[i].dependencies[k], j);
    assert ResolveDep(q, q[i].dependencies[k]) == Some(j);
  }

  lemma ClosingIsClear(p: Lock, seeds: seq<Str>, added: Lock)
    requires Closes(p, seeds) && SeedsClear(p, seeds, added) && Closes(p + added, seeds)
    ensures EntriesClear(p, seeds, added)
  {
    forall i: nat | Reached(p, seeds, i) ensures EntriesOfClear(p, i, added) {
      var chain :| IsChain(p, seeds, chain) && chain[|chain| - 1] == i;
      ChainAmong(p, seeds, added, chain);
      hide Reached, SeedsClear, ResolveDep, NamesOne;
      assert Resolves(p, i) && Resolves(p + added, i) && (p + added)[i] == p[i];
      forall k | 0 <= k < |p[i].dependencies| ensures !NamesOne(p[i].dependencies[k], added) {
        ResolvesAmong(p, added, p[i].dependencies[k], ResolveDep(p, p[i].dependencies[k]).value);
      }
    }
  }

  /** Added packages leave a closing lock closing if and only if no entry of a reached package
      names one of them, and then they are never read into its text. */
  lemma AddingKeepsText(p: Lock, seeds: seq<Str>, added: Lock)
    requires Closes(p, seeds) && SeedsClear(p, seeds, added)
    ensures Closes(p + added, seeds) <==> EntriesClear(p, seeds, added)
    ensures EntriesClear(p, seeds, added) ==> SameText(p, seeds, p + added, seeds)
  {
    if EntriesClear(p, seeds, added) {
      ClearKeepsText(p, seeds, added);
    }
    if Closes(p + added, seeds) {
      ClosingIsClear(p, seeds, added);
    }
  }

  // ----- an entry too short

  /** `a`, which needs `b`, and `b`; and a second `b`, of another version. */
  function NeedsB(): Lock {
    [Package([97], [49], None, None, [[98]]), Package([98], [49], None, None, [])]
  }

  function SecondB(): Lock {
    [Package([98], [50], None, None, [])]
  }

  lemma ShortEntry()
    ensures ParseDep([98]) == Some(DepRef([98], None, None))
  {
    assert [98][1..] == [];
  }

  lemma NeedsBCloses()
    ensures Closes(NeedsB(), [[97]]) && Reached(NeedsB(), [[97]], 0)
  {
    var p, seeds: seq<Str> := NeedsB(), [[97]];
    ShortEntry();
    hide ParseDep;
    PicksTheOnly(p, [97], 0);
    assert OnlyNamed(p, [97], 0);
    ResolvesToTheOnly(p, [98], 1);
    assert OnlyNames(p, DepRef([98], None, None), 1);
    hide PickSeed, ResolveDep;
    assert PickSeed(p, seeds[0]) == Some(0);
    RootReached(p, seeds, 0);
    forall i: nat | Reached(p, seeds, i) ensures Resolves(p, i) {
      ReachedInRange(p, seeds, i);
    }
  }

  /** A second package of the name makes the short entry ambiguous, and the lock stops closing. */
  lemma SecondVersionStopsClosing()
    ensures Closes(NeedsB(), [[97]]) && !Closes(NeedsB() + SecondB(), [[97]])
  {
    NeedsBCloses();
    ShortEntry();
    hide Closes, Reached, ParseDep;
    assert Names(DepRef([98], None, None), SecondB()[0]);
    assert NamesOne(NeedsB()[0].dependencies[0], SecondB());
    assert !EntriesOfClear(NeedsB(), 0, SecondB());
    AddingKeepsText(NeedsB(), [[97]], SecondB());
  }
}
