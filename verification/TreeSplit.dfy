/** Splitting a monorepo tree into parts. Paths and prefixes are lists of components; a tree stands
    for its own hash, since trees with the same hash are the same tree. */
module TreeSplits {
  import opened Options
  import opened Bytes
  import opened Selections

  type Name = Str
  type Path = seq<Name>

  /** A file is anything that is not a tree. */
  datatype Obj = File(content: string) | Sub(tree: Tree)
  datatype Tree = Tree(entries: seq<(Name, Obj)>)

  // ----- files of a tree

  ghost predicate HasFile(t: Tree, path: Path, content: string)
    decreases t
  {
    path != [] && exists i :: 0 <= i < |t.entries| && EntryHas(t.entries[i], path, content)
  }

  ghost predicate EntryHas(e: (Name, Obj), path: Path, content: string)
    requires path != []
    decreases e
  {
    && e.0 == path[0]
    && match e.1
       case File(c) => |path| == 1 && c == content
       case Sub(t) => |path| > 1 && HasFile(t, path[1..], content)
  }

  ghost predicate Holds(t: Option<Tree>, path: Path, content: string) {
    t.Some? && HasFile(t.value, path, content)
  }

  // ----- tree_without

  /** What is left of the excludes under `name`, in the order given. */
  function Heads(excludes: seq<Path>, name: Name): seq<Path>
    requires forall k :: 0 <= k < |excludes| ==> excludes[k] != []
  {
    if excludes == [] then []
    else
      var last := excludes[|excludes| - 1];
      Heads(excludes[..|excludes| - 1], name) + (if last[0] == name then [last[1..]] else [])
  }

  lemma {:induction false} HeadsMembers(excludes: seq<Path>, name: Name)
    requires forall k :: 0 <= k < |excludes| ==> excludes[k] != []
    ensures forall rest: Path :: rest in Heads(excludes, name) <==> [name] + rest in excludes
  {
    if excludes == [] {
    } else {
      var init, last := excludes[..|excludes| - 1], excludes[|excludes| - 1];
      assert excludes == init + [last];
      HeadsMembers(init, name);
      forall rest: Path ensures rest in Heads(excludes, name) <==> [name] + rest in excludes {
        assert last == [last[0]] + last[1..];
        assert ([name] + rest)[1..] == rest;
      }
    }
  }

  predicate Nonempty(excludes: seq<Path>) {
    forall k :: 0 <= k < |excludes| ==> excludes[k] != []
  }

  lemma HeadsNonempty(excludes: seq<Path>, name: Name)
    requires Nonempty(excludes) && [] !in Heads(excludes, name)
    ensures Nonempty(Heads(excludes, name))
  {
    var h := Heads(excludes, name);
    forall k | 0 <= k < |h| ensures h[k] != [] {
      assert h[k] in h;
    }
  }

  /** The tree without every excluded path; none when nothing is left. */
  function Prune(t: Tree, excludes: seq<Path>): Option<Tree>
    requires Nonempty(excludes)
    decreases t, 1, 0
  {
    var es := PruneEntries(t, excludes, |t.entries|);
    if es == [] then None else Some(Tree(es))
  }

  /** The first `n` entries, pruned. */
  function PruneEntries(t: Tree, excludes: seq<Path>, n: nat): seq<(Name, Obj)>
    requires Nonempty(excludes) && n <= |t.entries|
    decreases t, 0, n
  {
    if n == 0 then []
    else PruneEntries(t, excludes, n - 1) + PruneEntry(t.entries[n - 1], excludes)
  }

  function PruneEntry(e: (Name, Obj), excludes: seq<Path>): seq<(Name, Obj)>
    requires Nonempty(excludes)
    decreases e, 2, 0
  {
    var subs := Heads(excludes, e.0);
    if subs == [] then [e]
    else if [] in subs then []
    else if e.1.File? then [e]
    else
      HeadsNonempty(excludes, e.0);
      match Prune(e.1.tree, subs)
      case None => []
      case Some(t) => [(e.0, Sub(t))]
  }

  /** The memo of one split: answers by tree and by the excludes in sorted order, which is their bag. */
  class Memo {
    var table: map<(Tree, multiset<Path>), Option<Tree>>

    constructor ()
      ensures Valid() && table == map[]
    {
      table := map[];
    }

    ghost predicate Valid()
      reads this
    {
      forall t, excludes: seq<Path> ::
        (t, multiset(excludes)) in table && Nonempty(excludes) ==> table[(t, multiset(excludes))] == Prune(t, excludes)
    }
  }

  /** Pruning reads the excludes as a set: their order and repeats do not matter. */
  lemma {:induction false} PruneReadsASet(t: Tree, a: seq<Path>, b: seq<Path>)
    requires Nonempty(a) && Nonempty(b) && forall p :: p in a <==> p in b
    ensures Prune(t, a) == Prune(t, b)
    decreases t, 1, 0
  {
    EntriesReadASet(t, a, b, |t.entries|);
  }

  lemma {:induction false} EntryReadsASet(e: (Name, Obj), a: seq<Path>, b: seq<Path>)
    requires Nonempty(a) && Nonempty(b) && forall p :: p in a <==> p in b
    ensures PruneEntry(e, a) == PruneEntry(e, b)
    decreases e, 2, 0
  {
    HeadsMembers(a, e.0);
    HeadsMembers(b, e.0);
    var x, y := Heads(a, e.0), Heads(b, e.0);
    hide Heads;
    assert x != [] ==> x[0] in y;
    assert y != [] ==> y[0] in x;
    if x != [] && [] !in x && e.1.Sub? {
      HeadsNonempty(a, e.0);
      HeadsNonempty(b, e.0);
      PruneReadsASet(e.1.tree, x, y);
    }
  }

  lemma {:induction false} EntriesReadASet(t: Tree, a: seq<Path>, b: seq<Path>, n: nat)
    requires Nonempty(a) && Nonempty(b) && (forall p :: p in a <==> p in b) && n <= |t.entries|
    ensures PruneEntries(t, a, n) == PruneEntries(t, b, n)
    decreases t, 0, n
  {
    if n == 0 {
    } else {
      EntriesReadASet(t, a, b, n - 1);
      EntryReadsASet(t.entries[n - 1], a, b);
      hide PruneEntry;
    }
  }

  /** Under every first component, what is left of its excludes, in the order given. */
  ghost predicate Grouped(heads: map<Name, seq<Path>>, excludes: seq<Path>)
    requires Nonempty(excludes)
  {
    forall n :: if n in heads then heads[n] == Heads(excludes, n) != [] else Heads(excludes, n) == []
  }

  method GroupHeads(excludes: seq<Path>) returns (heads: map<Name, seq<Path>>)
    requires Nonempty(excludes)
    ensures Grouped(heads, excludes)
  {
    heads := map[];
    for k := 0 to |excludes|
      invariant Grouped(heads, excludes[..k])
    {
      assert excludes[..k + 1][..k] == excludes[..k];
      var first, rest := excludes[k][0], excludes[k][1..];
      var before := if first in heads then heads[first] else [];
      heads := heads[first := before + [rest]];
    }
    assert excludes[..|excludes|] == excludes;
  }

  /** Memoised or not, the answer is the pruned tree, and the memo stays right. */
  method TreeWithout(t: Tree, excludes: seq<Path>, memo: Memo) returns (r: Option<Tree>)
    requires Nonempty(excludes) && memo.Valid()
    modifies memo
    ensures memo.Valid() && r == Prune(t, excludes)
    ensures (t, multiset(excludes)) in memo.table && old(memo.table).Keys <= memo.table.Keys
    decreases t
  {
    var key := (t, multiset(excludes));
    if key in memo.table {
      return memo.table[key];
    }
    var heads := GroupHeads(excludes);
    var entries: seq<(Name, Obj)> := [];
    for i := 0 to |t.entries|
      invariant memo.Valid() && entries == PruneEntries(t, excludes, i)
      invariant old(memo.table).Keys <= memo.table.Keys
    {
      var (name, obj) := t.entries[i];
      if name in heads {
        var subs := heads[name];
        if [] in subs {
          continue;
        }
        if obj.Sub? {
          HeadsNonempty(excludes, name);
          var sub := TreeWithout(obj.tree, subs, memo);
          if sub.None? {
            continue;
          }
          entries := entries + [(name, Sub(sub.value))];
          continue;
        }
      }
      entries := entries + [(name, obj)];
    }
    r := if entries == [] then None else Some(Tree(entries));
    MemoAgrees(t, excludes);
    memo.table := memo.table[key := r];
  }

  lemma MemoAgrees(t: Tree, excludes: seq<Path>)
    requires Nonempty(excludes)
    ensures forall other: seq<Path> :: Nonempty(other) && multiset(other) == multiset(excludes) ==>
      Prune(t, other) == Prune(t, excludes)
  {
    forall other: seq<Path> | Nonempty(other) && multiset(other) == multiset(excludes)
      ensures Prune(t, other) == Prune(t, excludes)
    {
      forall p: Path ensures p in other <==> p in excludes {
        assert p in multiset(other) <==> p in multiset(excludes);
      }
      PruneReadsASet(t, other, excludes);
    }
  }

  // ----- what pruning leaves in place

  /** `a` is `b` with entries left out, at any depth; the others keep their order. */
  ghost predicate TreeIn(a: Tree, b: Tree)
    decreases a
  {
    exists places: seq<nat> :: EntriesIn(a.entries, places, b.entries)
  }

  ghost predicate EntriesIn(a: seq<(Name, Obj)>, places: seq<nat>, b: seq<(Name, Obj)>)
    decreases a
  {
    && |places| == |a| && Ascends(places)
    && forall k :: 0 <= k < |a| ==> places[k] < |b| && EntryIn(a[k], b[places[k]])
  }

  ghost predicate EntryIn(x: (Name, Obj), y: (Name, Obj))
    decreases x
  {
    && x.0 == y.0
    && (x.1 == y.1 || (x.1.Sub? && y.1.Sub? && TreeIn(x.1.tree, y.1.tree)))
  }

  /** Pruning only leaves entries out: a name, a file and an untouched subtree stay as they are,
      where they are. */
  lemma {:induction false} PruneIsIn(t: Tree, excludes: seq<Path>)
    requires Nonempty(excludes)
    ensures Prune(t, excludes).Some? ==> TreeIn(Prune(t, excludes).value, t)
    decreases t, 1, 0
  {
    var places := EntriesPrunedIn(t, excludes, |t.entries|);
    assert EntriesIn(PruneEntries(t, excludes, |t.entries|), places, t.entries);
  }

  lemma {:induction false} EntryPrunedIn(e: (Name, Obj), excludes: seq<Path>)
    requires Nonempty(excludes)
    ensures |PruneEntry(e, excludes)| <= 1
    ensures PruneEntry(e, excludes) != [] ==> EntryIn(PruneEntry(e, excludes)[0], e)
    ensures Heads(excludes, e.0) == [] ==> PruneEntry(e, excludes) == [e]
    decreases e, 2, 0
  {
    var subs := Heads(excludes, e.0);
    if subs != [] && [] !in subs && e.1.Sub? {
      HeadsNonempty(excludes, e.0);
      PruneIsIn(e.1.tree, subs);
    }
  }

  lemma EntriesInSnoc(a: seq<(Name, Obj)>, places: seq<nat>, b: seq<(Name, Obj)>, i: nat, x: (Name, Obj))
    requires EntriesIn(a, places, b) && i < |b| && EntryIn(x, b[i])
    requires forall k :: 0 <= k < |places| ==> places[k] < i
    ensures EntriesIn(a + [x], places + [i], b)
  {
    hide EntryIn;
  }

  lemma {:induction false} EntriesPrunedIn(t: Tree, excludes: seq<Path>, n: nat) returns (places: seq<nat>)
    requires Nonempty(excludes) && n <= |t.entries|
    ensures EntriesIn(PruneEntries(t, excludes, n), places, t.entries)
    ensures forall k :: 0 <= k < |places| ==> places[k] < n
    decreases t, 0, n
  {
    if n == 0 {
      places := [];
    } else {
      places := EntriesPrunedIn(t, excludes, n - 1);
      EntryPrunedIn(t.entries[n - 1], excludes);
      assert PruneEntries(t, excludes, n) == PruneEntries(t, excludes, n - 1) + PruneEntry(t.entries[n - 1], excludes);
      hide PruneEntries, PruneEntry, EntryIn, EntriesIn;
      var before, more := PruneEntries(t, excludes, n - 1), PruneEntry(t.entries[n - 1], excludes);
      if more == [] {
        assert before + more == before;
      } else {
        assert more == [more[0]];
        EntriesInSnoc(before, places, t.entries, n - 1, more[0]);
        places := places + [n - 1];
      }
    }
  }

  // ----- what pruning means for files

  /** `path` is an excluded path or lies under one. */
  ghost predicate Excluded(excludes: seq<Path>, path: Path) {
    exists k :: 0 <= k < |excludes| && excludes[k] <= path
  }

  /** `path` lies strictly under an excluded path. */
  ghost predicate Under(excludes: seq<Path>, path: Path) {
    exists k :: 0 <= k < |excludes| && excludes[k] < path
  }

  lemma ExcludedThroughHeads(excludes: seq<Path>, path: Path)
    requires Nonempty(excludes) && path != []
    ensures Excluded(excludes, path) <==> Excluded(Heads(excludes, path[0]), path[1..])
  {
    var name, rest := path[0], path[1..];
    var h := Heads(excludes, name);
    HeadsMembers(excludes, name);
    assert path == [name] + rest;
    hide Heads;
    if Excluded(excludes, path) {
      var k :| 0 <= k < |excludes| && excludes[k] <= path;
      assert excludes[k] == [name] + excludes[k][1..];
      assert excludes[k][1..] <= rest;
      MemberExcludes(h, excludes[k][1..], rest);
    }
    if Excluded(h, rest) {
      var l :| 0 <= l < |h| && h[l] <= rest;
      assert h[l] in h;
      assert [name] + h[l] <= path;
      MemberExcludes(excludes, [name] + h[l], path);
    }
  }

  lemma MemberExcludes(excludes: seq<Path>, e: Path, path: Path)
    requires e in excludes && e <= path
    ensures Excluded(excludes, path)
  {
    var k :| 0 <= k < |excludes| && excludes[k] == e;
    assert excludes[k] <= path;
  }

  /** The files of the pruned tree are exactly those not at or under an excluded path. */
  lemma {:induction false} PruneIsExact(t: Tree, excludes: seq<Path>, path: Path, content: string)
    requires Nonempty(excludes)
    ensures Holds(Prune(t, excludes), path, content) <==> HasFile(t, path, content) && !Excluded(excludes, path)
    decreases t, 2
  {
    if path != [] {
      EntriesExact(t, excludes, path, content, |t.entries|);
    }
  }

  ghost predicate SomeHas(es: seq<(Name, Obj)>, path: Path, content: string)
    requires path != []
  {
    exists i :: 0 <= i < |es| && EntryHas(es[i], path, content)
  }

  lemma SomeHasConcat(a: seq<(Name, Obj)>, b: seq<(Name, Obj)>, path: Path, content: string)
    requires path != []
    ensures SomeHas(a + b, path, content) <==> SomeHas(a, path, content) || SomeHas(b, path, content)
  {
    hide EntryHas;
    if SomeHas(a, path, content) {
      var i :| 0 <= i < |a| && EntryHas(a[i], path, content);
      assert (a + b)[i] == a[i];
    }
    if SomeHas(b, path, content) {
      var i :| 0 <= i < |b| && EntryHas(b[i], path, content);
      assert (a + b)[|a| + i] == b[i];
    }
  }

  lemma {:induction false} EntriesExact(t: Tree, excludes: seq<Path>, path: Path, content: string, n: nat)
    requires Nonempty(excludes) && path != [] && n <= |t.entries|
    ensures SomeHas(PruneEntries(t, excludes, n), path, content)
       <==> SomeHas(t.entries[..n], path, content) && !Excluded(excludes, path)
    decreases t, 1, n
  {
    if n == 0 {
    } else {
      EntriesExact(t, excludes, path, content, n - 1);
      var e := t.entries[n - 1];
      EntryExact(e, excludes, path, content);
      hide PruneEntry, EntryHas, Excluded;
      SomeHasConcat(PruneEntries(t, excludes, n - 1), PruneEntry(e, excludes), path, content);
      SomeHasConcat(t.entries[..n - 1], [e], path, content);
      assert t.entries[..n] == t.entries[..n - 1] + [e];
      assert SomeHas([e], path, content) <==> EntryHas(e, path, content) by {
        assert EntryHas(e, path, content) ==> EntryHas([e][0], path, content);
      }
    }
  }

  lemma {:induction false} EntryExact(e: (Name, Obj), excludes: seq<Path>, path: Path, content: string)
    requires Nonempty(excludes) && path != []
    ensures SomeHas(PruneEntry(e, excludes), path, content) <==> EntryHas(e, path, content) && !Excluded(excludes, path)
    decreases e, 3
  {
    var subs := Heads(excludes, e.0);
    if e.0 != path[0] {
    } else {
      ExcludedThroughHeads(excludes, path);
      if subs == [] {
        assert SomeHas([e], path, content) <==> EntryHas([e][0], path, content);
      } else if [] in subs {
        var k :| 0 <= k < |subs| && subs[k] == [];
        assert subs[k] <= path[1..];
      } else if e.1.File? {
        assert SomeHas([e], path, content) <==> EntryHas([e][0], path, content);
        HeadsNonempty(excludes, e.0);
      } else {
        HeadsNonempty(excludes, e.0);
        SubExact(e, subs, path, content);
      }
    }
  }

  lemma {:induction false} SubExact(e: (Name, Obj), subs: seq<Path>, path: Path, content: string)
    requires path != [] && e.0 == path[0] && e.1.Sub? && Nonempty(subs) && subs != []
    ensures var left := match Prune(e.1.tree, subs) case None => [] case Some(t) => [(e.0, Sub(t))];
      SomeHas(left, path, content) <==> EntryHas(e, path, content) && !Excluded(subs, path[1..])
    decreases e, 2
  {
    PruneIsExact(e.1.tree, subs, path[1..], content);
    match Prune(e.1.tree, subs)
    case None =>
    case Some(t) =>
      var x := (e.0, Sub(t));
      assert SomeHas([x], path, content) <==> EntryHas([x][0], path, content);
  }

  /** The files of the pruned tree are exactly those not under an excluded path. */
  ghost predicate KeepsAllNotUnder(t: Tree, excludes: seq<Path>)
    requires Nonempty(excludes)
  {
    forall path, content ::
      Holds(Prune(t, excludes), path, content) <==> HasFile(t, path, content) && !Under(excludes, path)
  }

  /** No file sits exactly at an excluded path, unless it lies under another. */
  ghost predicate NoFileAt(t: Tree, excludes: seq<Path>) {
    forall path, content :: HasFile(t, path, content) && path in excludes ==> Under(excludes, path)
  }

  lemma AtOrUnder(excludes: seq<Path>, path: Path)
    ensures Excluded(excludes, path) <==> Under(excludes, path) || path in excludes
  {
    if Excluded(excludes, path) && path !in excludes {
      var k :| 0 <= k < |excludes| && excludes[k] <= path;
      assert excludes[k] in excludes && excludes[k] != path;
    }
    if path in excludes {
      var k :| 0 <= k < |excludes| && excludes[k] == path;
    }
  }

  /** That is "not under an excluded prefix" exactly when no file sits at an excluded path that is
      not itself under another. */
  lemma ExactWhenNoFileAtPrefix(t: Tree, excludes: seq<Path>)
    requires Nonempty(excludes)
    ensures KeepsAllNotUnder(t, excludes) <==> NoFileAt(t, excludes)
  {
    hide HasFile, Excluded, Under, Prune, Holds;
    forall path: Path, content: string
      ensures Holds(Prune(t, excludes), path, content)
         <==> HasFile(t, path, content) && !Under(excludes, path) && path !in excludes
    {
      PruneIsExact(t, excludes, path, content);
      AtOrUnder(excludes, path);
    }
    if KeepsAllNotUnder(t, excludes) {
      forall path, content | HasFile(t, path, content) && path in excludes ensures Under(excludes, path) {
        assert !Holds(Prune(t, excludes), path, content);
      }
    }
  }
}
