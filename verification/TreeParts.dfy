/** When the part trees of a workspace share out a commit's files as `part_of` says. */
module TreeParts {
  import opened Options
  import opened Sorting
  import opened Bytes
  import opened TreeSplits

  // ----- emptied trees

  /** No subtree is empty, as version control writes trees. */
  ghost predicate NoEmpty(t: Tree)
    decreases t
  {
    t.entries != [] && forall i :: 0 <= i < |t.entries| ==> EntryNoEmpty(t.entries[i])
  }

  ghost predicate EntryNoEmpty(e: (Name, Obj))
    decreases e
  {
    e.1.Sub? ==> NoEmpty(e.1.tree)
  }

  ghost predicate AllNoEmpty(es: seq<(Name, Obj)>) {
    forall i :: 0 <= i < |es| ==> EntryNoEmpty(es[i])
  }

  lemma {:induction false} NoEmptyHasFile(t: Tree) returns (path: Path, content: string)
    requires NoEmpty(t)
    ensures HasFile(t, path, content)
  {
    var (name, obj) := t.entries[0];
    assert EntryNoEmpty(t.entries[0]);
    match obj
    case File(c) =>
      path, content := [name], c;
    case Sub(s) =>
      var rest, c := NoEmptyHasFile(s);
      path, content := [name] + rest, c;
      assert path[1..] == rest;
    assert EntryHas(t.entries[0], path, content);
  }

  lemma {:induction false} PruneNoEmpty(t: Tree, excludes: seq<Path>)
    requires NoEmpty(t) && Nonempty(excludes)
    ensures Prune(t, excludes).Some? ==> NoEmpty(Prune(t, excludes).value)
    decreases t, 1, 0
  {
    EntriesNoEmpty(t, excludes, |t.entries|);
    MakeNoEmpty(PruneEntries(t, excludes, |t.entries|));
  }

  lemma MakeNoEmpty(es: seq<(Name, Obj)>)
    requires AllNoEmpty(es)
    ensures es != [] ==> NoEmpty(Tree(es))
  {
    hide EntryNoEmpty;
    assert Tree(es).entries == es;
  }

  lemma {:induction false} EntryPrunedNoEmpty(e: (Name, Obj), excludes: seq<Path>)
    requires EntryNoEmpty(e) && Nonempty(excludes)
    ensures AllNoEmpty(PruneEntry(e, excludes))
    decreases e, 2, 0
  {
    var subs := Heads(excludes, e.0);
    if subs != [] && [] !in subs && e.1.Sub? {
      HeadsNonempty(excludes, e.0);
      PruneNoEmpty(e.1.tree, subs);
    }
  }

  lemma {:induction false} EntriesNoEmpty(t: Tree, excludes: seq<Path>, n: nat)
    requires NoEmpty(t) && Nonempty(excludes) && n <= |t.entries|
    ensures AllNoEmpty(PruneEntries(t, excludes, n))
    decreases t, 0, n
  {
    if n == 0 {
    } else {
      EntriesNoEmpty(t, excludes, n - 1);
      assert EntryNoEmpty(t.entries[n - 1]);
      EntryPrunedNoEmpty(t.entries[n - 1], excludes);
      assert PruneEntries(t, excludes, n) == PruneEntries(t, excludes, n - 1) + PruneEntry(t.entries[n - 1], excludes);
      hide PruneEntries, PruneEntry, EntryNoEmpty;
    }
  }

  /** Nothing is returned exactly when no file remains. */
  lemma NoneWhenNoFileRemains(t: Tree, excludes: seq<Path>)
    requires NoEmpty(t) && Nonempty(excludes)
    ensures Prune(t, excludes).None? <==> forall path, content :: HasFile(t, path, content) ==> Excluded(excludes, path)
  {
    hide Prune, Excluded;
    if Prune(t, excludes).Some? {
      PruneNoEmpty(t, excludes);
      var path, content := NoEmptyHasFile(Prune(t, excludes).value);
      PruneIsExact(t, excludes, path, content);
      assert HasFile(t, path, content) && !Excluded(excludes, path);
    } else {
      forall path, content | HasFile(t, path, content) ensures Excluded(excludes, path) {
        PruneIsExact(t, excludes, path, content);
      }
    }
  }

  // ----- parts of a path

  datatype Part = Part(name: Name, prefix: Path)
  datatype Workspace = Workspace(parts: seq<Part>, rest: Name) {
    /** Named apart, the rest's name no part's, and no part the whole tree. */
    ghost predicate Ok() {
      && (forall i, j :: 0 <= i < j < |parts| ==> parts[i].name != parts[j].name)
      && (forall i :: 0 <= i < |parts| ==> parts[i].name != rest && parts[i].prefix != [])
    }
  }

  /** The length of a prefix as text: every component and its slash. */
  function TextLength(prefix: Path): nat {
    if prefix == [] then 0 else TextLength(prefix[..|prefix| - 1]) + |prefix[|prefix| - 1]| + 1
  }

  predicate Precedes(p: Part, q: Part) {
    || TextLength(p.prefix) > TextLength(q.prefix)
    || (TextLength(p.prefix) == TextLength(q.prefix) && Less(p.name, q.name))
  }

  /** Longest prefix first, then by name. */
  function SortParts(s: seq<Part>): (r: seq<Part>)
    ensures |r| == |s|
  {
    Sort(Precedes, s)
  }

  function FirstUnder(parts: seq<Part>, path: Path): (r: Option<Part>)
    ensures r.Some? ==> r.value.prefix < path
  {
    if parts == [] then None
    else match FirstUnder(parts[..|parts| - 1], path)
      case Some(p) => Some(p)
      case None => if parts[|parts| - 1].prefix < path then Some(parts[|parts| - 1]) else None
  }

  /** The part of a path and the path inside it: the longest prefix it lies under, else the rest. */
  function PartOf(ws: Workspace, path: Path): (Name, Path) {
    match FirstUnder(SortParts(ws.parts), path)
    case None => (ws.rest, path)
    case Some(p) => (p.name, path[|p.prefix|..])
  }

  lemma {:induction false} FirstUnderIsFirst(parts: seq<Part>, path: Path)
    ensures match FirstUnder(parts, path)
      case None => forall i :: 0 <= i < |parts| ==> !(parts[i].prefix < path)
      case Some(p) =>
        && p.prefix < path
        && exists i :: 0 <= i < |parts| && parts[i] == p && forall j :: 0 <= j < i ==> !(parts[j].prefix < path)
  {
    if parts == [] {
    } else {
      FirstUnderIsFirst(parts[..|parts| - 1], path);
      if FirstUnder(parts, path).Some? {
        var p := FirstUnder(parts, path).value;
        if FirstUnder(parts[..|parts| - 1], path).None? {
          assert parts[|parts| - 1] == p;
        } else {
          var i :| 0 <= i < |parts| - 1 && parts[i] == p && forall j :: 0 <= j < i ==> !(parts[j].prefix < path);
          assert parts[i] == p;
        }
      }
    }
  }

  lemma PrecedesIsOrder()
    ensures IsOrder(Precedes)
  {
    forall a, b, c
      ensures Precedes(a, b) ==> !Precedes(b, a)
      ensures !Precedes(b, a) && !Precedes(c, b) ==> !Precedes(c, a)
    {
      LessLaws(a.name, b.name, c.name);
    }
  }

  lemma SortPartsSorts(s: seq<Part>)
    ensures Sorted(Precedes, SortParts(s))
    ensures forall p :: p in SortParts(s) <==> p in s
  {
    PrecedesIsOrder();
    SortSorts(Precedes, s);
    SortMembers(Precedes, s);
  }

  /** `q` lies over no more of a path than `p`, and goes after it by name where it lies over as much. */
  ghost predicate FirstOver(p: Part, q: Part) {
    q.prefix <= p.prefix && (q.prefix == p.prefix ==> !Less(q.name, p.name))
  }

  lemma {:induction false} LongerText(a: Path, b: Path)
    requires a < b
    ensures TextLength(a) < TextLength(b)
    decreases |b|
  {
    var init := b[..|b| - 1];
    if a == init {
    } else {
      assert a < init;
      LongerText(a, init);
    }
  }

  /** Of two prefixes of one path the one no longer as text is a prefix of the other. */
  lemma NoLongerIsPrefix(a: Path, b: Path, path: Path)
    requires a < path && b < path && TextLength(a) <= TextLength(b)
    ensures a <= b
  {
    hide TextLength;
    if b < a {
      LongerText(b, a);
    }
    assert a == path[..|a|] && b == path[..|b|];
  }

  /** The part chosen lies over the path, and no part over it has a longer prefix; of several with
      one prefix it is the first by name. */
  lemma PartOfIsLongest(ws: Workspace, path: Path)
    ensures var (name, rel) := PartOf(ws, path);
      if exists p :: p in ws.parts && p.prefix < path then
        exists p :: p in ws.parts && p.prefix < path && name == p.name && path == p.prefix + rel
          && (forall q :: q in ws.parts && q.prefix < path ==> TextLength(q.prefix) <= TextLength(p.prefix))
          && (forall q :: q in ws.parts && q.prefix < path ==> FirstOver(p, q))
      else (name, rel) == (ws.rest, path)
  {
    var sorted := SortParts(ws.parts);
    FirstUnderIsFirst(sorted, path);
    SortPartsSorts(ws.parts);
    hide SortParts, FirstUnder, TextLength;
    if FirstUnder(sorted, path).Some? {
      var p := FirstUnder(sorted, path).value;
      var i :| 0 <= i < |sorted| && sorted[i] == p && forall j :: 0 <= j < i ==> !(sorted[j].prefix < path);
      assert p in sorted;
      forall q | q in ws.parts && q.prefix < path
        ensures TextLength(q.prefix) <= TextLength(p.prefix) && FirstOver(p, q)
      {
        assert q in sorted;
        var j :| 0 <= j < |sorted| && sorted[j] == q;
        assert j >= i;
        assert j == i || !Precedes(q, p);
        NoLongerIsPrefix(q.prefix, p.prefix, path);
        LessLaws(p.name, q.name, q.name);
      }
      assert path == p.prefix + path[|p.prefix|..];
    } else {
      forall p | p in ws.parts ensures !(p.prefix < path) {
        assert p in sorted;
        var j :| 0 <= j < |sorted| && sorted[j] == p;
      }
    }
  }

  // ----- part trees

  ghost predicate NamesDistinct(t: Tree) {
    && (forall i, j :: 0 <= i < j < |t.entries| ==> t.entries[i].0 != t.entries[j].0)
    && (forall i :: 0 <= i < |t.entries| && t.entries[i].1.Sub? ==> NamesDistinct(t.entries[i].1.tree))
  }

  function Find(es: seq<(Name, Obj)>, name: Name): Option<Obj> {
    if es == [] then None
    else if es[|es| - 1].0 == name then Some(es[|es| - 1].1)
    else Find(es[..|es| - 1], name)
  }

  /** The subtree at a path, when there is a tree there. */
  function SubtreeAt(t: Tree, prefix: Path): Option<Tree>
    decreases |prefix|
  {
    if prefix == [] then Some(t)
    else match Find(t.entries, prefix[0])
      case Some(Sub(s)) => SubtreeAt(s, prefix[1..])
      case _ => None
  }

  /** The entry at place `i`, and the only one of its name. */
  ghost predicate OnlyEntry(es: seq<(Name, Obj)>, e: (Name, Obj), i: nat)
    requires i < |es|
  {
    es[i] == e && forall j :: 0 <= j < |es| && es[j].0 == e.0 ==> j == i
  }

  ghost predicate IsEntry(es: seq<(Name, Obj)>, e: (Name, Obj)) {
    exists i: nat :: i < |es| && OnlyEntry(es, e, i)
  }

  lemma {:induction false} FindEntry(es: seq<(Name, Obj)>, name: Name)
    requires forall i, j :: 0 <= i < j < |es| ==> es[i].0 != es[j].0
    ensures match Find(es, name)
      case None => forall i :: 0 <= i < |es| ==> es[i].0 != name
      case Some(obj) => IsEntry(es, (name, obj))
  {
    if es == [] {
    } else {
      var n := |es| - 1;
      if es[n].0 == name {
        assert OnlyEntry(es, es[n], n);
      } else {
        FindEntry(es[..n], name);
        if Find(es, name).Some? {
          var obj := Find(es, name).value;
          var i: nat :| i < n && OnlyEntry(es[..n], (name, obj), i);
          assert OnlyEntry(es, (name, obj), i);
        }
      }
    }
  }

  /** The subtree's files are the tree's files under the path. */
  lemma {:induction false} SubtreeFiles(t: Tree, prefix: Path, path: Path, content: string)
    requires NamesDistinct(t) && path != []
    ensures Holds(SubtreeAt(t, prefix), path, content) <==> HasFile(t, prefix + path, content)
    decreases |prefix|
  {
    var whole := prefix + path;
    if prefix == [] {
      assert whole == path;
    } else {
      FindEntry(t.entries, prefix[0]);
      assert whole[0] == prefix[0] && whole[1..] == prefix[1..] + path;
      hide Find;
      match Find(t.entries, prefix[0])
      case None =>
      case Some(File(c)) =>
      case Some(Sub(s)) =>
        var i: nat :| i < |t.entries| && OnlyEntry(t.entries, (prefix[0], Sub(s)), i);
        assert NamesDistinct(t.entries[i].1.tree);
        SubtreeFiles(s, prefix[1..], path, content);
        assert EntryHas(t.entries[i], whole, content) <==> HasFile(s, whole[1..], content);
    }
  }

  function Prefixes(ws: Workspace): (r: seq<Path>)
    ensures |r| == |ws.parts|
  {
    seq(|ws.parts|, i requires 0 <= i < |ws.parts| => ws.parts[i].prefix)
  }

  /** A part's tree: the subtree at its prefix, or for the rest the tree without every prefix. */
  function PartTree(ws: Workspace, t: Tree, part: Option<Part>): Option<Tree>
    requires Nonempty(Prefixes(ws))
  {
    match part
    case None => Prune(t, Prefixes(ws))
    case Some(p) => SubtreeAt(t, p.prefix)
  }

  function NameOf(ws: Workspace, part: Option<Part>): Name {
    if part.Some? then part.value.name else ws.rest
  }

  /** Where a part's file sits in the monorepo. */
  function Origin(part: Option<Part>, rel: Path): Path {
    if part.Some? then part.value.prefix + rel else rel
  }

  ghost predicate PartIn(ws: Workspace, part: Option<Part>) {
    part.Some? ==> part.value in ws.parts
  }

  /** Every file sits in the one part tree `part_of` names, at the path it names, and nothing
      else is in any part tree. */
  ghost predicate Partitioned(ws: Workspace, t: Tree)
    requires Nonempty(Prefixes(ws))
  {
    forall part, rel, content :: PartIn(ws, part) && rel != [] ==>
      PartAgrees(ws, t, part, rel, content)
  }

  ghost predicate PartAgrees(ws: Workspace, t: Tree, part: Option<Part>, rel: Path, content: string)
    requires Nonempty(Prefixes(ws))
  {
    Holds(PartTree(ws, t, part), rel, content)
    <==> HasFile(t, Origin(part, rel), content) && PartOf(ws, Origin(part, rel)) == (NameOf(ws, part), rel)
  }

  /** The part's prefix is over the path. */
  ghost predicate IsOver(ws: Workspace, p: Part, path: Path) {
    p in ws.parts && p.prefix < path
  }

  /** No file lies under two parts' prefixes. */
  ghost predicate NoFileShared(ws: Workspace, t: Tree) {
    forall path, content, p, q :: HasFile(t, path, content) && IsOver(ws, p, path) && IsOver(ws, q, path) ==> p == q
  }

  /** No file sits exactly at a prefix, unless it lies under another. */
  ghost predicate NoFileAtPrefix(ws: Workspace, t: Tree) {
    NoFileAt(t, Prefixes(ws))
  }

  lemma UnderIsPart(ws: Workspace, path: Path)
    ensures Under(Prefixes(ws), path) <==> exists p :: p in ws.parts && p.prefix < path
  {
    if exists p :: p in ws.parts && p.prefix < path {
      var p :| p in ws.parts && p.prefix < path;
      var i :| 0 <= i < |ws.parts| && ws.parts[i] == p;
      assert Prefixes(ws)[i] < path;
    }
  }

  lemma PartTreeFiles(ws: Workspace, t: Tree, part: Option<Part>, rel: Path, content: string)
    requires ws.Ok() && Nonempty(Prefixes(ws)) && NamesDistinct(t) && rel != []
    ensures Holds(PartTree(ws, t, part), rel, content)
       <==> HasFile(t, Origin(part, rel), content) && (part.None? ==> !Excluded(Prefixes(ws), rel))
  {
    match part
    case None => PruneIsExact(t, Prefixes(ws), rel, content);
    case Some(p) => SubtreeFiles(t, p.prefix, rel, content);
  }

  lemma SameNamedPart(ws: Workspace, p: Part, q: Part)
    requires ws.Ok() && p in ws.parts && q in ws.parts && p.name == q.name
    ensures p == q
  {
  }

  /** Under distinct prefixes no file shares, a file's part is the one prefix it lies under. */
  lemma PartOfOnly(ws: Workspace, path: Path, p: Part)
    requires p in ws.parts && p.prefix < path
    requires forall q :: q in ws.parts && q.prefix < path ==> q == p
    ensures PartOf(ws, path) == (p.name, path[|p.prefix|..])
  {
    PartOfIsLongest(ws, path);
    hide PartOf;
  }

  /** The part trees share the files out exactly when no file lies under two prefixes and none
      sits at a prefix that is under no other. */
  lemma PartsPartition(ws: Workspace, t: Tree)
    requires ws.Ok() && Nonempty(Prefixes(ws)) && NamesDistinct(t)
    ensures Partitioned(ws, t) <==> NoFileShared(ws, t) && NoFileAtPrefix(ws, t)
  {
    if NoFileShared(ws, t) && NoFileAtPrefix(ws, t) {
      forall part, rel, content | PartIn(ws, part) && rel != [] ensures PartAgrees(ws, t, part, rel, content) {
        GoodFilesAgree(ws, t, part, rel, content);
      }
    }
    if Partitioned(ws, t) {
      forall path, content, p, q | HasFile(t, path, content) && IsOver(ws, p, path) && IsOver(ws, q, path)
        ensures p == q
      {
        PartClaims(ws, t, p, path, content);
        PartClaims(ws, t, q, path, content);
        SameNamedPart(ws, p, q);
      }
      forall path, content | HasFile(t, path, content) && path in Prefixes(ws) ensures Under(Prefixes(ws), path) {
        RestClaims(ws, t, path, content);
      }
    }
  }

  lemma GoodFilesAgree(ws: Workspace, t: Tree, part: Option<Part>, rel: Path, content: string)
    requires ws.Ok() && Nonempty(Prefixes(ws)) && NamesDistinct(t) && rel != [] && PartIn(ws, part)
    requires NoFileShared(ws, t) && NoFileAtPrefix(ws, t)
    ensures PartAgrees(ws, t, part, rel, content)
  {
    hide PartTree, PartOf, HasFile, Excluded, Under;
    PartTreeFiles(ws, t, part, rel, content);
    match part
    case Some(p) =>
      var path := p.prefix + rel;
      assert p.prefix < path && path[|p.prefix|..] == rel;
      if HasFile(t, path, content) {
        assert IsOver(ws, p, path);
        forall q | q in ws.parts && q.prefix < path ensures q == p {
          assert IsOver(ws, q, path);
        }
        PartOfOnly(ws, path, p);
      }
    case None =>
      AtOrUnder(Prefixes(ws), rel);
      UnderIsPart(ws, rel);
      PartOfIsLongest(ws, rel);
      if Under(Prefixes(ws), rel) {
        NotTheRest(ws, rel);
      }
  }

  lemma NotTheRest(ws: Workspace, path: Path)
    requires ws.Ok() && exists p :: p in ws.parts && p.prefix < path
    ensures PartOf(ws, path).0 != ws.rest
  {
    PartOfIsLongest(ws, path);
    hide PartOf;
  }

  lemma PartClaims(ws: Workspace, t: Tree, p: Part, path: Path, content: string)
    requires ws.Ok() && Nonempty(Prefixes(ws)) && NamesDistinct(t) && Partitioned(ws, t)
    requires HasFile(t, path, content) && p in ws.parts && p.prefix < path
    ensures PartOf(ws, path).0 == p.name
  {
    hide PartTree, PartOf, HasFile;
    var rel := path[|p.prefix|..];
    assert path == p.prefix + rel;
    PartTreeFiles(ws, t, Some(p), rel, content);
    assert PartAgrees(ws, t, Some(p), rel, content);
  }

  lemma RestClaims(ws: Workspace, t: Tree, path: Path, content: string)
    requires ws.Ok() && Nonempty(Prefixes(ws)) && NamesDistinct(t) && Partitioned(ws, t)
    requires HasFile(t, path, content) && path in Prefixes(ws)
    ensures Under(Prefixes(ws), path)
  {
    AtOrUnder(Prefixes(ws), path);
    UnderIsPart(ws, path);
    PartOfIsLongest(ws, path);
    PartTreeFiles(ws, t, None, path, content);
    assert PartAgrees(ws, t, None, path, content);
    hide PartTree, PartOf, HasFile, Excluded, Under;
  }

  /** The file at `path` is in this part tree at `rel`. */
  ghost predicate SitsIn(ws: Workspace, t: Tree, part: Option<Part>, rel: Path, path: Path, content: string)
    requires Nonempty(Prefixes(ws))
  {
    PartIn(ws, part) && rel != [] && Origin(part, rel) == path && Holds(PartTree(ws, t, part), rel, content)
  }

  /** Shared out, every file sits in exactly one part tree, at one place. */
  lemma EveryFileInOnePart(ws: Workspace, t: Tree, path: Path, content: string) returns (part: Option<Part>, rel: Path)
    requires ws.Ok() && Nonempty(Prefixes(ws)) && Partitioned(ws, t)
    requires HasFile(t, path, content)
    ensures SitsIn(ws, t, part, rel, path, content) && PartOf(ws, path) == (NameOf(ws, part), rel)
    ensures forall p: Option<Part>, r: Path :: SitsIn(ws, t, p, r, path, content) ==> p == part && r == rel
  {
    PartOfIsLongest(ws, path);
    assert path != [];
    hide PartOf, PartTree, HasFile, Origin;
    rel := PartOf(ws, path).1;
    if exists p :: p in ws.parts && p.prefix < path {
      var p :| p in ws.parts && p.prefix < path && PartOf(ws, path).0 == p.name && path == p.prefix + rel;
      assert |path| > |p.prefix|;
      part := Some(p);
    } else {
      part := None;
    }
    OriginOf(ws, part, rel);
    assert PartAgrees(ws, t, part, rel, content);
    forall p: Option<Part>, r: Path | SitsIn(ws, t, p, r, path, content) ensures p == part && r == rel {
      assert PartAgrees(ws, t, p, r, content);
      if p.Some? && part.Some? {
        SameNamedPart(ws, p.value, part.value);
      }
    }
  }

  lemma OriginOf(ws: Workspace, part: Option<Part>, rel: Path)
    ensures Origin(part, rel) == if part.Some? then part.value.prefix + rel else rel
  {
  }

  ghost predicate NoFileExactlyAt(ws: Workspace, t: Tree) {
    forall path, content :: HasFile(t, path, content) ==> path !in Prefixes(ws)
  }

  /** Under prefixes that do not nest, only a file exactly at a prefix can spoil the split. */
  lemma NotNestedPartition(ws: Workspace, t: Tree)
    requires ws.Ok() && Nonempty(Prefixes(ws)) && NamesDistinct(t)
    requires forall p, q :: p in ws.parts && q in ws.parts && p != q ==> !(p.prefix <= q.prefix)
    ensures Partitioned(ws, t) <==> NoFileExactlyAt(ws, t)
  {
    NotNestedNotShared(ws, t);
    PartsPartition(ws, t);
    hide Partitioned, HasFile, Under, NoFileShared, Prefixes, Workspace.Ok;
    if NoFileAtPrefix(ws, t) {
      forall path, content | HasFile(t, path, content) ensures path !in Prefixes(ws) {
        if path in Prefixes(ws) {
          PrefixNotUnder(ws, path);
        }
      }
    }
    assert NoFileExactlyAt(ws, t) ==> NoFileAtPrefix(ws, t);
  }

  lemma PrefixNotUnder(ws: Workspace, path: Path)
    requires forall p, q :: p in ws.parts && q in ws.parts && p != q ==> !(p.prefix <= q.prefix)
    requires path in Prefixes(ws)
    ensures !Under(Prefixes(ws), path)
  {
    var i :| 0 <= i < |ws.parts| && Prefixes(ws)[i] == path;
    var own := ws.parts[i];
    UnderIsPart(ws, path);
    forall p | p in ws.parts ensures !(p.prefix < path) {
      assert p != own ==> !(p.prefix <= own.prefix);
    }
  }

  lemma NotNestedNotShared(ws: Workspace, t: Tree)
    requires forall p, q :: p in ws.parts && q in ws.parts && p != q ==> !(p.prefix <= q.prefix)
    ensures NoFileShared(ws, t)
  {
    hide HasFile;
    forall path, content, p, q | HasFile(t, path, content) && IsOver(ws, p, path) && IsOver(ws, q, path)
      ensures p == q
    {
      PrefixesNest(p.prefix, q.prefix, path);
    }
  }

  lemma PrefixesNest(p: Path, q: Path, path: Path)
    requires p < path && q < path
    ensures p <= q || q <= p
  {
    assert p == path[..|p|] && q == path[..|q|];
  }

  // ----- two workspaces that do not share their files out

  /** A file exactly at a part's prefix is the rest's by `part_of`, and in no part tree. */
  lemma FileAtPrefixIsLost(name: Name, content: string, part: Name, rest: Name)
    requires part != rest
    ensures var (t, ws) := (Tree([(name, File(content))]), Workspace([Part(part, [name])], rest));
      && ws.Ok() && Nonempty(Prefixes(ws)) && NamesDistinct(t)
      && HasFile(t, [name], content) && !Under(Prefixes(ws), [name])
      && PartOf(ws, [name]) == (rest, [name])
      && Prune(t, Prefixes(ws)) == None
      && !Partitioned(ws, t)
  {
    var t, ws := Tree([(name, File(content))]), Workspace([Part(part, [name])], rest);
    var excludes := Prefixes(ws);
    assert excludes == [[name]];
    assert EntryHas(t.entries[0], [name], content);
    LoneFilePruned(name, content);
    PartOfIsLongest(ws, [name]);
    hide PartOf, Partitioned, HasFile, Prune;
    assert [name] in excludes;
    if Partitioned(ws, t) {
      RestClaims(ws, t, [name], content);
    }
  }

  lemma LoneFilePruned(name: Name, content: string)
    ensures Prune(Tree([(name, File(content))]), [[name]]) == None
  {
    var t, excludes := Tree([(name, File(content))]), [[name]];
    HeadsMembers(excludes, name);
    assert [name] + [] == excludes[0] && [] in Heads(excludes, name);
    assert PruneEntry(t.entries[0], excludes) == [];
    assert PruneEntries(t, excludes, 1) == PruneEntries(t, excludes, 0) + PruneEntry(t.entries[0], excludes);
  }

  /** With one part inside another, the inner part's file is in both part trees. */
  lemma NestedPartsShare(a: Name, b: Name, c: Name, content: string, outer: Name, inner: Name, rest: Name)
    requires outer != inner && outer != rest && inner != rest
    ensures var t := Tree([(a, Sub(Tree([(b, Sub(Tree([(c, File(content))])))])))]);
      var (p, q) := (Part(outer, [a]), Part(inner, [a, b]));
      var ws := Workspace([p, q], rest);
      && ws.Ok() && Nonempty(Prefixes(ws)) && NamesDistinct(t)
      && Holds(PartTree(ws, t, Some(p)), [b, c], content)
      && Holds(PartTree(ws, t, Some(q)), [c], content)
      && !Partitioned(ws, t)
  {
    var leaf := Tree([(c, File(content))]);
    var mid := Tree([(b, Sub(leaf))]);
    var t := Tree([(a, Sub(mid))]);
    var p, q := Part(outer, [a]), Part(inner, [a, b]);
    var ws := Workspace([p, q], rest);
    var path := [a, b, c];
    assert NamesDistinct(leaf) && NamesDistinct(mid) && NamesDistinct(t);
    NestedFile(a, b, c, content);
    assert [a] + [b, c] == path && [a, b] + [c] == path;
    SubtreeFiles(t, [a], [b, c], content);
    SubtreeFiles(t, [a, b], [c], content);
    PartsPartition(ws, t);
    hide NamesDistinct, HasFile, SubtreeAt, Partitioned;
    assert IsOver(ws, p, path) && IsOver(ws, q, path) && p != q;
    assert !NoFileShared(ws, t);
  }

  lemma NestedFile(a: Name, b: Name, c: Name, content: string)
    ensures HasFile(Tree([(a, Sub(Tree([(b, Sub(Tree([(c, File(content))])))])))]), [a, b, c], content)
  {
    var leaf := Tree([(c, File(content))]);
    var mid := Tree([(b, Sub(leaf))]);
    assert EntryHas(leaf.entries[0], [c], content);
    assert HasFile(leaf, [c], content);
    assert [b, c][1..] == [c] && [a, b, c][1..] == [b, c];
    assert EntryHas(mid.entries[0], [b, c], content);
    assert HasFile(mid, [b, c], content);
    assert EntryHas(Tree([(a, Sub(mid))]).entries[0], [a, b, c], content);
  }
}
