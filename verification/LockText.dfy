/** What a closure text shows: read back, it gives every reached package with what its entries
    resolve to, and nothing else. */
module LockTexts {
  import opened Options
  import opened Bags
  import opened Sorting
  import opened Bytes
  import opened Locks
  import opened LockClosures
  import opened LockPackaging
  import opened Selections

  // ----- splitting

  /** The pieces of `s` between separators. */
  function Split(s: Str, sep: byte): (r: seq<Str>)
    ensures |r| >= 1
  {
    if s == [] then [[]]
    else
      var rest := Split(s[1..], sep);
      if s[0] == sep then [[]] + rest else [[s[0]] + rest[0]] + rest[1..]
  }

  lemma {:induction false} SplitAt(head: Str, sep: byte, tail: Str)
    requires sep !in head
    ensures Split(head + [sep] + tail, sep) == [head] + Split(tail, sep)
  {
    var s := head + [sep] + tail;
    if head == [] {
      assert s[1..] == tail;
    } else {
      SplitAt(head[1..], sep, tail);
      assert s[1..] == head[1..] + [sep] + tail;
      assert head == [head[0]] + head[1..];
    }
  }

  lemma {:induction false} SplitNone(s: Str, sep: byte)
    requires sep !in s
    ensures Split(s, sep) == [s]
  {
    if s == [] {
    } else {
      SplitNone(s[1..], sep);
      assert s == [s[0]] + s[1..];
    }
  }

  /** Joined lines are what lies between the separators. */
  lemma {:induction false} SplitJoin(lines: seq<Str>, sep: byte)
    requires lines != [] && forall k :: 0 <= k < |lines| ==> sep !in lines[k]
    ensures Split(Join(lines, [sep]), sep) == lines
  {
    if |lines| == 1 {
      SplitNone(lines[0], sep);
    } else {
      SplitJoin(lines[1..], sep);
      SplitAt(lines[0], sep, Join(lines[1..], [sep]));
      assert Join(lines, [sep]) == lines[0] + [sep] + Join(lines[1..], [sep]);
      assert lines == [lines[0]] + lines[1..];
    }
  }

  lemma {:induction false} SplitEnd(s: Str, sep: byte)
    ensures Split(s + [sep], sep) == Split(s, sep) + [[]]
  {
    var t := s + [sep];
    if s == [] {
      assert t[1..] == [];
    } else {
      SplitEnd(s[1..], sep);
      assert t[1..] == s[1..] + [sep];
    }
  }

  lemma {:induction false} JoinNonempty(lines: seq<Str>, sep: Str)
    requires lines != [] && lines[0] != []
    ensures Join(lines, sep) != []
  {
  }

  // ----- the reader

  /** A package as its line shows it: what it is, and the name and version each entry resolves to. */
  datatype Record = Record(
    name: Str, version: Str, source: Option<Str>, checksum: Option<Str>, deps: multiset<(Str, Str)>)

  /** The first `n` fields, each ended by a space, and what follows. */
  function Fields(line: Str, n: nat): (r: Option<(seq<Str>, Str)>)
    ensures r.Some? ==> |r.value.0| == n
    decreases n
  {
    if n == 0 then Some(([], line))
    else
      var (head, rest) := SplitSpace(line);
      if rest.None? then None
      else
        match Fields(rest.value, n - 1)
        case None => None
        case Some((fields, tail)) => Some(([head] + fields, tail))
  }

  function UnDash(s: Str): Option<Str> {
    if s == [45] then None else Some(s)
  }

  function ReadPair(s: Str): (Str, Str) {
    var (name, version) := SplitSpace(s);
    (name, if version.Some? then version.value else [])
  }

  function ReadDeps(body: Str): seq<(Str, Str)> {
    if body == [] then [] else Apply(ReadPair, Split(body, 44))
  }

  function ReadLine(line: Str): Option<Record> {
    match Fields(line, 4)
    case None => None
    case Some((f, tail)) =>
      if |tail| < 7 || tail[..6] != [100, 101, 112, 115, 61, 91] || tail[|tail| - 1] != 93 then None
      else Some(Record(f[0], f[1], UnDash(f[2]), UnDash(f[3]), multiset(ReadDeps(tail[6..|tail| - 1]))))
  }

  function ReadText(text: Str): seq<Option<Record>> {
    var pieces := Split(text, 10);
    var lines := pieces[..|pieces| - 1];
    if lines == [[]] then [] else Apply(ReadLine, lines)
  }

  // ----- the packages themselves

  /** No newline, space or comma. */
  ghost predicate Plain(s: Str) {
    10 !in s && 32 !in s && 44 !in s
  }

  /** No newline or space, and not the dash that stands for nothing. */
  ghost predicate Shown(s: Option<Str>) {
    s.Some? ==> 10 !in s.value && 32 !in s.value && s.value != [45]
  }

  ghost predicate PlainPackage(pkg: Package) {
    Plain(pkg.name) && Plain(pkg.version) && Shown(pkg.source) && Shown(pkg.checksum)
  }

  ghost predicate PlainClosure(p: Lock, seeds: seq<Str>) {
    forall i: nat :: Reached(p, seeds, i) ==> i < |p| && PlainPackage(p[i])
  }

  /** The name and version of each target. */
  function Pairs(p: Lock, targets: seq<nat>): (r: seq<(Str, Str)>)
    requires forall k :: 0 <= k < |targets| ==> targets[k] < |p|
    ensures |r| == |targets|
  {
    seq(|targets|, k requires 0 <= k < |targets| => (p[targets[k]].name, p[targets[k]].version))
  }

  function RecordOf(p: Lock, i: nat): Record
    requires i < |p|
  {
    Record(p[i].name, p[i].version, p[i].source, p[i].checksum, multiset(Pairs(p, Targets(p, p[i].dependencies))))
  }

  function Records(p: Lock, closed: seq<nat>): (r: seq<Option<Record>>)
    requires forall k :: 0 <= k < |closed| ==> closed[k] < |p|
    ensures |r| == |closed|
  {
    seq(|closed|, k requires 0 <= k < |closed| => Some(RecordOf(p, closed[k])))
  }

  /** The targets are what the entries that resolve resolve to, in the order of the entries. */
  lemma {:induction false} TargetsSelect(p: Lock, entries: seq<Str>) returns (places: seq<nat>, resolving: seq<Str>)
    ensures Selects(entries, places, resolving)
    ensures forall k: nat :: k in places <==> k < |entries| && ResolveDep(p, entries[k]).Some?
    ensures |Targets(p, entries)| == |resolving|
    ensures forall k :: 0 <= k < |resolving| ==> ResolveDep(p, resolving[k]) == Some(Targets(p, entries)[k])
  {
    hide ResolveDep;
    if entries == [] {
      places, resolving := [], [];
    } else {
      hide Selects;
      var init, last := entries[..|entries| - 1], entries[|entries| - 1];
      assert entries == init + [last];
      places, resolving := TargetsSelect(p, init);
      SelectsSnoc(init, places, resolving, last);
      if ResolveDep(p, last).Some? {
        places, resolving := places + [|init|], resolving + [last];
      }
    }
  }

  // ----- a line reads back

  lemma FieldAt(head: Str, tail: Str, fields: seq<Str>, rest: Str)
    requires 32 !in head && Fields(tail, |fields|) == Some((fields, rest))
    ensures Fields(head + [32] + tail, |fields| + 1) == Some(([head] + fields, rest))
  {
    SplitSpaceAt(head, tail);
  }

  lemma FourFields(a: Str, b: Str, c: Str, d: Str, tail: Str)
    requires 32 !in a && 32 !in b && 32 !in c && 32 !in d
    ensures Fields(a + [32] + (b + [32] + (c + [32] + (d + [32] + tail))), 4) == Some(([a, b, c, d], tail))
  {
    assert Fields(tail, 0) == Some(([], tail));
    hide Fields;
    FieldAt(d, tail, [], tail);
    assert [d] + [] == [d] && [c] + [d] == [c, d] && [b] + [c, d] == [b, c, d] && [a] + [b, c, d] == [a, b, c, d];
    FieldAt(c, d + [32] + tail, [d], tail);
    FieldAt(b, c + [32] + (d + [32] + tail), [c, d], tail);
    FieldAt(a, b + [32] + (c + [32] + (d + [32] + tail)), [b, c, d], tail);
  }

  lemma PairReads(pkg: Package)
    requires Plain(pkg.name)
    ensures ReadPair(Render(pkg)) == (pkg.name, pkg.version)
  {
    SplitSpaceAt(pkg.name, pkg.version);
  }

  lemma RenderedPlain(pkg: Package)
    requires PlainPackage(pkg)
    ensures 44 !in Render(pkg) && 10 !in Render(pkg) && Render(pkg) != []
  {
  }

  /** The entries between the brackets read back as the pairs they render, as a bag. */
  lemma DepsRead(p: Lock, targets: seq<nat>)
    requires forall k :: 0 <= k < |targets| ==> targets[k] < |p| && PlainPackage(p[targets[k]])
    ensures multiset(ReadDeps(Join(SortTexts(Renders(p, targets)), [44]))) == multiset(Pairs(p, targets))
  {
    var rs := Renders(p, targets);
    var sorted := SortTexts(rs);
    if targets == [] {
      assert Pairs(p, targets) == [];
    } else {
      TextsSorted(rs);
      hide Render, PlainPackage, SortTexts, Split, Join, ReadPair;
      forall k | 0 <= k < |sorted| ensures 44 !in sorted[k] && sorted[k] != [] {
        assert sorted[k] in multiset(rs);
        var l :| 0 <= l < |rs| && rs[l] == sorted[k];
        RenderedPlain(p[targets[l]]);
      }
      SplitJoin(sorted, 44);
      JoinNonempty(sorted, [44]);
      ApplyPermutes(ReadPair, sorted, rs);
      forall k | 0 <= k < |targets| ensures ReadPair(rs[k]) == Pairs(p, targets)[k] {
        PlainName(p[targets[k]]);
        PairReads(p[targets[k]]);
      }
      assert Apply(ReadPair, rs) == Pairs(p, targets);
    }
  }

  lemma PlainName(pkg: Package)
    requires PlainPackage(pkg)
    ensures Plain(pkg.name)
  {
  }

  lemma TextsSorted(s: seq<Str>)
    ensures multiset(SortTexts(s)) == multiset(s)
    ensures forall i, j :: 0 <= i < j < |s| ==> !Less(SortTexts(s)[j], SortTexts(s)[i])
  {
    LessIsOrder();
    SortSorts(Less, s);
  }

  lemma DashReads(s: Option<Str>)
    requires Shown(s)
    ensures 10 !in OrDash(s) && 32 !in OrDash(s) && UnDash(OrDash(s)) == s
  {
  }

  /** Four fields and the bracketed entries. */
  function Shape(a: Str, b: Str, c: Str, d: Str, body: Str): Str {
    a + [32] + (b + [32] + (c + [32] + (d + [32] + ([100, 101, 112, 115, 61, 91] + body + [93]))))
  }

  lemma LineShape(pkg: Package, deps: seq<Str>)
    ensures LineText(pkg, deps)
         == Shape(pkg.name, pkg.version, OrDash(pkg.source), OrDash(pkg.checksum), Join(SortTexts(deps), [44]))
  {
    hide Join, SortTexts, OrDash;
    assert DEPS == [32] + [100, 101, 112, 115, 61, 91];
  }

  lemma ShapeReads(a: Str, b: Str, c: Str, d: Str, body: Str)
    requires 32 !in a && 32 !in b && 32 !in c && 32 !in d
    ensures ReadLine(Shape(a, b, c, d, body)) == Some(Record(a, b, UnDash(c), UnDash(d), multiset(ReadDeps(body))))
  {
    var tail := [100, 101, 112, 115, 61, 91] + body + [93];
    FourFields(a, b, c, d, tail);
    hide Fields, ReadDeps, UnDash;
    assert tail[..6] == [100, 101, 112, 115, 61, 91] && tail[6..|tail| - 1] == body;
  }

  lemma ShapeLacks(a: Str, b: Str, c: Str, d: Str, body: Str)
    requires 10 !in a && 10 !in b && 10 !in c && 10 !in d && 10 !in body
    ensures 10 !in Shape(a, b, c, d, body) && Shape(a, b, c, d, body) != []
  {
    var tail: Str := [100, 101, 112, 115, 61, 91] + body + [93];
    assert 10 !in tail;
    assert 10 !in c + [32] + (d + [32] + tail);
  }

  lemma {:induction false} JoinLacks(lines: seq<Str>, sep: Str, x: byte)
    requires x !in sep && forall k :: 0 <= k < |lines| ==> x !in lines[k]
    ensures x !in Join(lines, sep)
  {
    if |lines| > 1 {
      JoinLacks(lines[1..], sep, x);
    }
  }

  lemma DepsLackNewline(p: Lock, targets: seq<nat>)
    requires forall k :: 0 <= k < |targets| ==> targets[k] < |p| && PlainPackage(p[targets[k]])
    ensures 10 !in Join(SortTexts(Renders(p, targets)), [44])
  {
    var deps := Renders(p, targets);
    var sorted := SortTexts(deps);
    TextsSorted(deps);
    hide SortTexts, Join, Render, PlainPackage;
    forall k | 0 <= k < |sorted| ensures 10 !in sorted[k] {
      assert sorted[k] in multiset(deps);
      var l :| 0 <= l < |deps| && deps[l] == sorted[k];
      RenderedPlain(p[targets[l]]);
    }
    JoinLacks(sorted, [44], 10);
  }

  /** The line of a plain package is one line, and reads back as the package's record. */
  lemma LineReads(p: Lock, i: nat)
    requires i < |p| && PlainPackage(p[i])
    requires forall j: nat :: j in Targets(p, p[i].dependencies) ==> j < |p| && PlainPackage(p[j])
    ensures ReadLine(Line(p, i)) == Some(RecordOf(p, i))
    ensures 10 !in Line(p, i) && Line(p, i) != []
  {
    var pkg, targets := p[i], Targets(p, p[i].dependencies);
    forall k | 0 <= k < |targets| ensures targets[k] < |p| && PlainPackage(p[targets[k]]) {
      assert targets[k] in targets;
    }
    DashReads(pkg.source);
    DashReads(pkg.checksum);
    var body := Join(SortTexts(Renders(p, targets)), [44]);
    hide Join, SortTexts, OrDash, UnDash, Targets, LineText, ReadLine, ReadDeps, Shape;
    DepsRead(p, targets);
    DepsLackNewline(p, targets);
    LineShape(pkg, Renders(p, targets));
    ShapeReads(pkg.name, pkg.version, OrDash(pkg.source), OrDash(pkg.checksum), body);
    ShapeLacks(pkg.name, pkg.version, OrDash(pkg.source), OrDash(pkg.checksum), body);
  }

  // ----- the text reads back

  lemma LinesRead(lines: seq<Str>)
    requires forall k :: 0 <= k < |lines| ==> 10 !in lines[k] && lines[k] != []
    ensures multiset(ReadText(Text(lines))) == multiset(Apply(ReadLine, lines))
  {
    var sorted := SortTexts(lines);
    TextsSorted(lines);
    ApplyPermutes(ReadLine, sorted, lines);
    SplitEnd(Join(sorted, [10]), 10);
    if lines == [] {
      assert Join(sorted, [10]) == [];
      assert ReadText(Text(lines)) == [] == Apply(ReadLine, lines);
    } else {
      hide ReadLine, SortTexts, Split, Join;
      forall k | 0 <= k < |sorted| ensures 10 !in sorted[k] && sorted[k] != [] {
        assert sorted[k] in multiset(lines);
      }
      SplitJoin(sorted, 10);
      assert sorted[0] != [];
      assert ReadText(Text(lines)) == Apply(ReadLine, sorted);
    }
  }

  /** Read back, a closure's text is the bag of its packages' records. */
  lemma TextReads(p: Lock, seeds: seq<Str>, closed: seq<nat>)
    requires IsClosure(p, seeds, closed) && PlainClosure(p, seeds)
    ensures multiset(ReadText(Text(Lines(p, closed)))) == multiset(Records(p, closed))
  {
    var lines := Lines(p, closed);
    hide Reached, PlainPackage, Line, ReadLine, RecordOf, ReadText, Text;
    forall k | 0 <= k < |closed|
      ensures 10 !in lines[k] && lines[k] != [] && ReadLine(lines[k]) == Some(RecordOf(p, closed[k]))
    {
      assert closed[k] in closed;
      ReachedTargetsPlain(p, seeds, closed[k]);
      LineReads(p, closed[k]);
    }
    LinesRead(lines);
    assert Apply(ReadLine, lines) == Records(p, closed);
  }

  lemma ReachedTargetsPlain(p: Lock, seeds: seq<Str>, i: nat)
    requires PlainClosure(p, seeds) && Reached(p, seeds, i)
    ensures i < |p| && PlainPackage(p[i])
    ensures forall j: nat :: j in Targets(p, p[i].dependencies) ==> j < |p| && PlainPackage(p[j])
  {
    hide Reached, PlainPackage, Targets;
    forall j: nat | j in Targets(p, p[i].dependencies) ensures j < |p| && PlainPackage(p[j]) {
      TargetsAreNeeds(p, p[i].dependencies, j);
      NeededReached(p, seeds, i, j);
    }
  }

  /** The lines of a text stand in ascending order, byte by byte. */
  lemma LinesAscend(p: Lock, seeds: seq<Str>, closed: seq<nat>)
    requires IsClosure(p, seeds, closed) && PlainClosure(p, seeds)
    ensures var pieces := Split(Text(Lines(p, closed)), 10);
      forall i, j :: 0 <= i < j < |pieces| - 1 ==> !Less(pieces[j], pieces[i])
  {
    var lines := Lines(p, closed);
    var sorted := SortTexts(lines);
    TextsSorted(lines);
    SplitEnd(Join(sorted, [10]), 10);
    hide Reached, PlainPackage, Line, Less, SortTexts, Split, Join;
    if lines != [] {
      forall k | 0 <= k < |sorted| ensures 10 !in sorted[k] {
        assert sorted[k] in multiset(lines);
        var l :| 0 <= l < |lines| && lines[l] == sorted[k];
        assert closed[l] in closed;
        ReachedTargetsPlain(p, seeds, closed[l]);
        LineReads(p, closed[l]);
      }
      SplitJoin(sorted, 10);
    } else {
      NoLines();
    }
  }

  lemma NoLines()
    ensures |Split(Join(SortTexts([]), [10]), 10)| == 1
  {
  }

  // ----- what equal texts mean

  /** Two closures with one text hold the same packages, with the same resolved entries. */
  lemma TextShowsClosure(p: Lock, seeds: seq<Str>, closed: seq<nat>, q: Lock, seeds': seq<Str>, closed': seq<nat>,
                         s: Str)
    requires IsClosure(p, seeds, closed) && PlainClosure(p, seeds)
    requires IsClosure(q, seeds', closed') && PlainClosure(q, seeds')
    requires HasText(p, seeds, s) && HasText(q, seeds', s)
    ensures multiset(Records(p, closed)) == multiset(Records(q, closed'))
  {
    TextOfClosure(p, seeds, closed, s);
    TextOfClosure(q, seeds', closed', s);
    hide *;
    TextReads(p, seeds, closed);
    TextReads(q, seeds', closed');
  }

  lemma TextOfClosure(p: Lock, seeds: seq<Str>, closed: seq<nat>, s: Str)
    requires IsClosure(p, seeds, closed) && HasText(p, seeds, s)
    ensures s == Text(Lines(p, closed))
  {
    var other :| IsClosure(p, seeds, other) && s == Text(Lines(p, other));
    hide Reached, Line;
    NoRepeatsSameBag(closed, other);
    var a, b := Lines(p, closed), Lines(p, other);
    LabelsPermute(closed, a, other, b);
    SortedTextsPermute(a, b);
  }

  // ----- one package changed

  /** No other package has the name, the version and the source of a reached one. */
  lemma ReachedIsAlone(p: Lock, seeds: seq<Str>, i: nat, j: nat)
    requires Reached(p, seeds, i) && j < |p| && i < |p|
    requires p[j].name == p[i].name && p[j].version == p[i].version && p[j].source == p[i].source
    ensures j == i
  {
    var chain :| IsChain(p, seeds, chain) && chain[|chain| - 1] == i;
    if |chain| == 1 {
      var k :| 0 <= k < |seeds| && PickSeed(p, seeds[k]) == Some(i);
      PicksTheOnly(p, seeds[k], i);
    } else {
      var h := chain[|chain| - 2];
      assert Needs(p, h, i);
      var k :| 0 <= k < |p[h].dependencies| && ResolveDep(p, p[h].dependencies[k]) == Some(i);
      ResolvesToTheOnly(p, p[h].dependencies[k], i);
    }
  }

  lemma RecordFound(p: Lock, closed: seq<nat>, q: Lock, closed': seq<nat>, i: nat) returns (j: nat)
    requires forall k :: 0 <= k < |closed| ==> closed[k] < |p|
    requires forall k :: 0 <= k < |closed'| ==> closed'[k] < |q|
    requires multiset(Records(p, closed)) == multiset(Records(q, closed')) && i in closed && i < |p|
    ensures j < |q| && RecordOf(q, j) == RecordOf(p, i)
  {
    hide RecordOf;
    var k :| 0 <= k < |closed| && closed[k] == i;
    assert Records(p, closed)[k] in multiset(Records(q, closed'));
    var l :| 0 <= l < |closed'| && Records(q, closed')[l] == Records(p, closed)[k];
    j := closed'[l];
  }

  lemma SameRecordSamePackage(p: Lock, seeds: seq<Str>, q: Lock, i: nat, j: nat)
    requires |q| == |p| && Reached(p, seeds, i) && i < |p| && forall j :: 0 <= j < |p| && j != i ==> q[j] == p[j]
    requires j < |q| && RecordOf(q, j) == RecordOf(p, i)
    ensures j == i
  {
    hide Reached, Targets;
    if j != i {
      ReachedIsAlone(p, seeds, i, j);
    }
  }

  /** Changing anything a record shows of one reached package - its name, version, source or
      checksum, or what its entries resolve to - changes the text, whatever else the change makes
      of the closure. */
  lemma ChangeMovesText(p: Lock, seeds: seq<Str>, q: Lock, seeds': seq<Str>, i: nat, s: Str, t: Str)
    requires |q| == |p| && Reached(p, seeds, i) && i < |p| && forall j :: 0 <= j < |p| && j != i ==> q[j] == p[j]
    requires RecordOf(q, i) != RecordOf(p, i)
    requires PlainClosure(p, seeds) && PlainClosure(q, seeds')
    requires HasText(p, seeds, s) && HasText(q, seeds', t)
    ensures s != t
  {
    var closed :| IsClosure(p, seeds, closed) && s == Text(Lines(p, closed));
    var closed' :| IsClosure(q, seeds', closed') && t == Text(Lines(q, closed'));
    hide HasText, PlainClosure, Reached, Text, Lines, RecordOf, Records;
    if s == t {
      TextShowsClosure(p, seeds, closed, q, seeds', closed', s);
      var j := RecordFound(p, closed, q, closed', i);
      SameRecordSamePackage(p, seeds, q, i, j);
    }
  }

  /** Without the condition a text shows less: a source spelled as the dash looks like no source. */
  lemma DashHidesSource(name: Str, version: Str, checksum: Option<Str>)
    ensures var p := [Package(name, version, None, checksum, [])];
      var q := [Package(name, version, Some([45]), checksum, [])];
      Line(p, 0) == Line(q, 0) && RecordOf(p, 0) != RecordOf(q, 0)
  {
  }
}
