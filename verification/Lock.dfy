/** The dependency closure of a lock file, as one canonical text. */
module Locks {
  import opened Options
  import opened Bytes

  /** One locked package, parsed. */
  datatype Package = Package(
    name: Str, version: Str, source: Option<Str>, checksum: Option<Str>, dependencies: seq<Str>)

  type Lock = seq<Package>

  const SPACE: byte := 32
  const NEWLINE: Str := [10]
  const COMMA: Str := [44]
  const DASH: Str := [45]
  const CLOSE: Str := [93]
  /** " deps=[" */
  const DEPS: Str := [32, 100, 101, 112, 115, 61, 91]

  // ----- dependency entries

  datatype DepRef = DepRef(name: Str, version: Option<Str>, source: Option<Str>)

  /** The text before the first space, and what follows it if there is one. */
  function SplitSpace(s: Str): (r: (Str, Option<Str>))
    ensures SPACE !in r.0
    ensures s == if r.1.None? then r.0 else r.0 + [SPACE] + r.1.value
  {
    if s == [] then ([], None)
    else if s[0] == SPACE then ([], Some(s[1..]))
    else
      var (head, rest) := SplitSpace(s[1..]);
      ([s[0]] + head, rest)
  }

  /** `name`, `name version` or `name version (source)`; none when the source is not in parentheses. */
  function ParseDep(entry: Str): Option<DepRef> {
    var (name, rest) := SplitSpace(entry);
    match rest
    case None => Some(DepRef(name, None, None))
    case Some(text) =>
      var (version, last) := SplitSpace(text);
      match last
      case None => Some(DepRef(name, Some(version), None))
      case Some(s) =>
        if |s| >= 2 && s[0] == 40 && s[|s| - 1] == 41 then Some(DepRef(name, Some(version), Some(s[1..|s| - 1])))
        else None
  }

  lemma {:induction false} SplitSpaceAt(head: Str, tail: Str)
    requires 32 !in head
    ensures SplitSpace(head + [32] + tail) == (head, Some(tail))
  {
    var s := head + [32] + tail;
    if head == [] {
      assert s[1..] == tail;
    } else {
      SplitSpaceAt(head[1..], tail);
      assert s[1..] == head[1..] + [32] + tail;
      assert head == [head[0]] + head[1..];
    }
  }

  lemma {:induction false} SplitSpaceNone(s: Str)
    requires 32 !in s
    ensures SplitSpace(s) == (s, None)
  {
    if s == [] {
    } else {
      SplitSpaceNone(s[1..]);
      assert s == [s[0]] + s[1..];
    }
  }

  /** `entry` spells `d`: the name, the version behind a space, and the source in parentheses
      behind another. */
  ghost predicate Spells(entry: Str, d: DepRef) {
    && 32 !in d.name
    && (d.version.None? ==> d.source.None? && entry == d.name)
    && (d.version.Some? ==> 32 !in d.version.value)
    && (d.version.Some? && d.source.None? ==> entry == d.name + [32] + d.version.value)
    && (d.version.Some? && d.source.Some? ==>
      entry == d.name + [32] + (d.version.value + [32] + ([40] + d.source.value + [41])))
  }

  /** An entry is parsed exactly as what it spells, and to nothing when it spells nothing. */
  lemma ParsesWhatIsSpelled(entry: Str, d: DepRef)
    ensures ParseDep(entry) == Some(d) <==> Spells(entry, d)
  {
    if ParseDep(entry) == Some(d) {
      ParsedIsSpelled(entry, d);
    }
    if Spells(entry, d) {
      SpelledIsParsed(entry, d);
    }
  }

  lemma ParsedIsSpelled(entry: Str, d: DepRef)
    requires ParseDep(entry) == Some(d)
    ensures Spells(entry, d)
  {
    hide SplitSpace;
    var (name, rest) := SplitSpace(entry);
    if rest.Some? {
      var (version, last) := SplitSpace(rest.value);
      if last.Some? {
        var s := last.value;
        assert s == [40] + s[1..|s| - 1] + [41];
      }
    }
  }

  lemma SpelledIsParsed(entry: Str, d: DepRef)
    requires Spells(entry, d)
    ensures ParseDep(entry) == Some(d)
  {
    hide SplitSpace;
    if d.version.None? {
      SplitSpaceNone(entry);
    } else {
      var text := if d.source.None? then d.version.value
        else d.version.value + [32] + ([40] + d.source.value + [41]);
      SplitSpaceAt(d.name, text);
      if d.source.None? {
        SplitSpaceNone(text);
      } else {
        var s := [40] + d.source.value + [41];
        SplitSpaceAt(d.version.value, s);
        assert s[1..|s| - 1] == d.source.value;
      }
    }
  }

  predicate Names(d: DepRef, p: Package) {
    && p.name == d.name
    && (d.version.None? || p.version == d.version.value)
    && (d.source.None? || p.source == d.source)
  }

  /** The places of the packages `d` names, ascending. */
  function NamedBy(packages: Lock, d: DepRef): seq<nat> {
    if packages == [] then []
    else
      var last := |packages| - 1;
      NamedBy(packages[..last], d) + (if Names(d, packages[last]) then [last] else [])
  }

  /** The one package an entry names; none for a bad entry, no match or several. */
  function ResolveDep(packages: Lock, entry: Str): Option<nat> {
    match ParseDep(entry)
    case None => None
    case Some(d) => TheOnly(NamedBy(packages, d))
  }

  function TheOnly(s: seq<nat>): Option<nat> {
    if |s| == 1 then Some(s[0]) else None
  }

  ghost predicate Ascending(s: seq<nat>) {
    forall k, l :: 0 <= k < l < |s| ==> s[k] < s[l]
  }

  lemma AscendingSnoc(s: seq<nat>, x: nat)
    requires Ascending(s) && forall y: nat :: y in s ==> y < x
    ensures Ascending(s + [x])
  {
    forall k | 0 <= k < |s| ensures s[k] < x {
      assert s[k] in s;
    }
  }

  lemma {:induction false} NamedByMembers(packages: Lock, d: DepRef)
    ensures var hits := NamedBy(packages, d);
      && (forall i: nat :: i in hits <==> i < |packages| && Names(d, packages[i]))
      && Ascending(hits)
  {
    if packages == [] {
    } else {
      NamedByMembers(packages[..|packages| - 1], d);
      AscendingSnoc(NamedBy(packages[..|packages| - 1], d), |packages| - 1);
    }
  }

  ghost predicate OnlyNames(packages: Lock, d: DepRef, i: nat) {
    i < |packages| && forall j :: 0 <= j < |packages| ==> (Names(d, packages[j]) <==> j == i)
  }

  /** An entry resolves to a package exactly when that is the only one it names. */
  lemma ResolvesToTheOnly(packages: Lock, entry: Str, i: nat)
    ensures ResolveDep(packages, entry) == Some(i)
       <==> ParseDep(entry).Some? && OnlyNames(packages, ParseDep(entry).value, i)
  {
    hide ParseDep, Names, NamedBy;
    if ParseDep(entry).Some? {
      var d := ParseDep(entry).value;
      var hits := NamedBy(packages, d);
      NamedByMembers(packages, d);
      OnlyHit(hits, i);
      hide TheOnly;
      if OnlyNames(packages, d, i) {
        assert forall j: nat :: j in hits <==> j == i;
      }
      if forall j: nat :: j in hits <==> j == i {
        assert i in hits;
        assert OnlyNames(packages, d, i);
      }
    }
  }

  /** An entry that spells `d` resolves to a package exactly when no other has the name, the version
      and the source it gives; one that spells nothing does not resolve. */
  lemma ResolvesAsSpelled(packages: Lock, entry: Str, d: DepRef, i: nat)
    ensures Spells(entry, d) ==>
      (ResolveDep(packages, entry) == Some(i) <==>
        && i < |packages|
        && forall j :: 0 <= j < |packages| ==>
          ((&& packages[j].name == d.name
            && (d.version.Some? ==> packages[j].version == d.version.value)
            && (d.source.Some? ==> packages[j].source == Some(d.source.value))) <==> j == i))
    ensures (forall s :: !Spells(entry, s)) ==> ResolveDep(packages, entry) == None
  {
    ParsesWhatIsSpelled(entry, d);
    ResolvesToTheOnly(packages, entry, i);
    if ParseDep(entry).Some? {
      ParsesWhatIsSpelled(entry, ParseDep(entry).value);
    }
    hide ParseDep, Spells, NamedBy;
  }

  lemma OnlyHit(hits: seq<nat>, i: nat)
    requires Ascending(hits)
    ensures TheOnly(hits) == Some(i) <==> forall j: nat :: j in hits <==> j == i
  {
    if |hits| == 1 {
      assert hits == [hits[0]];
      assert hits[0] in hits;
    } else if |hits| > 1 {
      assert hits[0] in hits && hits[1] in hits && hits[0] < hits[1];
    } else {
      assert i !in hits;
    }
  }

  // ----- seeds

  function CalledSeed(packages: Lock, seed: Str): seq<nat> {
    NamedBy(packages, DepRef(seed, None, None))
  }

  function Members(packages: Lock, named: seq<nat>): seq<nat>
    requires forall k :: 0 <= k < |named| ==> named[k] < |packages|
  {
    if named == [] then []
    else
      var last := named[|named| - 1];
      Members(packages, named[..|named| - 1]) + (if packages[last].source.None? then [last] else [])
  }

  /** The one package of the seed's name, or the one without a source among several. */
  function PickSeed(packages: Lock, seed: Str): Option<nat> {
    var named := CalledSeed(packages, seed);
    NamedByMembers(packages, DepRef(seed, None, None));
    assert forall k :: 0 <= k < |named| ==> named[k] in named;
    TheOnly(if |named| == 1 then named else Members(packages, named))
  }

  lemma {:induction false} MembersMembers(packages: Lock, named: seq<nat>)
    requires forall k :: 0 <= k < |named| ==> named[k] < |packages|
    requires Ascending(named)
    ensures var m := Members(packages, named);
      && (forall i: nat :: i in m <==> i in named && packages[i].source.None?)
      && Ascending(m)
  {
    if named == [] {
    } else {
      assert named == named[..|named| - 1] + [named[|named| - 1]];
      var init, last := named[..|named| - 1], named[|named| - 1];
      MembersMembers(packages, init);
      forall y: nat | y in Members(packages, init) ensures y < last {
        assert y in init;
      }
      AscendingSnoc(Members(packages, init), last);
    }
  }

  ghost predicate OnlyNamed(packages: Lock, seed: Str, i: nat) {
    i < |packages| && forall j :: 0 <= j < |packages| ==> (packages[j].name == seed <==> j == i)
  }

  ghost predicate OnlyMember(packages: Lock, seed: Str, i: nat) {
    && i < |packages|
    && forall j :: 0 <= j < |packages| ==> (packages[j].name == seed && packages[j].source.None? <==> j == i)
  }

  /** A seed picks the only package of its name, or else the only workspace member of its name. */
  lemma PicksTheOnly(packages: Lock, seed: Str, i: nat)
    ensures PickSeed(packages, seed) == Some(i)
       <==> || OnlyNamed(packages, seed, i)
            || ((forall j: nat :: !OnlyNamed(packages, seed, j)) && OnlyMember(packages, seed, i))
  {
    CalledIsNamed(packages, seed);
    var named := CalledSeed(packages, seed);
    MembersMembers(packages, named);
    var m := Members(packages, named);
    hide CalledSeed, Members, TheOnly;
    forall j: nat ensures TheOnly(named) == Some(j) <==> OnlyNamed(packages, seed, j) {
      OnlyHit(named, j);
      if forall k: nat :: k in named <==> k == j {
        assert j in named;
      }
    }
    OnlyHit(m, i);
    if forall k: nat :: k in m <==> k == i {
      assert i in m;
    }
    assert TheOnly(m) == Some(i) <==> OnlyMember(packages, seed, i);
    PickUnfolds(packages, seed);
    if TheOnly(named).Some? {
      assert OnlyNamed(packages, seed, TheOnly(named).value);
    }
  }

  lemma PickUnfolds(packages: Lock, seed: Str)
    requires forall k :: 0 <= k < |CalledSeed(packages, seed)| ==> CalledSeed(packages, seed)[k] < |packages|
    ensures var named := CalledSeed(packages, seed);
      PickSeed(packages, seed) == if TheOnly(named).Some? then TheOnly(named) else TheOnly(Members(packages, named))
  {
    hide NamedBy, Members;
  }

  lemma CalledIsNamed(packages: Lock, seed: Str)
    ensures var named := CalledSeed(packages, seed);
      && Ascending(named)
      && (forall k :: 0 <= k < |named| ==> named[k] < |packages|)
      && (forall i: nat :: i in named <==> i < |packages| && packages[i].name == seed)
  {
    NamedByMembers(packages, DepRef(seed, None, None));
    var named := CalledSeed(packages, seed);
    forall k | 0 <= k < |named| ensures named[k] < |packages| {
      assert named[k] in named;
    }
  }
}
