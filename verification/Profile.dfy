/** A domain's tables: effect sinks, whose lookup order a clean table makes irrelevant, and the
    entry rule, which reads a file's extension only when it must. */
module Profiles {
  import opened Options

  type KindId = nat
  type CategoryId = nat

  // ----- effect sinks

  datatype EffectSink = EffectSink(class_: string, kinds: seq<KindId>, via: seq<CategoryId>) {
    predicate Matches(kind: KindId, category: CategoryId) {
      kind in kinds && category in via
    }
  }

  /** The first sink of the table that matches, with its place. */
  function SinkAt(sinks: seq<EffectSink>, kind: KindId, category: CategoryId): Option<(nat, EffectSink)> {
    if sinks == [] then None
    else match SinkAt(sinks[..|sinks| - 1], kind, category)
      case Some(hit) => Some(hit)
      case None =>
        var last := |sinks| - 1;
        if sinks[last].Matches(kind, category) then Some((last, sinks[last])) else None
  }

  function SinkOf(sinks: seq<EffectSink>, kind: KindId, category: CategoryId): Option<EffectSink> {
    match SinkAt(sinks, kind, category)
    case None => None
    case Some((_, s)) => Some(s)
  }

  lemma {:induction false} SinkIsFirst(sinks: seq<EffectSink>, kind: KindId, category: CategoryId)
    ensures match SinkAt(sinks, kind, category)
      case None => forall i :: 0 <= i < |sinks| ==> kind !in sinks[i].kinds || category !in sinks[i].via
      case Some((i, s)) =>
        && i < |sinks| && s == sinks[i] && kind in s.kinds && category in s.via
        && forall j :: 0 <= j < i ==> kind !in sinks[j].kinds || category !in sinks[j].via
  {
    if sinks == [] {
    } else {
      SinkIsFirst(sinks[..|sinks| - 1], kind, category);
    }
  }

  datatype Problem =
    | EmptyClass(place: nat)
    | DuplicateClass(class_: string)
    | MatchesNothing(place: nat)
    | UnregisteredKind(place: nat, kind: KindId)
    | RepeatedKind(place: nat, kind: KindId)
    | UnregisteredCategory(place: nat, category: CategoryId)
    | RepeatedCategory(place: nat, category: CategoryId)
    | Overlap(place: nat, prior: nat)

  ghost predicate DistinctIds(ids: seq<nat>) {
    forall i, j :: 0 <= i < j < |ids| ==> ids[i] != ids[j]
  }

  ghost predicate Overlapping(a: EffectSink, b: EffectSink) {
    exists k, c :: a.Matches(k, c) && b.Matches(k, c)
  }

  /** What is asked of the sink at place `i`. */
  ghost predicate CleanSink(kinds: set<KindId>, categories: set<CategoryId>, sinks: seq<EffectSink>, i: nat)
    requires i < |sinks|
  {
    var s := sinks[i];
    && s.class_ != "" && (forall j :: 0 <= j < i ==> sinks[j].class_ != s.class_)
    && s.kinds != [] && s.via != []
    && (forall k :: k in s.kinds ==> k in kinds) && DistinctIds(s.kinds)
    && (forall c :: c in s.via ==> c in categories) && DistinctIds(s.via)
    && (forall j :: 0 <= j < i ==> !Overlapping(sinks[j], s))
  }

  ghost predicate CleanTable(kinds: set<KindId>, categories: set<CategoryId>, sinks: seq<EffectSink>) {
    forall i :: 0 <= i < |sinks| ==> CleanSink(kinds, categories, sinks, i)
  }

  /** `x` is listed at two places. */
  ghost predicate Repeats(ids: seq<nat>, x: nat) {
    exists i, j :: 0 <= i < j < |ids| && ids[i] == x && ids[j] == x
  }

  /** What is to be reported of the sink at place `i`. */
  ghost predicate IsProblem(kinds: set<KindId>, categories: set<CategoryId>, sinks: seq<EffectSink>, i: nat, e: Problem)
    requires i < |sinks|
  {
    var s := sinks[i];
    match e
    case EmptyClass(place) => place == i && s.class_ == ""
    case DuplicateClass(c) => c == s.class_ && exists j :: 0 <= j < i && sinks[j].class_ == c
    case MatchesNothing(place) => place == i && (s.kinds == [] || s.via == [])
    case UnregisteredKind(place, k) => place == i && k in s.kinds && k !in kinds
    case RepeatedKind(place, k) => place == i && Repeats(s.kinds, k)
    case UnregisteredCategory(place, c) => place == i && c in s.via && c !in categories
    case RepeatedCategory(place, c) => place == i && Repeats(s.via, c)
    case Overlap(place, prior) => place == i && prior < i && Overlapping(sinks[prior], s)
  }

  lemma CleanMeansNoProblem(kinds: set<KindId>, categories: set<CategoryId>, sinks: seq<EffectSink>, i: nat)
    requires i < |sinks|
    ensures CleanSink(kinds, categories, sinks, i) <==> forall e :: !IsProblem(kinds, categories, sinks, i, e)
  {
    hide Overlapping;
    var s := sinks[i];
    if forall e :: !IsProblem(kinds, categories, sinks, i, e) {
      assert !IsProblem(kinds, categories, sinks, i, EmptyClass(i));
      assert !IsProblem(kinds, categories, sinks, i, DuplicateClass(s.class_));
      assert !IsProblem(kinds, categories, sinks, i, MatchesNothing(i));
      forall k ensures k in s.kinds ==> k in kinds && !Repeats(s.kinds, k) {
        assert !IsProblem(kinds, categories, sinks, i, UnregisteredKind(i, k));
        assert !IsProblem(kinds, categories, sinks, i, RepeatedKind(i, k));
      }
      forall c ensures c in s.via ==> c in categories && !Repeats(s.via, c) {
        assert !IsProblem(kinds, categories, sinks, i, UnregisteredCategory(i, c));
        assert !IsProblem(kinds, categories, sinks, i, RepeatedCategory(i, c));
      }
      forall j | 0 <= j < i ensures !Overlapping(sinks[j], s) {
        assert !IsProblem(kinds, categories, sinks, i, Overlap(i, j));
      }
      NoneRepeats(s.kinds);
      NoneRepeats(s.via);
    }
  }

  lemma NoneRepeats(ids: seq<nat>)
    requires forall x :: x in ids ==> !Repeats(ids, x)
    ensures DistinctIds(ids)
  {
    forall i, j | 0 <= i < j < |ids| ensures ids[i] != ids[j] {
      assert ids[i] in ids;
    }
  }

  ghost predicate KindProblem(ids: seq<KindId>, registered: set<KindId>, place: nat, e: Problem) {
    || (e.UnregisteredKind? && e.place == place && e.kind in ids && e.kind !in registered)
    || (e.RepeatedKind? && e.place == place && Repeats(ids, e.kind))
  }

  ghost predicate CategoryProblem(ids: seq<CategoryId>, registered: set<CategoryId>, place: nat, e: Problem) {
    || (e.UnregisteredCategory? && e.place == place && e.category in ids && e.category !in registered)
    || (e.RepeatedCategory? && e.place == place && Repeats(ids, e.category))
  }

  method CheckKinds(ids: seq<KindId>, registered: set<KindId>, place: nat) returns (errors: seq<Problem>)
    ensures forall e :: e in errors <==> KindProblem(ids, registered, place, e)
  {
    errors := [];
    for i := 0 to |ids|
      invariant forall e :: e in errors <==> KindProblem(ids[..i], registered, place, e)
    {
      hide Repeats;
      var k := ids[i];
      assert ids[..i + 1] == ids[..i] + [k];
      if k !in registered {
        errors := errors + [UnregisteredKind(place, k)];
      }
      if k in ids[..i] {
        errors := errors + [RepeatedKind(place, k)];
      }
      forall y ensures Repeats(ids[..i + 1], y) <==> Repeats(ids[..i], y) || (y == k && k in ids[..i]) {
        RepeatsSnoc(ids[..i], k, y);
      }
    }
    assert ids[..|ids|] == ids;
  }

  method CheckCategories(ids: seq<CategoryId>, registered: set<CategoryId>, place: nat) returns (errors: seq<Problem>)
    ensures forall e :: e in errors <==> CategoryProblem(ids, registered, place, e)
  {
    errors := [];
    var seen: seq<CategoryId> := [];
    for i := 0 to |ids|
      invariant seen == ids[..i]
      invariant forall e :: e in errors <==> CategoryProblem(seen, registered, place, e)
    {
      hide Repeats;
      var c := ids[i];
      if c !in registered {
        errors := errors + [UnregisteredCategory(place, c)];
      }
      if c in seen {
        errors := errors + [RepeatedCategory(place, c)];
      }
      forall y ensures Repeats(seen + [c], y) <==> Repeats(seen, y) || (y == c && c in seen) {
        RepeatsSnoc(seen, c, y);
      }
      seen := seen + [c];
    }
    assert ids[..|ids|] == ids;
  }

  lemma RepeatsSnoc(init: seq<nat>, x: nat, y: nat)
    ensures Repeats(init + [x], y) <==> Repeats(init, y) || (y == x && x in init)
  {
    var more := init + [x];
    if Repeats(more, y) {
      var i, j :| 0 <= i < j < |more| && more[i] == y && more[j] == y;
      assert init[i] == y && (j < |init| ==> init[j] == y);
    }
    if Repeats(init, y) {
      var i, j :| 0 <= i < j < |init| && init[i] == y && init[j] == y;
      assert more[i] == y && more[j] == y;
    }
    if y == x && x in init {
      var i :| 0 <= i < |init| && init[i] == x;
      assert more[i] == y && more[|init|] == y;
    }
  }

  method FindShared(s: EffectSink, prior: EffectSink) returns (shared: Option<(KindId, CategoryId)>)
    ensures shared.Some? <==> Overlapping(prior, s)
    ensures shared.Some? ==> var (k, c) := shared.value; prior.Matches(k, c) && s.Matches(k, c)
  {
    for i := 0 to |s.kinds|
      invariant forall k, c :: k in s.kinds[..i] && c in s.via ==> !prior.Matches(k, c)
    {
      assert s.kinds[..i + 1] == s.kinds[..i] + [s.kinds[i]];
      for j := 0 to |s.via|
        invariant forall c :: c in s.via[..j] ==> !prior.Matches(s.kinds[i], c)
      {
        assert s.via[..j + 1] == s.via[..j] + [s.via[j]];
        if prior.Matches(s.kinds[i], s.via[j]) {
          assert s.Matches(s.kinds[i], s.via[j]);
          return Some((s.kinds[i], s.via[j]));
        }
      }
      assert s.via[..|s.via|] == s.via;
    }
    assert s.kinds[..|s.kinds|] == s.kinds;
    shared := None;
  }

  /** Every problem of the sink at place `i` is reported, and nothing else. */
  method CheckSink(kinds: set<KindId>, categories: set<CategoryId>, sinks: seq<EffectSink>, i: nat)
    returns (errors: seq<Problem>)
    requires i < |sinks|
    ensures forall e :: e in errors <==> IsProblem(kinds, categories, sinks, i, e)
  {
    hide Overlapping, Repeats;
    var s := sinks[i];
    errors := [];
    if s.class_ == "" {
      errors := errors + [EmptyClass(i)];
    }
    if exists j :: 0 <= j < i && sinks[j].class_ == s.class_ {
      errors := errors + [DuplicateClass(s.class_)];
    }
    if s.kinds == [] || s.via == [] {
      errors := errors + [MatchesNothing(i)];
    }
    var k := CheckKinds(s.kinds, kinds, i);
    var c := CheckCategories(s.via, categories, i);
    var overlaps := CheckOverlaps(sinks, i);
    errors := errors + k + c + overlaps;
  }

  method CheckOverlaps(sinks: seq<EffectSink>, i: nat) returns (errors: seq<Problem>)
    requires i < |sinks|
    ensures forall e :: e in errors <==>
      e.Overlap? && e.place == i && e.prior < i && Overlapping(sinks[e.prior], sinks[i])
  {
    hide Overlapping;
    errors := [];
    for j := 0 to i
      invariant forall e :: e in errors <==>
        e.Overlap? && e.place == i && e.prior < j && Overlapping(sinks[e.prior], sinks[i])
    {
      var shared := FindShared(sinks[i], sinks[j]);
      if shared.Some? {
        errors := errors + [Overlap(i, j)];
      }
    }
  }

  /** Every problem of every sink is reported, and nothing else; so none is exactly when the table
      is clean. */
  method ValidateSinks(kinds: set<KindId>, categories: set<CategoryId>, sinks: seq<EffectSink>)
    returns (errors: seq<Problem>)
    ensures forall e :: e in errors <==> exists i :: 0 <= i < |sinks| && IsProblem(kinds, categories, sinks, i, e)
    ensures errors == [] <==> CleanTable(kinds, categories, sinks)
  {
    hide CleanSink, IsProblem;
    errors := [];
    for i := 0 to |sinks|
      invariant forall e :: e in errors <==> exists j :: 0 <= j < i && IsProblem(kinds, categories, sinks, j, e)
    {
      var more := CheckSink(kinds, categories, sinks, i);
      errors := errors + more;
    }
    NoErrorsIsClean(kinds, categories, sinks, errors);
  }

  lemma NoErrorsIsClean(kinds: set<KindId>, categories: set<CategoryId>, sinks: seq<EffectSink>, errors: seq<Problem>)
    requires forall e :: e in errors <==> exists i :: 0 <= i < |sinks| && IsProblem(kinds, categories, sinks, i, e)
    ensures errors == [] <==> CleanTable(kinds, categories, sinks)
  {
    hide CleanSink, IsProblem;
    forall i | 0 <= i < |sinks|
      ensures CleanSink(kinds, categories, sinks, i) <==> forall e :: !IsProblem(kinds, categories, sinks, i, e)
    {
      CleanMeansNoProblem(kinds, categories, sinks, i);
    }
    if errors == [] {
      forall i, e | 0 <= i < |sinks| ensures !IsProblem(kinds, categories, sinks, i, e) {
        assert e !in errors;
      }
    } else {
      assert errors[0] in errors;
      var i :| 0 <= i < |sinks| && IsProblem(kinds, categories, sinks, i, errors[0]);
      assert !CleanSink(kinds, categories, sinks, i);
    }
  }

  /** No two different sinks of the table match one kind and category. */
  ghost predicate OneSinkEach(sinks: seq<EffectSink>) {
    forall i, j, k, c :: 0 <= i < |sinks| && 0 <= j < |sinks| && sinks[i].Matches(k, c) && sinks[j].Matches(k, c) ==>
      sinks[i] == sinks[j]
  }

  lemma CleanHasOneSinkEach(kinds: set<KindId>, categories: set<CategoryId>, sinks: seq<EffectSink>)
    requires CleanTable(kinds, categories, sinks)
    ensures OneSinkEach(sinks)
  {
    forall i, j, k, c | 0 <= i < |sinks| && 0 <= j < |sinks| && sinks[i].Matches(k, c) && sinks[j].Matches(k, c)
      ensures sinks[i] == sinks[j]
    {
      assert CleanSink(kinds, categories, sinks, i) && CleanSink(kinds, categories, sinks, j);
      assert Overlapping(sinks[i], sinks[j]) && Overlapping(sinks[j], sinks[i]);
    }
  }

  ghost predicate OrderFree(sinks: seq<EffectSink>) {
    forall t, k, c :: multiset(t) == multiset(sinks) ==> SinkOf(t, k, c) == SinkOf(sinks, k, c)
  }

  /** The lookup gives the same sink under every order of the table exactly when no two
      different sinks overlap. */
  lemma OrderFreeIffOneSinkEach(sinks: seq<EffectSink>)
    ensures OrderFree(sinks) <==> OneSinkEach(sinks)
  {
    if OneSinkEach(sinks) {
      forall t: seq<EffectSink>, k, c | multiset(t) == multiset(sinks) ensures SinkOf(t, k, c) == SinkOf(sinks, k, c) {
        SameLookup(sinks, t, k, c);
      }
    }
    if OrderFree(sinks) {
      forall i, j, k, c | 0 <= i < |sinks| && 0 <= j < |sinks| && sinks[i].Matches(k, c) && sinks[j].Matches(k, c)
        ensures sinks[i] == sinks[j]
      {
        PutFirst(sinks, i, k, c);
        PutFirst(sinks, j, k, c);
      }
    }
  }

  lemma SameLookup(s: seq<EffectSink>, t: seq<EffectSink>, k: KindId, c: CategoryId)
    requires OneSinkEach(s) && multiset(t) == multiset(s)
    ensures SinkOf(t, k, c) == SinkOf(s, k, c)
  {
    SinkIsFirst(s, k, c);
    SinkIsFirst(t, k, c);
    hide SinkAt;
    forall x: EffectSink ensures x in s <==> x in t {
      assert x in multiset(s) <==> x in multiset(t);
    }
    if SinkAt(t, k, c).Some? {
      var i := SinkAt(t, k, c).value.0;
      assert t[i] in s && t[i].Matches(k, c);
    }
    if SinkAt(s, k, c).Some? {
      var i := SinkAt(s, k, c).value.0;
      assert s[i] in t && s[i].Matches(k, c);
    }
  }

  /** Any matching sink is the answer once it is listed first. */
  lemma PutFirst(s: seq<EffectSink>, i: nat, k: KindId, c: CategoryId)
    requires i < |s| && s[i].Matches(k, c) && OrderFree(s)
    ensures SinkOf(s, k, c) == Some(s[i])
  {
    var t := [s[i]] + (s[..i] + s[i + 1..]);
    assert s == s[..i] + [s[i]] + s[i + 1..];
    assert multiset(t) == multiset(s);
    SinkIsFirst(t, k, c);
    assert t[0].Matches(k, c);
    assert SinkOf(t, k, c) == Some(t[0]);
  }

  /** A validated table may be listed in any order. */
  lemma CleanTableOrderFree(kinds: set<KindId>, categories: set<CategoryId>, sinks: seq<EffectSink>)
    requires CleanTable(kinds, categories, sinks)
    ensures OrderFree(sinks)
  {
    CleanHasOneSinkEach(kinds, categories, sinks);
    OrderFreeIffOneSinkEach(sinks);
  }

  // ----- the entry rule

  function Lower(ch: char): char {
    if 'A' <= ch <= 'Z' then ch - 'A' + 'a' else ch
  }

  predicate EqIgnoringAsciiCase(a: string, b: string) {
    |a| == |b| && forall i :: 0 <= i < |a| ==> Lower(a[i]) == Lower(b[i])
  }

  /** Two bytes are the same letter in two cases. */
  predicate OtherCase(x: char, y: char) {
    || ('A' <= x <= 'Z' && y as int == x as int + 32)
    || ('A' <= y <= 'Z' && x as int == y as int + 32)
  }

  /** Equal up to the case of the letters from A to Z. */
  lemma CaseMeans(a: string, b: string)
    ensures EqIgnoringAsciiCase(a, b)
       <==> |a| == |b| && forall i :: 0 <= i < |a| ==> a[i] == b[i] || OtherCase(a[i], b[i])
  {
    forall x: char, y: char ensures Lower(x) == Lower(y) <==> x == y || OtherCase(x, y) {
    }
  }

  datatype NamedEntry = NamedEntry(kinds: seq<KindId>, exact: seq<string>, prefixes: seq<string>, exts: seq<string>) {
    predicate Matches(kind: KindId, name: string) {
      kind in kinds && (name in exact || exists i :: 0 <= i < |prefixes| && prefixes[i] <= name)
    }

    predicate AcceptsExt(ext: Option<string>) {
      exts == [] || (ext.Some? && exists i :: 0 <= i < |exts| && EqIgnoringAsciiCase(exts[i], ext.value))
    }
  }

  datatype EntryRule = EntryRule(kinds: seq<KindId>, roles: seq<KindId>, named: seq<NamedEntry>)

  /** The reader of a node's file extension: `calls` counts how often the file was read. */
  class ExtReader {
    const ext: Option<string>
    var calls: nat

    constructor (ext: Option<string>)
      ensures this.ext == ext && calls == 0
    {
      this.ext := ext;
      calls := 0;
    }

    method Read() returns (e: Option<string>)
      modifies this
      ensures e == ext && calls == old(calls) + 1
    {
      calls := calls + 1;
      e := ext;
    }
  }

  predicate HasRole(rule: EntryRule, roles: seq<KindId>) {
    exists i :: 0 <= i < |roles| && roles[i] in rule.roles
  }

  predicate Accepts(row: NamedEntry, kind: KindId, name: string, ext: Option<string>) {
    row.Matches(kind, name) && row.AcceptsExt(ext)
  }

  /** The rule read with the extension already at hand. */
  predicate IsEntry(rule: EntryRule, kind: Option<KindId>, name: string, roles: seq<KindId>, ext: Option<string>) {
    || HasRole(rule, roles)
    || (kind.Some?
        && (kind.value in rule.kinds
            || exists i :: 0 <= i < |rule.named| && Accepts(rule.named[i], kind.value, name, ext)))
  }

  /** A row accepts a node of one of its kinds whose name it lists or begins, and whose file has one
      of its extensions when it lists any. */
  ghost predicate RowTakes(row: NamedEntry, kind: KindId, name: string, ext: Option<string>) {
    && kind in row.kinds
    && (name in row.exact || exists p: string :: p in row.prefixes && p <= name)
    && (row.exts == [] || (ext.Some? && exists e: string :: e in row.exts && EqIgnoringAsciiCase(e, ext.value)))
  }

  /** A node is an entry exactly when it has one of the roles, or is of one of the kinds, or some row
      accepts it. */
  lemma EntryMeans(rule: EntryRule, kind: Option<KindId>, name: string, roles: seq<KindId>, ext: Option<string>)
    ensures IsEntry(rule, kind, name, roles, ext)
       <==> || (exists r: KindId :: r in roles && r in rule.roles)
            || (kind.Some? && kind.value in rule.kinds)
            || (kind.Some? && exists row: NamedEntry :: row in rule.named && RowTakes(row, kind.value, name, ext))
  {
    hide EqIgnoringAsciiCase;
    forall row: NamedEntry, k: KindId ensures Accepts(row, k, name, ext) <==> RowTakes(row, k, name, ext) {
      RowMeans(row, k, name, ext);
    }
    hide Accepts, RowTakes;
    if r: KindId :| r in roles && r in rule.roles {
      var i :| 0 <= i < |roles| && roles[i] == r;
      assert HasRole(rule, roles);
    }
    if kind.Some? {
      if row: NamedEntry :| row in rule.named && RowTakes(row, kind.value, name, ext) {
        var i :| 0 <= i < |rule.named| && rule.named[i] == row;
        assert Accepts(rule.named[i], kind.value, name, ext);
      }
    }
  }

  lemma RowMeans(row: NamedEntry, kind: KindId, name: string, ext: Option<string>)
    ensures Accepts(row, kind, name, ext) <==> RowTakes(row, kind, name, ext)
  {
    hide EqIgnoringAsciiCase;
    if Accepts(row, kind, name, ext) {
      if name !in row.exact {
        var i :| 0 <= i < |row.prefixes| && row.prefixes[i] <= name;
        assert row.prefixes[i] in row.prefixes;
      }
      if row.exts != [] {
        var i :| 0 <= i < |row.exts| && EqIgnoringAsciiCase(row.exts[i], ext.value);
        assert row.exts[i] in row.exts;
      }
    }
    if RowTakes(row, kind, name, ext) {
      if name !in row.exact {
        var p: string :| p in row.prefixes && p <= name;
        var i :| 0 <= i < |row.prefixes| && row.prefixes[i] == p;
      }
      if row.exts != [] {
        var e: string :| e in row.exts && EqIgnoringAsciiCase(e, ext.value);
        var i :| 0 <= i < |row.exts| && row.exts[i] == e;
      }
    }
  }

  /** The first row that matches kind and name is limited to some extensions. */
  ghost predicate FirstMatchIsLimited(named: seq<NamedEntry>, kind: KindId, name: string) {
    exists i :: 0 <= i < |named| && named[i].Matches(kind, name) && named[i].exts != []
             && forall j :: 0 <= j < i ==> !named[j].Matches(kind, name)
  }

  /** Same answer as with the extension at hand; the file is read at most once, and exactly when
      neither role nor kind decides and the first matching row is limited to some extensions. */
  method IsEntryAt(rule: EntryRule, kind: Option<KindId>, name: string, roles: seq<KindId>, reader: ExtReader)
    returns (b: bool)
    modifies reader
    ensures b == IsEntry(rule, kind, name, roles, reader.ext)
    ensures reader.calls == old(reader.calls)
      + (if && !HasRole(rule, roles) && kind.Some? && kind.value !in rule.kinds
            && FirstMatchIsLimited(rule.named, kind.value, name)
         then 1 else 0)
  {
    if HasRole(rule, roles) {
      return true;
    }
    if kind.None? {
      return false;
    }
    if kind.value in rule.kinds {
      return true;
    }
    b := AnyNamed(rule.named, kind.value, name, reader);
  }

  method AnyNamed(named: seq<NamedEntry>, kind: KindId, name: string, reader: ExtReader) returns (b: bool)
    modifies reader
    ensures b <==> exists i :: 0 <= i < |named| && Accepts(named[i], kind, name, reader.ext)
    ensures reader.calls == old(reader.calls) + (if FirstMatchIsLimited(named, kind, name) then 1 else 0)
  {
    hide NamedEntry.Matches;
    var read: Option<Option<string>> := None;
    for i := 0 to |named|
      invariant read.Some? ==> read.value == reader.ext && FirstMatchIsLimited(named, kind, name)
      invariant read.None? ==> forall j :: 0 <= j < i ==> !named[j].Matches(kind, name)
      invariant reader.calls == old(reader.calls) + (if read.Some? then 1 else 0)
      invariant forall j :: 0 <= j < i && named[j].Matches(kind, name) ==> !named[j].AcceptsExt(reader.ext)
    {
      if named[i].Matches(kind, name) {
        if named[i].exts == [] {
          return true;
        }
        if read.None? {
          var e := reader.Read();
          read := Some(e);
        }
        if named[i].AcceptsExt(read.value) {
          return true;
        }
      }
    }
    b := false;
  }
}
