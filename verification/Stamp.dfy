/** The stamp: FNV-1a over every input's key, a NUL, its length and its bytes, in key order. */
module Stamps {
  import opened Options
  import opened Bytes
  import opened Fnv

  const CR: byte := 13

  /** "Cargo.lock" */
  const LOCK_FILE: Str := [67, 97, 114, 103, 111, 46, 108, 111, 99, 107]

  datatype Entry = Entry(key: Str, bytes: Str)

  // ----- framing

  /** The `k` low bytes of `n`, little end first. */
  function LittleEndian(n: nat, k: nat): (r: Str)
    ensures |r| == k
  {
    if k == 0 then [] else [n % 256] + LittleEndian(n / 256, k - 1)
  }

  function FromLittleEndian(s: Str): nat {
    if s == [] then 0 else s[0] + 256 * FromLittleEndian(s[1..])
  }

  /** A length as the program casts it to 64 bits. */
  function Frame(e: Entry): Str {
    e.key + [0] + LittleEndian(|e.bytes|, 8) + e.bytes
  }

  function Stream(es: seq<Entry>): Str {
    if es == [] then [] else Frame(es[0]) + Stream(es[1..])
  }

  /** What the framing assumes of an entry: no NUL in the key, a length that fits. */
  ghost predicate Framable(e: Entry) {
    (forall i :: 0 <= i < |e.key| ==> e.key[i] != 0) && |e.bytes| < MODULUS
  }

  // ----- reading the frames back

  /** The bytes before the first NUL, if there is one. */
  function BeforeNul(s: Str): Option<Str> {
    if s == [] then None
    else if s[0] == 0 then Some([])
    else match BeforeNul(s[1..])
      case None => None
      case Some(k) => Some([s[0]] + k)
  }

  function ReadFrame(s: Str): Option<(Entry, Str)> {
    match BeforeNul(s)
    case None => None
    case Some(key) =>
      if |s| < |key| + 9 then None
      else
        var n := FromLittleEndian(s[|key| + 1..|key| + 9]);
        if |s| < |key| + 9 + n then None
        else Some((Entry(key, s[|key| + 9..|key| + 9 + n]), s[|key| + 9 + n..]))
  }

  lemma {:induction false} ReadFrameShrinks(s: Str)
    ensures ReadFrame(s).Some? ==> |ReadFrame(s).value.1| < |s|
  {
  }

  function ReadStream(s: Str): Option<seq<Entry>>
    decreases |s|
  {
    if s == [] then Some([])
    else match ReadFrame(s)
      case None => None
      case Some((e, rest)) =>
        ReadFrameShrinks(s);
        match ReadStream(rest)
        case None => None
        case Some(es) => Some([e] + es)
  }

  function Pow256(k: nat): nat {
    if k == 0 then 1 else 256 * Pow256(k - 1)
  }

  lemma {:induction false} LittleEndianReads(n: nat, k: nat)
    requires n < Pow256(k)
    ensures FromLittleEndian(LittleEndian(n, k)) == n
  {
    if k == 0 {
    } else {
      LittleEndianReads(n / 256, k - 1);
      var s := LittleEndian(n, k);
      assert s[1..] == LittleEndian(n / 256, k - 1);
    }
  }

  lemma EightBytesSuffice()
    ensures Pow256(8) == MODULUS
  {
    assert Pow256(2) == 0x1_0000;
    assert Pow256(4) == 0x1_0000_0000;
    assert Pow256(6) == 0x1_0000_0000_0000;
  }

  lemma {:induction false} BeforeNulReads(key: Str, rest: Str)
    requires forall i :: 0 <= i < |key| ==> key[i] != 0
    ensures BeforeNul(key + [0] + rest) == Some(key)
  {
    var s := key + [0] + rest;
    if key == [] {
      assert s[0] == 0;
    } else {
      assert s[1..] == key[1..] + [0] + rest;
      BeforeNulReads(key[1..], rest);
      assert [key[0]] + key[1..] == key;
    }
  }

  lemma ReadFrameReads(e: Entry, rest: Str)
    requires Framable(e)
    ensures ReadFrame(Frame(e) + rest) == Some((e, rest))
  {
    var s := Frame(e) + rest;
    var len := LittleEndian(|e.bytes|, 8);
    assert s == e.key + [0] + (len + e.bytes + rest);
    BeforeNulReads(e.key, len + e.bytes + rest);
    assert s[|e.key| + 1..|e.key| + 9] == len;
    EightBytesSuffice();
    LittleEndianReads(|e.bytes|, 8);
    assert s[|e.key| + 9..|e.key| + 9 + |e.bytes|] == e.bytes;
    assert s[|e.key| + 9 + |e.bytes|..] == rest;
  }

  /** Reading a framed stream gives back exactly the entries framed. */
  lemma {:induction false} ReadStreamReads(es: seq<Entry>)
    requires forall i :: 0 <= i < |es| ==> Framable(es[i])
    ensures ReadStream(Stream(es)) == Some(es)
  {
    if es == [] {
    } else {
      ReadFrameReads(es[0], Stream(es[1..]));
      ReadStreamReads(es[1..]);
      assert es == [es[0]] + es[1..];
    }
  }

  // ----- key order

  /** The entries of a map in ascending key order. */
  ghost predicate IsListing(m: map<Str, Str>, es: seq<Entry>) {
    && (forall i, j :: 0 <= i < j < |es| ==> Less(es[i].key, es[j].key))
    && (forall i :: 0 <= i < |es| ==> es[i].key in m && m[es[i].key] == es[i].bytes)
    && (forall k :: k in m ==> HasKey(es, k))
  }

  ghost predicate HasKey(es: seq<Entry>, k: Str) {
    exists i :: 0 <= i < |es| && es[i].key == k
  }

  lemma {:induction false} ListingUnique(m: map<Str, Str>, a: seq<Entry>, b: seq<Entry>)
    requires IsListing(m, a) && IsListing(m, b)
    ensures a == b
    decreases |a|
  {
    hide Less;
    if a != [] {
      ListingHead(m, a, b);
    }
    if b != [] {
      ListingHead(m, b, a);
      LessLaws(a[0].key, b[0].key, b[0].key);
      ListingTail(m, a);
      ListingTail(m, b);
      ListingUnique(m - {a[0].key}, a[1..], b[1..]);
      assert a == [a[0]] + a[1..] && b == [b[0]] + b[1..];
    }
  }

  lemma ListingHead(m: map<Str, Str>, a: seq<Entry>, b: seq<Entry>)
    requires IsListing(m, a) && IsListing(m, b) && a != []
    ensures b != [] && !Less(a[0].key, b[0].key)
    ensures a[0].bytes == m[a[0].key]
  {
    hide Less;
    assert HasKey(b, a[0].key);
    var i :| 0 <= i < |b| && b[i].key == a[0].key;
    LessLaws(b[0].key, a[0].key, a[0].key);
  }

  lemma ListingTail(m: map<Str, Str>, a: seq<Entry>)
    requires IsListing(m, a) && a != []
    ensures IsListing(m - {a[0].key}, a[1..])
  {
    hide Less;
    var m' := m - {a[0].key};
    forall i | 0 <= i < |a[1..]| ensures a[1..][i].key in m' && m'[a[1..][i].key] == a[1..][i].bytes {
      LessLaws(a[0].key, a[i + 1].key, a[0].key);
    }
    forall k | k in m' ensures HasKey(a[1..], k) {
      assert HasKey(a, k);
      var i :| 0 <= i < |a| && a[i].key == k;
      assert a[1..][i - 1].key == k;
    }
  }

  /** Reading a map's stream gives back the map: no two maps share a stream. */
  lemma FramingIsInjective(m: map<Str, Str>, a: seq<Entry>, m': map<Str, Str>, b: seq<Entry>)
    requires IsListing(m, a) && IsListing(m', b)
    requires forall k :: k in m ==> Framable(Entry(k, m[k]))
    requires forall k :: k in m' ==> Framable(Entry(k, m'[k]))
    ensures Stream(a) == Stream(b) <==> m == m'
  {
    hide Less;
    forall i | 0 <= i < |a| ensures Framable(a[i]) {
      assert a[i] == Entry(a[i].key, m[a[i].key]);
    }
    forall i | 0 <= i < |b| ensures Framable(b[i]) {
      assert b[i] == Entry(b[i].key, m'[b[i].key]);
    }
    ReadStreamReads(a);
    ReadStreamReads(b);
    if m == m' {
      ListingUnique(m, a, b);
    }
    if Stream(a) == Stream(b) {
      assert a == b;
      OneListingOneMap(m, m', a);
    }
  }

  lemma OneListingOneMap(m: map<Str, Str>, m': map<Str, Str>, a: seq<Entry>)
    requires IsListing(m, a) && IsListing(m', a)
    ensures m == m'
  {
    forall k | k in m ensures k in m' && m'[k] == m[k] {
      assert HasKey(a, k);
    }
    forall k | k in m' ensures k in m {
      assert HasKey(a, k);
    }
  }

  // ----- the stamp

  datatype Inputs = Inputs(files: map<Str, Str>, lock: Option<Str>)

  function StripCr(s: Str): Str {
    if s == [] then [] else StripCr(s[..|s| - 1]) + (if s[|s| - 1] == CR then [] else [s[|s| - 1]])
  }

  function Stripped(files: map<Str, Str>): map<Str, Str> {
    map k | k in files :: StripCr(files[k])
  }

  lemma StrippedUpdate(files: map<Str, Str>, k: Str, bytes: Str)
    requires k in files
    ensures Stripped(files[k := bytes]) == Stripped(files)[k := StripCr(bytes)]
  {
    hide StripCr;
  }

  /** What is hashed: every file without its CRs, and the closure text under the lock's key. */
  function Hashed(inputs: Inputs): map<Str, Str> {
    var files := Stripped(inputs.files);
    match inputs.lock
    case None => files
    case Some(closure) => files[LOCK_FILE := closure]
  }

  /** Ordered insertion, as a sorted map keeps its keys. */
  method ListMap(m: map<Str, Str>) returns (es: seq<Entry>)
    ensures IsListing(m, es)
  {
    hide Less;
    var left := m.Keys;
    es := [];
    while left != {}
      invariant left <= m.Keys
      invariant forall i, j :: 0 <= i < j < |es| ==> Less(es[i].key, es[j].key)
      invariant forall i :: 0 <= i < |es| ==> es[i].key in m && es[i].key !in left && m[es[i].key] == es[i].bytes
      invariant forall k :: k in m && k !in left ==> HasKey(es, k)
      decreases left
    {
      var k :| k in left;
      ghost var before := es;
      es := InsertEntry(es, Entry(k, m[k]));
      left := left - {k};
      forall d | d in m && d !in left ensures HasKey(es, d) {
        assert d == k || HasKey(before, d);
      }
    }
  }

  method InsertEntry(es: seq<Entry>, e: Entry) returns (r: seq<Entry>)
    requires forall i, j :: 0 <= i < j < |es| ==> Less(es[i].key, es[j].key)
    requires forall i :: 0 <= i < |es| ==> es[i].key != e.key
    ensures forall i, j :: 0 <= i < j < |r| ==> Less(r[i].key, r[j].key)
    ensures forall i :: 0 <= i < |r| ==> r[i] == e || r[i] in es
    ensures HasKey(r, e.key) && forall k :: HasKey(es, k) ==> HasKey(r, k)
  {
    hide Less;
    var at := 0;
    while at < |es| && Less(es[at].key, e.key)
      invariant 0 <= at <= |es|
      invariant forall i :: 0 <= i < at ==> Less(es[i].key, e.key)
    {
      at := at + 1;
    }
    forall i | at <= i < |es| ensures Less(e.key, es[i].key) {
      LessLaws(es[at].key, e.key, e.key);
      LessLaws(e.key, es[at].key, es[i].key);
    }
    r := es[..at] + [e] + es[at..];
    assert forall i :: 0 <= i < |r| ==> r[i] == if i < at then es[i] else if i == at then e else es[i - 1];
    assert r[at].key == e.key;
    forall k | HasKey(es, k) ensures HasKey(r, k) {
      var i :| 0 <= i < |es| && es[i].key == k;
      assert r[if i < at then i else i + 1].key == k;
    }
  }

  /** The hash of the whole stream, every hashed entry framed in key order. */
  ghost predicate HasStamp(inputs: Inputs, state: u64) {
    exists es :: IsListing(Hashed(inputs), es) && state == Fold(OFFSET, Stream(es))
  }

  /** The pieces of every entry are fed one by one; the result is the hash of the whole stream. */
  method Stamp(inputs: Inputs) returns (state: u64)
    ensures HasStamp(inputs, state)
  {
    var es := ListMap(Hashed(inputs));
    state := OFFSET;
    for i := 0 to |es|
      invariant Fold(OFFSET, Stream(es)) == Fold(state, Stream(es[i..]))
    {
      var e := es[i];
      ghost var before := state;
      state := Fnv1a(state, e.key);
      state := Fnv1a(state, [0]);
      state := Fnv1a(state, LittleEndian(|e.bytes|, 8));
      state := Fnv1a(state, e.bytes);
      FedInPieces(before, e, Stream(es[i + 1..]));
      assert es[i..][1..] == es[i + 1..];
    }
    assert es[|es|..] == [];
  }

  lemma FedInPieces(s: u64, e: Entry, rest: Str)
    ensures Fold(s, Frame(e) + rest)
         == Fold(Fold(Fold(Fold(Fold(s, e.key), [0]), LittleEndian(|e.bytes|, 8)), e.bytes), rest)
  {
    var len := LittleEndian(|e.bytes|, 8);
    FoldConcat(s, Frame(e), rest);
    FoldConcat(s, e.key + [0] + len, e.bytes);
    FoldConcat(s, e.key + [0], len);
    FoldConcat(s, e.key, [0]);
  }

  lemma StampUnique(inputs: Inputs, s: u64, t: u64)
    requires HasStamp(inputs, s) && HasStamp(inputs, t)
    ensures s == t
  {
    var a :| IsListing(Hashed(inputs), a) && s == Fold(OFFSET, Stream(a));
    var b :| IsListing(Hashed(inputs), b) && t == Fold(OFFSET, Stream(b));
    ListingUnique(Hashed(inputs), a, b);
  }

  // ----- what moves it

  lemma {:induction false} StripCrConcat(a: Str, b: Str)
    ensures StripCr(a + b) == StripCr(a) + StripCr(b)
  {
    if b == [] {
      assert a + b == a;
    } else {
      StripCrConcat(a, b[..|b| - 1]);
      assert (a + b)[..|a + b| - 1] == a + b[..|b| - 1];
    }
  }

  lemma StripCrAround(before: Str, x: byte, after: Str)
    requires x != CR
    ensures StripCr(before + [x] + after) == StripCr(before) + [x] + StripCr(after)
  {
    StripCrConcat(before + [x], after);
    StripCrConcat(before, [x]);
    assert [x][..0] == [];
  }

  /** Replacing the bytes of one entry by as many others changes the stream there only. */
  lemma {:induction false} StreamAround(es: seq<Entry>, i: nat, bytes: Str) returns (before: Str, after: Str)
    requires i < |es| && |bytes| == |es[i].bytes|
    ensures Stream(es) == before + es[i].bytes + after
    ensures Stream(es[i := Entry(es[i].key, bytes)]) == before + bytes + after
  {
    hide LittleEndian;
    var es' := es[i := Entry(es[i].key, bytes)];
    if i == 0 {
      before, after := es[0].key + [0] + LittleEndian(|bytes|, 8), Stream(es[1..]);
      assert es'[1..] == es[1..];
    } else {
      var b;
      b, after := StreamAround(es[1..], i - 1, bytes);
      assert es'[1..] == es[1..][i - 1 := Entry(es[i].key, bytes)];
      before := Frame(es[0]) + b;
      Regroup(Frame(es[0]), b, es[i].bytes, after);
      Regroup(Frame(es[0]), b, bytes, after);
    }
  }

  lemma Regroup(a: Str, b: Str, c: Str, d: Str)
    ensures a + (b + c + d) == (a + b) + c + d
  {
  }

  lemma ListingUpdate(m: map<Str, Str>, es: seq<Entry>, i: nat, bytes: Str)
    requires IsListing(m, es) && i < |es|
    ensures IsListing(m[es[i].key := bytes], es[i := Entry(es[i].key, bytes)])
  {
    hide Less;
    var m', es' := m[es[i].key := bytes], es[i := Entry(es[i].key, bytes)];
    forall j | 0 <= j < |es| && j != i ensures es[j].key != es[i].key {
      LessLaws(es[i].key, es[j].key, es[i].key);
    }
    forall k | k in m' ensures HasKey(es', k) {
      assert HasKey(es, k);
      var j :| 0 <= j < |es| && es[j].key == k;
      assert es'[j].key == k;
    }
  }

  /** Two input sets that differ in one byte of one hashed file, neither byte a CR, never have
      the same stamp. */
  lemma OneByteMovesTheStamp(inputs: Inputs, k: Str, before: Str, x: byte, y: byte, after: Str, s: u64, t: u64)
    requires x != y && x != CR && y != CR
    requires k in inputs.files && inputs.files[k] == before + [x] + after
    requires inputs.lock.Some? ==> k != LOCK_FILE
    requires HasStamp(inputs, s)
    requires HasStamp(inputs.(files := inputs.files[k := before + [y] + after]), t)
    ensures s != t
  {
    var changed := inputs.(files := inputs.files[k := before + [y] + after]);
    HashedAround(inputs, k, before, x, y, after);
    hide Hashed, StripCr, Less, Stream, Fold;
    var es :| IsListing(Hashed(inputs), es) && s == Fold(OFFSET, Stream(es));
    var es' :| IsListing(Hashed(changed), es') && t == Fold(OFFSET, Stream(es'));
    OneByteInListing(Hashed(inputs), k, StripCr(before), x, y, StripCr(after), es, es');
  }

  lemma HashedAround(inputs: Inputs, k: Str, before: Str, x: byte, y: byte, after: Str)
    requires x != CR && y != CR && k in inputs.files && inputs.files[k] == before + [x] + after
    requires inputs.lock.Some? ==> k != LOCK_FILE
    ensures k in Hashed(inputs) && Hashed(inputs)[k] == StripCr(before) + [x] + StripCr(after)
    ensures Hashed(inputs.(files := inputs.files[k := before + [y] + after]))
         == Hashed(inputs)[k := StripCr(before) + [y] + StripCr(after)]
  {
    StripCrAround(before, x, after);
    StripCrAround(before, y, after);
    StrippedUpdate(inputs.files, k, before + [y] + after);
    assert Stripped(inputs.files)[k] == StripCr(before) + [x] + StripCr(after);
    hide StripCr, Stripped;
    if inputs.lock.Some? {
      var m: map<Str, Str> := Stripped(inputs.files);
      var v, w := StripCr(before) + [y] + StripCr(after), inputs.lock.value;
      assert m[k := v][LOCK_FILE := w] == m[LOCK_FILE := w][k := v];
    }
  }

  lemma OneByteInListing(m: map<Str, Str>, k: Str, b: Str, x: byte, y: byte, a: Str, es: seq<Entry>, es': seq<Entry>)
    requires x != y && k in m && m[k] == b + [x] + a
    requires IsListing(m, es) && IsListing(m[k := b + [y] + a], es')
    ensures Fold(OFFSET, Stream(es)) != Fold(OFFSET, Stream(es'))
  {
    hide Less, Stream, Fold;
    assert HasKey(es, k);
    var i :| 0 <= i < |es| && es[i].key == k;
    ListingUpdate(m, es, i, b + [y] + a);
    ListingUnique(m[k := b + [y] + a], es', es[i := Entry(k, b + [y] + a)]);
    OneByteInStream(es, i, b, x, y, a);
  }

  lemma OneByteInStream(es: seq<Entry>, i: nat, b: Str, x: byte, y: byte, a: Str)
    requires i < |es| && es[i].bytes == b + [x] + a && x != y
    ensures Fold(OFFSET, Stream(es)) != Fold(OFFSET, Stream(es[i := Entry(es[i].key, b + [y] + a)]))
  {
    hide Stream, Fold;
    var pre, post := StreamAround(es, i, b + [y] + a);
    assert pre + (b + [x] + a) + post == (pre + b) + [x] + (a + post);
    assert pre + (b + [y] + a) + post == (pre + b) + [y] + (a + post);
    OneByteMatters(OFFSET, pre + b, x, y, a + post);
  }

  /** Inserting a CR anywhere in a file keeps the stamp. */
  lemma CrNeverMovesTheStamp(inputs: Inputs, k: Str, before: Str, after: Str, s: u64, t: u64)
    requires k in inputs.files && inputs.files[k] == before + after
    requires HasStamp(inputs, s)
    requires HasStamp(inputs.(files := inputs.files[k := before + [CR] + after]), t)
    ensures s == t
  {
    var changed := inputs.(files := inputs.files[k := before + [CR] + after]);
    CrStripped(before, after);
    StrippedUpdate(inputs.files, k, before + [CR] + after);
    hide StripCr, HasStamp;
    assert Stripped(inputs.files)[k] == StripCr(before + after);
    assert Stripped(changed.files) == Stripped(inputs.files);
    assert Hashed(changed) == Hashed(inputs);
    SameHashedSameStamp(inputs, changed, s, t);
  }

  lemma CrStripped(before: Str, after: Str)
    ensures StripCr(before + [CR] + after) == StripCr(before + after)
  {
    StripCrConcat(before, [CR]);
    StripCrConcat(before + [CR], after);
    StripCrConcat(before, after);
    assert [CR][..0] == [] && StripCr([CR]) == [];
  }

  lemma SameHashedSameStamp(inputs: Inputs, inputs': Inputs, s: u64, t: u64)
    requires Hashed(inputs) == Hashed(inputs') && HasStamp(inputs, s) && HasStamp(inputs', t)
    ensures s == t
  {
    hide Hashed, Stream, Fold, IsListing;
    assert HasStamp(inputs, t);
    StampUnique(inputs, s, t);
  }
}
