/** What a stamp is a hash of: the lock closure byte for byte beside the files without their CRs. */
module StampInputs {
  import opened Options
  import opened Bytes
  import opened Fnv
  import opened Stamps
  import opened Selections

  // ----- the pieces

  lemma LockFileIsSpelled()
    ensures |LOCK_FILE| == |"Cargo.lock"| && forall i :: 0 <= i < |LOCK_FILE| ==> LOCK_FILE[i] == "Cargo.lock"[i] as int
  {
  }

  /** A file is hashed as its bytes other than 13, in order. */
  lemma {:induction false} StripCrSelects(s: Str) returns (places: seq<nat>)
    ensures Selects(s, places, StripCr(s))
    ensures forall i: nat :: i in places <==> i < |s| && s[i] != 13
  {
    if s == [] {
      places := [];
    } else {
      var init, last := s[..|s| - 1], s[|s| - 1];
      assert s == init + [last];
      places := StripCrSelects(init);
      SelectsSnoc(init, places, StripCr(init), last);
      if last != CR {
        places := places + [|init|];
      }
    }
  }

  lemma StripCrFits(s: Str)
    ensures |StripCr(s)| <= |s|
  {
    if s != [] {
      StripCrFits(s[..|s| - 1]);
    }
  }

  /** Byte `i` of a length counts `256^i`. */
  lemma {:induction false} LittleEndianAt(n: nat, k: nat, i: nat)
    requires i < k
    ensures Pow256(i) > 0 && LittleEndian(n, k)[i] == n / Pow256(i) % 256
  {
    if i > 0 {
      LittleEndianAt(n / 256, k - 1, i - 1);
      DivDiv(n, Pow256(i - 1));
    }
  }

  lemma DivDiv(n: nat, p: nat)
    requires p > 0
    ensures n / 256 / p == n / (256 * p)
  {
    var m, q := n / 256, n / 256 / p;
    assert q * p <= m < q * p + p;
    assert 256 * m <= n < 256 * m + 256;
    assert q * (256 * p) == 256 * (q * p);
    assert q * (256 * p) <= n < q * (256 * p) + 256 * p;
    DivUnique(n, 256 * p, q);
  }

  lemma DivUnique(a: nat, d: nat, q: nat)
    requires d > 0 && q * d <= a < q * d + d
    ensures a / d == q
  {
    var r := a / d;
    assert r * d <= a < r * d + d;
    assert r < q ==> (r + 1) * d <= q * d;
    assert q < r ==> (q + 1) * d <= r * d;
  }

  /** One entry's frame, spelled out: "a" holding "b". */
  lemma FrameOfOne()
    ensures Frame(Entry([97], [98])) == [97, 0, 1, 0, 0, 0, 0, 0, 0, 0, 98]
  {
    assert LittleEndian(1, 8) == [1] + LittleEndian(0, 7);
    ZeroBytes(7);
  }

  lemma {:induction false} ZeroBytes(k: nat)
    ensures LittleEndian(0, k) == seq(k, _ => 0)
  {
    if k > 0 {
      ZeroBytes(k - 1);
    }
  }

  // ----- what the hashed stream holds

  /** `es` are what goes into the hash: under the lock's key the closure as it is, and under every
      other key a file's bytes without their CRs. */
  ghost predicate Holds(inputs: Inputs, es: seq<Entry>) {
    && (forall i, j :: 0 <= i < j < |es| ==> Less(es[i].key, es[j].key))
    && forall k: Str, b: Str {:trigger Entry(k, b)} :: Entry(k, b) in es <==>
        if inputs.lock.Some? && k == LOCK_FILE then b == inputs.lock.value
        else k in inputs.files && b == StripCr(inputs.files[k])
  }

  /** No key holds a NUL and every length fits in 64 bits. */
  ghost predicate Fits(inputs: Inputs) {
    && (forall k :: k in inputs.files ==> 0 !in k && |inputs.files[k]| < 0x1_0000_0000_0000_0000)
    && (inputs.lock.Some? ==> |inputs.lock.value| < 0x1_0000_0000_0000_0000)
  }

  lemma ListingHolds(inputs: Inputs, es: seq<Entry>)
    requires IsListing(Hashed(inputs), es)
    ensures Holds(inputs, es)
  {
    hide Less, StripCr, HasKey;
    forall k: Str, b: Str
      ensures Entry(k, b) in es <==>
        if inputs.lock.Some? && k == LOCK_FILE then b == inputs.lock.value
        else k in inputs.files && b == StripCr(inputs.files[k])
    {
      EntryListed(Hashed(inputs), es, k, b);
      HashedAt(inputs, k);
    }
  }

  lemma EntryListed(m: map<Str, Str>, es: seq<Entry>, k: Str, b: Str)
    requires IsListing(m, es)
    ensures Entry(k, b) in es <==> k in m && m[k] == b
  {
    hide Less;
    if k in m && m[k] == b {
      assert HasKey(es, k);
      var i :| 0 <= i < |es| && es[i].key == k;
      assert es[i] == Entry(k, b);
    }
  }

  lemma HashedAt(inputs: Inputs, k: Str)
    ensures k in Hashed(inputs) <==> k in inputs.files || (inputs.lock.Some? && k == LOCK_FILE)
    ensures k in Hashed(inputs) ==>
      Hashed(inputs)[k] == if inputs.lock.Some? && k == LOCK_FILE then inputs.lock.value else StripCr(inputs.files[k])
  {
    hide StripCr;
  }

  lemma EntriesFramable(inputs: Inputs, es: seq<Entry>)
    requires Holds(inputs, es) && Fits(inputs)
    ensures forall i :: 0 <= i < |es| ==> Framable(es[i])
  {
    hide Less, StripCr;
    forall i | 0 <= i < |es| ensures Framable(es[i]) {
      var k, b := es[i].key, es[i].bytes;
      assert Entry(k, b) in es;
      if inputs.lock.Some? && k == LOCK_FILE {
        LockFileIsSpelled();
      } else {
        StripCrFits(inputs.files[k]);
      }
    }
  }

  /** A stamp is the hash, from the standard offset, of a stream that reads back as exactly the
      inputs: one entry for each file and one for the lock closure, in key order. */
  lemma StampReads(inputs: Inputs, s: u64) returns (stream: Str, es: seq<Entry>)
    requires HasStamp(inputs, s) && Fits(inputs)
    ensures s == Fold(0xcbf2_9ce4_8422_2325, stream)
    ensures ReadStream(stream) == Some(es) && Holds(inputs, es)
  {
    es :| IsListing(Hashed(inputs), es) && s == Fold(OFFSET, Stream(es));
    stream := Stream(es);
    hide Less, Hashed, Stream, Fold, ReadStream, Holds, Fits;
    ListingHolds(inputs, es);
    EntriesFramable(inputs, es);
    ReadStreamReads(es);
  }

  /** Two input sets with one such stream are the same but for CRs in files, and for a file the
      closure stands in for. */
  lemma StreamsTellInputsApart(a: Inputs, b: Inputs, es: seq<Entry>)
    requires Holds(a, es) && Holds(b, es)
    ensures forall k :: k in a.files && (a.lock.Some? || b.lock.Some? ==> k != LOCK_FILE) ==>
      k in b.files && StripCr(a.files[k]) == StripCr(b.files[k])
    ensures a.lock.Some? && b.lock.Some? ==> a.lock == b.lock
    ensures a.lock.Some? && b.lock.None? ==> LOCK_FILE in b.files && StripCr(b.files[LOCK_FILE]) == a.lock.value
  {
    hide Less, StripCr;
    forall k | k in a.files && (a.lock.Some? || b.lock.Some? ==> k != LOCK_FILE)
      ensures k in b.files && StripCr(a.files[k]) == StripCr(b.files[k])
    {
      assert Entry(k, StripCr(a.files[k])) in es;
    }
    if a.lock.Some? {
      assert Entry(LOCK_FILE, a.lock.value) in es;
    }
  }

  // ----- the closure moves the stamp

  /** Two closures that differ in one byte, whatever the byte, never have the same stamp. */
  lemma OneByteOfTheLockMovesTheStamp(files: map<Str, Str>, before: Str, x: byte, y: byte, after: Str, s: u64, t: u64)
    requires x != y
    requires HasStamp(Inputs(files, Some(before + [x] + after)), s)
    requires HasStamp(Inputs(files, Some(before + [y] + after)), t)
    ensures s != t
  {
    var a, b := Inputs(files, Some(before + [x] + after)), Inputs(files, Some(before + [y] + after));
    LockHashed(files, before + [x] + after, before + [y] + after);
    hide Hashed, Less, Stream, Fold;
    var es :| IsListing(Hashed(a), es) && s == Fold(OFFSET, Stream(es));
    var es' :| IsListing(Hashed(b), es') && t == Fold(OFFSET, Stream(es'));
    OneByteInListing(Hashed(a), LOCK_FILE, before, x, y, after, es, es');
  }

  lemma LockHashed(files: map<Str, Str>, v: Str, w: Str)
    ensures LOCK_FILE in Hashed(Inputs(files, Some(v))) && Hashed(Inputs(files, Some(v)))[LOCK_FILE] == v
    ensures Hashed(Inputs(files, Some(w))) == Hashed(Inputs(files, Some(v)))[LOCK_FILE := w]
  {
    hide StripCr;
  }
}
