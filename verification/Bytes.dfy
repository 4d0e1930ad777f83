/** Strings as the program compares them: byte by byte. */
module Bytes {
  import opened Sorting

  type byte = b: nat | b < 256

  type Str = seq<byte>

  predicate Less(a: Str, b: Str) {
    b != [] && (a == [] || a[0] < b[0] || (a[0] == b[0] && Less(a[1..], b[1..])))
  }

  lemma {:induction false} LessLaws(a: Str, b: Str, c: Str)
    ensures !Less(a, a)
    ensures a == b || Less(a, b) || Less(b, a)
    ensures !(Less(a, b) && Less(b, a))
    ensures Less(a, b) && Less(b, c) ==> Less(a, c)
    ensures !Less(b, a) && !Less(c, b) ==> !Less(c, a)
    decreases |a| + |b| + |c|
  {
    if a != [] && b != [] && c != [] {
      LessLaws(a[1..], b[1..], c[1..]);
      assert a == [a[0]] + a[1..] && b == [b[0]] + b[1..] && c == [c[0]] + c[1..];
    } else if a != [] && b != [] {
      LessLaws(a[1..], b[1..], []);
      assert a == [a[0]] + a[1..] && b == [b[0]] + b[1..];
    } else if a != [] {
      LessLaws(a[1..], [], []);
    }
  }

  /** Where two texts first differ. */
  ghost predicate DifferFirstAt(a: Str, b: Str, k: nat) {
    k < |a| && k < |b| && a[k] != b[k] && forall j :: 0 <= j < k ==> a[j] == b[j]
  }

  lemma DifferLater(a: Str, b: Str, k: nat)
    requires a != [] && b != [] && a[0] == b[0]
    ensures DifferFirstAt(a, b, k + 1) <==> DifferFirstAt(a[1..], b[1..], k)
  {
    if DifferFirstAt(a, b, k + 1) {
      forall j | 0 <= j < k ensures a[1..][j] == b[1..][j] {
        assert a[j + 1] == b[j + 1];
      }
    }
  }

  /** A text goes before the ones it begins, and else as the first bytes that differ say. */
  lemma {:induction false} LessMeans(a: Str, b: Str)
    ensures Less(a, b) <==> a < b || exists k: nat :: DifferFirstAt(a, b, k) && a[k] < b[k]
  {
    if a == [] || b == [] {
    } else if a[0] != b[0] {
      assert DifferFirstAt(a, b, 0);
      assert forall k: nat :: k > 0 ==> !DifferFirstAt(a, b, k);
    } else {
      LessMeans(a[1..], b[1..]);
      assert a == [a[0]] + a[1..] && b == [b[0]] + b[1..];
      assert !DifferFirstAt(a, b, 0);
      forall k: nat ensures DifferFirstAt(a, b, k + 1) <==> DifferFirstAt(a[1..], b[1..], k) {
        DifferLater(a, b, k);
      }
      hide DifferFirstAt;
      if k: nat :| DifferFirstAt(a, b, k) && a[k] < b[k] {
        assert DifferFirstAt(a[1..], b[1..], k - 1);
      }
      if k: nat :| DifferFirstAt(a[1..], b[1..], k) && a[1..][k] < b[1..][k] {
        assert DifferFirstAt(a, b, k + 1);
      }
    }
  }

  // ----- sorting

  lemma LessIsOrder()
    ensures IsOrder(Less) && NoTies(Less)
  {
    forall a, b ensures Less(a, b) ==> !Less(b, a) {
      LessLaws(a, b, b);
    }
    forall a, b, c | !Less(b, a) && !Less(c, b) ensures !Less(c, a) {
      LessLaws(a, b, c);
    }
    forall a, b ensures Less(a, b) || Less(b, a) || a == b {
      LessLaws(a, b, b);
    }
  }

  function SortTexts(s: seq<Str>): (r: seq<Str>)
    ensures |r| == |s|
  {
    Sort(Less, s)
  }

  /** One bag, one sorted list. */
  lemma SortedTextsPermute(s: seq<Str>, t: seq<Str>)
    requires multiset(s) == multiset(t)
    ensures SortTexts(s) == SortTexts(t)
  {
    LessIsOrder();
    SortPermutes(Less, s, t);
  }
}
