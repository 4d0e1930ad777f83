/** Stable sorting by a strict order, whatever the order. */
module Sorting {
  import opened Bags

  /** Insertion behind everything `x` does not go before. */
  function Insert<T>(before: (T, T) -> bool, s: seq<T>, x: T): (r: seq<T>)
    ensures |r| == |s| + 1
  {
    if s == [] then [x]
    else if before(x, s[|s| - 1]) then Insert(before, s[..|s| - 1], x) + [s[|s| - 1]]
    else s + [x]
  }

  function Sort<T>(before: (T, T) -> bool, s: seq<T>): (r: seq<T>)
    ensures |r| == |s|
  {
    if s == [] then [] else Insert(before, Sort(before, s[..|s| - 1]), s[|s| - 1])
  }

  /** Nothing goes before an entry listed earlier. */
  ghost predicate Sorted<T>(before: (T, T) -> bool, s: seq<T>) {
    forall i, j :: 0 <= i < j < |s| ==> !before(s[j], s[i])
  }

  /** A strict order whose ties are an equivalence. */
  ghost predicate IsOrder<T(!new)>(before: (T, T) -> bool) {
    && (forall a, b :: before(a, b) ==> !before(b, a))
    && (forall a, b, c :: !before(b, a) && !before(c, b) ==> !before(c, a))
  }

  ghost predicate NoTies<T(!new)>(before: (T, T) -> bool) {
    forall a, b :: before(a, b) || before(b, a) || a == b
  }

  lemma OrderLaws<T(!new)>(before: (T, T) -> bool, a: T, b: T, c: T)
    requires IsOrder(before)
    ensures before(a, b) ==> !before(b, a)
    ensures !before(b, a) && !before(c, b) ==> !before(c, a)
  {
  }

  lemma SortedSnoc<T>(before: (T, T) -> bool, s: seq<T>, x: T)
    requires Sorted(before, s) && forall i :: 0 <= i < |s| ==> !before(x, s[i])
    ensures Sorted(before, s + [x])
  {
  }

  lemma {:induction false} InsertSorts<T(!new)>(before: (T, T) -> bool, s: seq<T>, x: T)
    requires IsOrder(before) && Sorted(before, s)
    ensures Sorted(before, Insert(before, s, x))
    ensures multiset(Insert(before, s, x)) == multiset(s) + multiset{x}
  {
    if s == [] {
    } else {
      var init, last := s[..|s| - 1], s[|s| - 1];
      assert s == init + [last];
      hide IsOrder;
      if before(x, last) {
        InsertSorts(before, init, x);
        var t := Insert(before, init, x);
        forall i | 0 <= i < |t| ensures !before(last, t[i]) {
          assert t[i] in multiset(t);
          OrderLaws(before, x, last, last);
        }
        SortedSnoc(before, t, last);
      } else {
        forall i | 0 <= i < |s| ensures !before(x, s[i]) {
          OrderLaws(before, s[i], last, x);
        }
        SortedSnoc(before, s, x);
      }
    }
  }

  lemma {:induction false} SortSorts<T(!new)>(before: (T, T) -> bool, s: seq<T>)
    requires IsOrder(before)
    ensures Sorted(before, Sort(before, s)) && multiset(Sort(before, s)) == multiset(s)
  {
    if s == [] {
    } else {
      var init, last := s[..|s| - 1], s[|s| - 1];
      assert s == init + [last];
      SortSorts(before, init);
      InsertSorts(before, Sort(before, init), last);
    }
  }

  lemma SortMembers<T(!new)>(before: (T, T) -> bool, s: seq<T>)
    requires IsOrder(before)
    ensures forall x :: x in Sort(before, s) <==> x in s
  {
    SortSorts(before, s);
    SameBagSameMembers(Sort(before, s), s);
  }

  /** Without ties, one bag has one sorted list. */
  lemma {:induction false} SortedUnique<T(!new)>(before: (T, T) -> bool, s: seq<T>, t: seq<T>)
    requires IsOrder(before) && NoTies(before)
    requires Sorted(before, s) && Sorted(before, t) && multiset(s) == multiset(t)
    ensures s == t
    decreases |s|
  {
    SameBagSameSize(s, t);
    if s != [] {
      FirstIsSame(before, s, t);
      WithoutOne(s, 0);
      WithoutOne(t, 0);
      RestSorted(before, s);
      RestSorted(before, t);
      hide *;
      SortedUnique(before, Without(s, 0), Without(t, 0));
      FirstAndRest(s, t);
    }
  }

  lemma RestSorted<T>(before: (T, T) -> bool, s: seq<T>)
    requires Sorted(before, s) && s != []
    ensures Sorted(before, Without(s, 0))
  {
  }

  lemma FirstIsSame<T(!new)>(before: (T, T) -> bool, s: seq<T>, t: seq<T>)
    requires NoTies(before) && s != [] && t != []
    requires Sorted(before, s) && Sorted(before, t) && multiset(s) == multiset(t)
    ensures s[0] == t[0]
  {
    SameBagSameMembers(s, t);
    assert s[0] in t && t[0] in s;
    assert before(s[0], t[0]) || before(t[0], s[0]) || s[0] == t[0];
  }

  /** Without ties, the order a list comes in does not matter. */
  lemma SortPermutes<T(!new)>(before: (T, T) -> bool, s: seq<T>, t: seq<T>)
    requires IsOrder(before) && NoTies(before) && multiset(s) == multiset(t)
    ensures Sort(before, s) == Sort(before, t)
  {
    SortSorts(before, s);
    SortSorts(before, t);
    SortedUnique(before, Sort(before, s), Sort(before, t));
  }
}
