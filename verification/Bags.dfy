/** Lists as bags. */
module Bags {
  function Without<T>(s: seq<T>, i: nat): (r: seq<T>)
    requires i < |s|
    ensures |r| == |s| - 1
    ensures forall k :: 0 <= k < |r| ==> r[k] == s[if k < i then k else k + 1]
  {
    s[..i] + s[i + 1..]
  }

  lemma WithoutOne<T>(s: seq<T>, i: nat)
    requires i < |s|
    ensures multiset(s) == multiset(Without(s, i)) + multiset{s[i]}
    ensures multiset(Without(s, i)) == multiset(s) - multiset{s[i]}
  {
    assert s == s[..i] + [s[i]] + s[i + 1..];
  }

  /** What a list is without its first entry settles it. */
  lemma FirstAndRest<T>(s: seq<T>, t: seq<T>)
    requires s != [] && t != [] && s[0] == t[0] && Without(s, 0) == Without(t, 0)
    ensures s == t
  {
    assert s == [s[0]] + s[1..] && t == [t[0]] + t[1..];
    assert Without(s, 0) == s[1..] && Without(t, 0) == t[1..];
  }

  lemma SameBagSameSize<T>(s: seq<T>, t: seq<T>)
    requires multiset(s) == multiset(t)
    ensures |s| == |t|
  {
    assert |multiset(s)| == |s| && |multiset(t)| == |t|;
  }

  lemma SameBagSameMembers<T>(s: seq<T>, t: seq<T>)
    requires multiset(s) == multiset(t)
    ensures forall x :: x in s <==> x in t
  {
    assert forall x :: x in s <==> x in multiset(s);
    assert forall x :: x in t <==> x in multiset(t);
  }

  lemma OnceAt<T>(s: seq<T>, i: nat)
    requires i < |s| && forall k :: 0 <= k < |s| && k != i ==> s[k] != s[i]
    ensures multiset(s)[s[i]] == 1
  {
    var x := s[i];
    assert s == s[..i] + [x] + s[i + 1..];
    assert x !in s[..i] && x !in s[i + 1..];
  }

  lemma TwoPlaces<T>(s: seq<T>, i: nat, j: nat)
    requires i < j < |s| && s[i] == s[j]
    ensures multiset(s)[s[i]] >= 2
  {
    WithoutOne(s, j);
    assert Without(s, j)[i] == s[i];
  }

  /** Lists without repeats that have the same members are the same bag. */
  lemma NoRepeatsSameBag<T>(s: seq<T>, t: seq<T>)
    requires forall i, j :: 0 <= i < j < |s| ==> s[i] != s[j]
    requires forall i, j :: 0 <= i < j < |t| ==> t[i] != t[j]
    requires forall x :: x in s <==> x in t
    ensures multiset(s) == multiset(t)
  {
    forall x | x in s ensures multiset(s)[x] == 1 && multiset(t)[x] == 1 {
      var i :| 0 <= i < |s| && s[i] == x;
      var j :| 0 <= j < |t| && t[j] == x;
      OnceAt(s, i);
      OnceAt(t, j);
    }
    forall x | x in multiset(s) ensures multiset(s)[x] <= multiset(t)[x] {
      assert x in s;
    }
    forall x | x in multiset(t) ensures multiset(t)[x] <= multiset(s)[x] {
      assert x in t;
    }
  }

  function Apply<T, U>(f: T -> U, s: seq<T>): (r: seq<U>)
    ensures |r| == |s|
  {
    seq(|s|, i requires 0 <= i < |s| => f(s[i]))
  }

  /** What a function makes of a bag does not depend on how the bag is listed. */
  lemma {:induction false} ApplyPermutes<T, U>(f: T -> U, s: seq<T>, t: seq<T>)
    requires multiset(s) == multiset(t)
    ensures multiset(Apply(f, s)) == multiset(Apply(f, t))
    decreases |s|
  {
    SameBagSameSize(s, t);
    if s != [] {
      assert s[0] in multiset(t);
      var i :| 0 <= i < |t| && t[i] == s[0];
      WithoutOne(s, 0);
      WithoutOne(t, i);
      WithoutOne(Apply(f, s), 0);
      WithoutOne(Apply(f, t), i);
      assert Apply(f, Without(s, 0)) == Without(Apply(f, s), 0);
      assert Apply(f, Without(t, i)) == Without(Apply(f, t), i);
      hide Without, Apply;
      ApplyPermutes(f, Without(s, 0), Without(t, i));
    }
  }

  /** `f` pairs off the members of `a` and `b`. */
  ghost predicate PairsOff<T(!new), U(!new)>(f: T -> U, a: set<T>, b: set<U>) {
    && (forall x :: x in a ==> f(x) in b)
    && (forall x, y :: x in a && y in a && f(x) == f(y) ==> x == y)
    && (forall u :: u in b ==> exists x :: x in a && f(x) == u)
  }

  lemma {:induction false} PairedOffSameSize<T(!new), U(!new)>(f: T -> U, a: set<T>, b: set<U>)
    requires PairsOff(f, a, b)
    ensures |a| == |b|
  {
    if a == {} {
      assert b == {};
    } else {
      var x :| x in a;
      forall u | u in b - {f(x)} ensures exists y :: y in a - {x} && f(y) == u {
        var y :| y in a && f(y) == u;
      }
      PairedOffSameSize(f, a - {x}, b - {f(x)});
      assert |a - {x}| == |a| - 1 && |b - {f(x)}| == |b| - 1;
    }
  }
}
