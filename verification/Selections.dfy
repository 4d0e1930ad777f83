/** Lists cut down to some of their entries, in order. */
module Selections {
  ghost predicate Ascends(places: seq<nat>) {
    forall j, k :: 0 <= j < k < |places| ==> places[j] < places[k]
  }

  /** `r` is what `s` holds at the ascending `places`. */
  ghost predicate Selects<T>(s: seq<T>, places: seq<nat>, r: seq<T>) {
    && |r| == |places| && Ascends(places)
    && forall k :: 0 <= k < |places| ==> places[k] < |s| && r[k] == s[places[k]]
  }

  lemma SelectsSnoc<T>(s: seq<T>, places: seq<nat>, r: seq<T>, x: T)
    requires Selects(s, places, r)
    ensures Selects(s + [x], places, r) && Selects(s + [x], places + [|s|], r + [x])
    ensures forall i: nat :: i in places ==> i < |s|
    ensures forall i: nat :: i in places + [|s|] <==> i in places || i == |s|
  {
  }

  /** All of a list. */
  lemma SelectsAll<T>(s: seq<T>) returns (places: seq<nat>)
    ensures Selects(s, places, s)
    ensures forall i: nat :: i in places <==> i < |s|
  {
    places := seq(|s|, i => i);
    forall i: nat | i < |s| ensures i in places {
      assert places[i] == i;
    }
  }

  /** A selection of a selection. */
  lemma SelectsThrough<T>(s: seq<T>, outer: seq<nat>, r: seq<T>, inner: seq<nat>, t: seq<T>) returns (places: seq<nat>)
    requires Selects(s, outer, r) && Selects(r, inner, t)
    ensures Selects(s, places, t)
    ensures forall k :: 0 <= k < |outer| ==> (outer[k] in places <==> k in inner)
    ensures forall i: nat :: i in places ==> i in outer
  {
    places := seq(|inner|, k requires 0 <= k < |inner| => outer[inner[k]]);
    forall k: nat | k < |outer| ensures outer[k] in places <==> k in inner {
      if k in inner {
        var j :| 0 <= j < |inner| && inner[j] == k;
        assert places[j] == outer[k];
      }
      if outer[k] in places {
        var j :| 0 <= j < |places| && places[j] == outer[k];
        assert outer[inner[j]] == outer[k];
      }
    }
  }

  /** As many entries as places. */
  lemma {:induction false} PlacesSize(places: seq<nat>)
    requires Ascends(places)
    ensures |set i: nat | i in places| == |places|
  {
    var all := set i: nat | i in places;
    if places == [] {
    } else {
      var init, last := places[..|places| - 1], places[|places| - 1];
      assert places == init + [last];
      PlacesSize(init);
      assert all == (set i: nat | i in init) + {last};
      assert last !in init;
    }
  }
}
