/** Byte strings and the lexicographic order that Python gives them. */
module ByteStrings {
  type Byte = b: int | 0 <= b < 256
  type Bytes = seq<Byte>

  /** Python's `a < b` on byte strings. */
  predicate Less(a: Bytes, b: Bytes) {
    if b == [] then false
    else if a == [] then true
    else a[0] < b[0] || (a[0] == b[0] && Less(a[1..], b[1..]))
  }

  lemma {:induction false} LessIsTotal(a: Bytes, b: Bytes)
    ensures a == b || Less(a, b) || Less(b, a)
  {
    if a != [] && b != [] && a[0] == b[0] {
      LessIsTotal(a[1..], b[1..]);
      assert a == [a[0]] + a[1..] && b == [b[0]] + b[1..];
    }
  }

  lemma {:induction false} LessIsAsymmetric(a: Bytes, b: Bytes)
    requires Less(a, b)
    ensures a != b && !Less(b, a)
  {
    if a != [] && a[0] == b[0] {
      LessIsAsymmetric(a[1..], b[1..]);
    }
  }

  lemma {:induction false} LessIsIrreflexive(a: Bytes)
    ensures !Less(a, a)
  {
    if a != [] { LessIsIrreflexive(a[1..]); }
  }

  lemma {:induction false} LessIsTransitive(a: Bytes, b: Bytes, c: Bytes)
    requires Less(a, b) && Less(b, c)
    ensures Less(a, c)
  {
    if a != [] && a[0] == b[0] == c[0] {
      LessIsTransitive(a[1..], b[1..], c[1..]);
    }
  }

  /** Sorted, with no two equal. */
  predicate StrictlySorted(keys: seq<Bytes>) {
    forall i, j :: 0 <= i < j < |keys| ==> Less(keys[i], keys[j])
  }

  /** Sorted, equal neighbours allowed. */
  predicate Sorted(keys: seq<Bytes>) {
    forall i, j :: 0 <= i < j < |keys| ==> !Less(keys[j], keys[i])
  }

  predicate Distinct<T(==)>(s: seq<T>) {
    forall i, j :: 0 <= i < j < |s| ==> s[i] != s[j]
  }

  lemma SortedAndDistinct(keys: seq<Bytes>)
    requires Sorted(keys)
    ensures StrictlySorted(keys) <==> Distinct(keys)
  {
    forall i, j | 0 <= i < j < |keys|
      ensures Less(keys[i], keys[j]) <==> keys[i] != keys[j]
    {
      LessIsTotal(keys[i], keys[j]);
      if Less(keys[i], keys[j]) { LessIsAsymmetric(keys[i], keys[j]); }
    }
  }

  /** A strictly sorted listing is determined by the set of its elements. */
  lemma {:induction false} SortedListingIsUnique(xs: seq<Bytes>, ys: seq<Bytes>)
    requires StrictlySorted(xs) && StrictlySorted(ys)
    requires forall x :: x in xs <==> x in ys
    ensures xs == ys
  {
    assert xs != [] ==> xs[0] in ys;
    assert ys != [] ==> ys[0] in xs;
    if xs != [] {
      FirstIsLeast(xs, ys[0]);
      FirstIsLeast(ys, xs[0]);
      if xs[0] != ys[0] { LessIsAsymmetric(xs[0], ys[0]); }
      forall x ensures x in xs[1..] <==> x in ys[1..] {
        TailMembers(xs, x);
        TailMembers(ys, x);
      }
      SortedListingIsUnique(xs[1..], ys[1..]);
      assert xs == [xs[0]] + xs[1..] && ys == [ys[0]] + ys[1..];
    }
  }

  lemma FirstIsLeast(xs: seq<Bytes>, x: Bytes)
    requires StrictlySorted(xs) && x in xs
    ensures x == xs[0] || Less(xs[0], x)
  {
  }

  lemma TailMembers(xs: seq<Bytes>, x: Bytes)
    requires StrictlySorted(xs) && xs != []
    ensures x in xs[1..] <==> x in xs && x != xs[0]
  {
    if x in xs[1..] {
      var k :| 0 <= k < |xs[1..]| && xs[1..][k] == x;
      LessIsAsymmetric(xs[0], xs[k + 1]);
    }
    if x in xs && x != xs[0] {
      var k :| 0 <= k < |xs| && xs[k] == x;
      assert xs[1..][k - 1] == x;
    }
  }

  /**
   * The stable order in which `list.sort(key=...)` leaves its items: position k of
   * the sorted list holds item SortOrder(keys)[k].
   */
  function SortOrder(keys: seq<Bytes>): (order: seq<nat>)
    ensures |order| == |keys|
    ensures forall k :: 0 <= k < |order| ==> order[k] < |keys|
  {
    if keys == [] then [] else
      var n := |keys| - 1;
      Place(keys, SortOrder(keys[..n]), n)
  }

  function Place(keys: seq<Bytes>, order: seq<nat>, i: nat): (placed: seq<nat>)
    requires i < |keys|
    requires forall k :: 0 <= k < |order| ==> order[k] < |keys|
    ensures |placed| == |order| + 1
    ensures forall k :: 0 <= k < |placed| ==> placed[k] < |keys|
  {
    if order == [] then [i] else
      var last := |order| - 1;
      if Less(keys[i], keys[order[last]])
      then Place(keys, order[..last], i) + [order[last]]
      else order + [i]
  }

  function Reorder<T>(items: seq<T>, order: seq<nat>): (r: seq<T>)
    requires forall k :: 0 <= k < |order| ==> order[k] < |items|
    ensures |r| == |order|
    ensures forall k :: 0 <= k < |r| ==> r[k] == items[order[k]]
  {
    seq(|order|, k requires 0 <= k < |order| => items[order[k]])
  }

  /** What a stable sort by key promises of the order it uses. */
  ghost predicate IsStableSort(keys: seq<Bytes>, order: seq<nat>) {
    && (forall k :: 0 <= k < |order| ==> order[k] < |keys|)
    && Distinct(order)
    && (forall k, l :: 0 <= k < l < |order| ==>
          || Less(keys[order[k]], keys[order[l]])
          || (keys[order[k]] == keys[order[l]] && order[k] < order[l]))
  }

  lemma {:induction false} SortOrderIsStable(keys: seq<Bytes>)
    ensures IsStableSort(keys, SortOrder(keys))
    ensures forall i :: 0 <= i < |keys| ==> i in SortOrder(keys)
  {
    if keys != [] {
      var n := |keys| - 1;
      var front := SortOrder(keys[..n]);
      SortOrderIsStable(keys[..n]);
      assert IsStableSort(keys, front);
      PlaceKeepsStable(keys, front, n);
    }
  }

  lemma {:induction false} PlaceKeepsStable(keys: seq<Bytes>, order: seq<nat>, i: nat)
    requires i < |keys|
    requires IsStableSort(keys, order)
    requires forall k :: 0 <= k < |order| ==> order[k] < i
    ensures IsStableSort(keys, Place(keys, order, i))
    ensures forall x :: x in Place(keys, order, i) <==> x == i || x in order
  {
    hide Less;
    if order != [] {
      var last := |order| - 1;
      var front := order[..last];
      assert order == front + [order[last]];
      if Less(keys[i], keys[order[last]]) {
        PlaceKeepsStable(keys, front, i);
        PlacedBeforeLast(keys, order, Place(keys, front, i), i);
      } else {
        NoneAfter(keys, order, i);
      }
    }
  }

  /** Item i went in among the front items, and still comes before the last one. */
  lemma PlacedBeforeLast(keys: seq<Bytes>, order: seq<nat>, placed: seq<nat>, i: nat)
    requires order != [] && IsStableSort(keys, order) && IsStableSort(keys, placed)
    requires i < |keys| && i != order[|order| - 1] && Less(keys[i], keys[order[|order| - 1]])
    requires forall x :: x in placed <==> x == i || x in order[..|order| - 1]
    ensures IsStableSort(keys, placed + [order[|order| - 1]])
  {
    hide Less;
    var last := |order| - 1;
    var front := order[..last];
    forall k | 0 <= k < |placed|
      ensures Less(keys[placed[k]], keys[order[last]])
        || (keys[placed[k]] == keys[order[last]] && placed[k] < order[last])
      ensures placed[k] != order[last]
    {
      assert placed[k] in placed;
    }
  }

  /** Nothing in a sorted order comes after item i if its last item does not. */
  lemma NoneAfter(keys: seq<Bytes>, order: seq<nat>, i: nat)
    requires order != [] && IsStableSort(keys, order) && i < |keys| && !Less(keys[i], keys[order[|order| - 1]])
    ensures forall k :: 0 <= k < |order| ==> Less(keys[order[k]], keys[i]) || keys[order[k]] == keys[i]
  {
    hide Less;
    var last := |order| - 1;
    forall k | 0 <= k < |order|
      ensures Less(keys[order[k]], keys[i]) || keys[order[k]] == keys[i]
    {
      LessIsTotal(keys[order[k]], keys[i]);
      LessIsTotal(keys[order[last]], keys[i]);
      if k < last && Less(keys[i], keys[order[k]]) {
        assert Less(keys[order[k]], keys[order[last]]) || keys[order[k]] == keys[order[last]];
        if Less(keys[order[k]], keys[order[last]]) {
          LessIsTransitive(keys[i], keys[order[k]], keys[order[last]]);
        }
      }
    }
  }

  /** Reordering by a stable sort sorts the keys, strictly exactly when they are distinct. */
  lemma ReorderSorts(keys: seq<Bytes>)
    ensures Sorted(Reorder(keys, SortOrder(keys)))
    ensures StrictlySorted(Reorder(keys, SortOrder(keys))) <==> Distinct(keys)
    ensures forall x :: x in Reorder(keys, SortOrder(keys)) <==> x in keys
  {
    hide SortOrder, Less;
    SortOrderIsStable(keys);
    var order := SortOrder(keys);
    var r := Reorder(keys, order);
    StableIsSorted(keys, order);
    SortedAndDistinct(r);
    StableKeepsDistinct(keys, order);
    forall x ensures x in r <==> x in keys {
      if x in keys {
        var i :| 0 <= i < |keys| && keys[i] == x;
        assert i in order;
        var k :| 0 <= k < |order| && order[k] == i;
        assert r[k] == x;
      }
    }
  }

  lemma StableIsSorted(keys: seq<Bytes>, order: seq<nat>)
    requires IsStableSort(keys, order)
    ensures Sorted(Reorder(keys, order))
  {
    hide Less;
    var r := Reorder(keys, order);
    forall i, j | 0 <= i < j < |r| ensures !Less(r[j], r[i]) {
      if r[i] == r[j] { LessIsIrreflexive(r[i]); } else { LessIsAsymmetric(r[i], r[j]); }
    }
  }

  lemma StableKeepsDistinct(keys: seq<Bytes>, order: seq<nat>)
    requires IsStableSort(keys, order) && forall i :: 0 <= i < |keys| ==> i in order
    ensures Distinct(Reorder(keys, order)) <==> Distinct(keys)
  {
    hide Less;
    var r := Reorder(keys, order);
    if Distinct(r) {
      forall i, j | 0 <= i < j < |keys| ensures keys[i] != keys[j] {
        assert i in order && j in order;
        var k :| 0 <= k < |order| && order[k] == i;
        var l :| 0 <= l < |order| && order[l] == j;
        assert r[k] == keys[i] && r[l] == keys[j];
      }
    }
    if Distinct(keys) {
      forall k, l | 0 <= k < l < |r| ensures r[k] != r[l] {
        assert order[k] != order[l];
      }
    }
  }
}
