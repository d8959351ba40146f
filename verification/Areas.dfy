/** Merging sorted memory areas, as godefroid/policies.py does when it reports inputs and outputs. */
module Areas {
  datatype Area = Area(start: int, size: nat)

  function End(x: Area): int {
    x.start + x.size
  }

  ghost predicate Covers(xs: seq<Area>, b: int) {
    exists i :: 0 <= i < |xs| && xs[i].start <= b < End(xs[i])
  }

  ghost predicate Increasing(xs: seq<Area>) {
    forall i, j :: 0 <= i < j < |xs| ==> xs[i].start < xs[j].start
  }

  // Increasing, and pairwise disjoint.
  ghost predicate Separate(xs: seq<Area>) {
    Increasing(xs) && forall i, j :: 0 <= i < j < |xs| ==> End(xs[i]) <= xs[j].start
  }

  function Last(xs: seq<Area>): Area
    requires xs != []
  {
    xs[|xs| - 1]
  }

  // The next area starts a new one, or extends the last one, or lies inside it.
  function Absorb(merged: seq<Area>, x: Area): seq<Area> {
    if merged == [] then [x]
    else
      var entry := Last(merged);
      if x.start >= End(entry) then merged + [x]
      else if End(x) > End(entry) then merged[|merged| - 1 := Area(entry.start, End(x) - entry.start)]
      else merged
  }

  function Merge(xs: seq<Area>): seq<Area> {
    if xs == [] then [] else Absorb(Merge(xs[..|xs| - 1]), Last(xs))
  }

  lemma AbsorbSeparates(merged: seq<Area>, x: Area)
    requires Separate(merged) && (merged != [] ==> Last(merged).start < x.start)
    ensures Separate(Absorb(merged, x))
    ensures Absorb(merged, x) != [] && Last(Absorb(merged, x)).start <= x.start
  {
    if merged != [] {
      var entry, r := Last(merged), Absorb(merged, x);
      forall i | 0 <= i < |merged| - 1
        ensures merged[i].start < entry.start && End(merged[i]) <= entry.start
      {
      }
      if x.start >= End(entry) {
        assert forall i :: 0 <= i < |merged| ==> r[i] == merged[i];
      } else {
        assert forall i :: 0 <= i < |merged| ==> r[i].start == merged[i].start;
        assert forall i :: 0 <= i < |merged| - 1 ==> r[i] == merged[i];
      }
    }
  }

  lemma InitIncreasing(xs: seq<Area>)
    requires Increasing(xs) && xs != []
    ensures Increasing(xs[..|xs| - 1])
    ensures |xs| > 1 ==> Last(xs[..|xs| - 1]).start < Last(xs).start
  {
  }

  lemma {:induction false} MergeSeparates(xs: seq<Area>)
    requires Increasing(xs)
    ensures Separate(Merge(xs))
    ensures xs != [] ==> Merge(xs) != [] && Last(Merge(xs)).start <= Last(xs).start
  {
    hide Increasing, Separate, Absorb;
    if xs == [] {
      NoneSeparate();
    } else {
      var init := xs[..|xs| - 1];
      InitIncreasing(xs);
      MergeSeparates(init);
      AbsorbSeparates(Merge(init), Last(xs));
    }
  }

  lemma NoneSeparate()
    ensures Separate([])
  {
  }

  lemma CoversLast(xs: seq<Area>, b: int)
    requires xs != []
    ensures Covers(xs, b) <==> Covers(xs[..|xs| - 1], b) || Last(xs).start <= b < End(Last(xs))
  {
    var init := xs[..|xs| - 1];
    if i :| 0 <= i < |xs| && xs[i].start <= b < End(xs[i]) {
      if i < |init| {
        assert init[i].start <= b < End(init[i]);
      }
    }
    if Covers(init, b) {
      var i :| 0 <= i < |init| && init[i].start <= b < End(init[i]);
      assert xs[i].start <= b < End(xs[i]);
    }
  }

  lemma AbsorbCovers(merged: seq<Area>, x: Area, b: int)
    requires merged != [] ==> Last(merged).start <= x.start
    ensures Covers(Absorb(merged, x), b) <==> Covers(merged, b) || x.start <= b < End(x)
  {
    hide Covers;
    var r := Absorb(merged, x);
    CoversLast(r, b);
    if merged == [] {
      NothingCovered(b);
    } else {
      CoversLast(merged, b);
      assert r == merged + [x] ==> r[..|r| - 1] == merged;
      assert |r| == |merged| ==> r[..|r| - 1] == merged[..|merged| - 1];
    }
  }

  lemma NothingCovered(b: int)
    ensures !Covers([], b)
  {
  }

  // The same bytes are covered before and after.
  lemma {:induction false} MergeCovers(xs: seq<Area>, b: int)
    requires Increasing(xs)
    ensures Covers(Merge(xs), b) <==> Covers(xs, b)
  {
    hide Covers;
    if xs != [] {
      var init := xs[..|xs| - 1];
      MergeCovers(init, b);
      MergeSeparates(init);
      assert init != [] ==> Last(init).start < Last(xs).start;
      AbsorbCovers(Merge(init), Last(xs), b);
      CoversLast(xs, b);
    }
  }

  // No area ends behind the last merged one.
  lemma {:induction false} EndsBefore(xs: seq<Area>, k: nat)
    requires k < |xs|
    ensures Merge(xs) != [] && End(xs[k]) <= End(Last(Merge(xs)))
  {
    var init := xs[..|xs| - 1];
    if k < |init| {
      EndsBefore(init, k);
    }
  }

  ghost predicate Within(x: Area, ys: seq<Area>, j: nat) {
    j < |ys| && ys[j].start <= x.start && End(x) <= End(ys[j])
  }

  // No area is split: each lies within one of the merged areas, and each of those starts where one did.
  lemma {:induction false} MergeKeepsWhole(xs: seq<Area>, i: nat) returns (j: nat)
    requires Increasing(xs) && i < |xs|
    ensures Within(xs[i], Merge(xs), j)
  {
    hide Increasing, Separate;
    var init := xs[..|xs| - 1];
    InitIncreasing(xs);
    MergeSeparates(init);
    if i < |init| {
      j := MergeKeepsWhole(init, i);
    } else {
      j := |Merge(xs)| - 1;
    }
  }

  lemma {:induction false} MergeStarts(xs: seq<Area>, j: nat) returns (i: nat)
    requires j < |Merge(xs)|
    ensures i < |xs| && Merge(xs)[j].start == xs[i].start
  {
    var init := xs[..|xs| - 1];
    if j < |Merge(init)| {
      i := MergeStarts(init, j);
    } else {
      i := |xs| - 1;
    }
  }

  // Merging what is already merged changes nothing.
  lemma {:induction false} MergeStable(xs: seq<Area>)
    requires Separate(xs)
    ensures Merge(xs) == xs
  {
    if xs != [] {
      MergeStable(xs[..|xs| - 1]);
    }
  }

  lemma MergeIdempotent(xs: seq<Area>)
    requires Increasing(xs)
    ensures Merge(Merge(xs)) == Merge(xs)
  {
    MergeSeparates(xs);
    MergeStable(Merge(xs));
  }

  // Sorting

  ghost predicate Ascending(s: seq<int>) {
    forall i, j :: 0 <= i < j < |s| ==> s[i] < s[j]
  }

  ghost predicate Lists(s: seq<int>, keys: set<int>) {
    forall x :: x in s <==> x in keys
  }

  lemma ListsNone(s: seq<int>, keys: set<int>)
    requires Lists(s, keys)
    ensures s == [] <==> keys == {}
  {
    if s != [] {
      var x := s[0];
      assert x in s;
    } else {
      assert forall x :: x !in keys;
    }
  }

  // A set has only one ascending list of its elements.
  lemma {:induction false} SortedUnique(s: seq<int>, t: seq<int>, keys: set<int>)
    requires Ascending(s) && Ascending(t) && Lists(s, keys) && Lists(t, keys)
    ensures s == t
  {
    if s == [] || t == [] {
      ListsNone(s, keys);
      ListsNone(t, keys);
    } else {
      assert s[0] in s && s[0] in keys && s[0] in t;
      assert t[0] in t && t[0] in keys && t[0] in s;
      var a: nat :| a < |t| && t[a] == s[0];
      var b: nat :| b < |s| && s[b] == t[0];
      assert s[0] == t[0];
      TailLists(s, keys);
      TailLists(t, keys);
      SortedUnique(s[1..], t[1..], keys - {s[0]});
      assert s == [s[0]] + s[1..] && t == [t[0]] + t[1..];
    }
  }

  lemma TailLists(s: seq<int>, keys: set<int>)
    requires s != [] && Ascending(s) && Lists(s, keys)
    ensures Ascending(s[1..]) && Lists(s[1..], keys - {s[0]})
  {
    forall x
      ensures x in s[1..] <==> x in keys - {s[0]}
    {
      assert s == [s[0]] + s[1..];
    }
  }

  lemma SomeElement(keys: set<int>)
    ensures keys == {} || exists x :: x in keys
  {
    if forall x :: x !in keys {
      assert keys == {};
    }
  }

  method Sorted(keys: set<int>) returns (s: seq<int>)
    ensures Ascending(s) && Lists(s, keys)
  {
    s := [];
    var rest := keys;
    while |rest| > 0
      invariant rest <= keys && Ascending(s) && Lists(s, keys - rest)
      decreases rest
    {
      SomeElement(rest);
      var x :| x in rest;
      var i := 0;
      while i < |s| && s[i] < x
        invariant i <= |s| && forall j :: 0 <= j < i ==> s[j] < x
      {
        i := i + 1;
      }
      var t := s[..i] + [x] + s[i..];
      assert forall y :: y in t <==> y in s || y == x by {
        assert s == s[..i] + s[i..];
      }
      assert x !in s;
      rest := rest - {x};
      s := t;
    }
  }

  function SizeAt(sizes: map<int, nat>, a: int): nat {
    if a in sizes then sizes[a] else 0
  }

  function AreasOf(keys: seq<int>, sizes: map<int, nat>): (xs: seq<Area>)
    ensures |xs| == |keys| && forall i :: 0 <= i < |keys| ==> xs[i] == Area(keys[i], SizeAt(sizes, keys[i]))
  {
    if keys == [] then []
    else AreasOf(keys[..|keys| - 1], sizes) + [Area(keys[|keys| - 1], SizeAt(sizes, keys[|keys| - 1]))]
  }

  // Byte b lies in an area of the map.
  ghost predicate Occupied(sizes: map<int, nat>, b: int) {
    exists a :: a in sizes && a <= b < a + sizes[a]
  }

  // What a report of the areas in a map promises.
  ghost predicate Reports(sizes: map<int, nat>, merged: seq<Area>) {
    && Separate(merged)
    && (forall b :: Covers(merged, b) <==> Occupied(sizes, b))
    && Merge(merged) == merged
  }

  lemma AreasOfCover(keys: seq<int>, sizes: map<int, nat>, b: int)
    requires Ascending(keys) && Lists(keys, sizes.Keys)
    ensures Increasing(AreasOf(keys, sizes))
    ensures Covers(AreasOf(keys, sizes), b) <==> Occupied(sizes, b)
  {
    var xs := AreasOf(keys, sizes);
    if Occupied(sizes, b) {
      var a :| a in sizes && a <= b < a + sizes[a];
      assert a in keys;
      var i: nat :| i < |keys| && keys[i] == a;
      assert xs[i].start <= b < End(xs[i]);
    }
    if Covers(xs, b) {
      var i :| 0 <= i < |xs| && xs[i].start <= b < End(xs[i]);
      assert keys[i] in keys;
    }
  }

  lemma MergedReports(keys: seq<int>, sizes: map<int, nat>)
    requires Ascending(keys) && Lists(keys, sizes.Keys)
    ensures Reports(sizes, Merge(AreasOf(keys, sizes)))
  {
    var xs := AreasOf(keys, sizes);
    AreasOfCover(keys, sizes, 0);
    MergeSeparates(xs);
    MergeIdempotent(xs);
    forall b
      ensures Covers(Merge(xs), b) <==> Occupied(sizes, b)
    {
      MergeCovers(xs, b);
      AreasOfCover(keys, sizes, b);
    }
  }

  lemma AreaAt(keys: seq<int>, sizes: map<int, nat>, i: nat)
    requires Lists(keys, sizes.Keys) && i < |keys|
    ensures keys[i] in sizes && AreasOf(keys, sizes)[i] == Area(keys[i], sizes[keys[i]])
  {
    var k := keys[i];
    assert k in keys;
  }

  lemma MergeNext(xs: seq<Area>, i: nat)
    requires i < |xs|
    ensures Merge(xs[..i + 1]) == Absorb(Merge(xs[..i]), xs[i])
  {
    assert xs[..i + 1][..i] == xs[..i];
  }

  lemma MergeFirst(xs: seq<Area>)
    ensures Merge([]) == [] && (xs != [] ==> Merge(xs[..1]) == [xs[0]])
  {
    assert Merge([]) == [];
    if xs != [] {
      assert xs[..1][..0] == [];
    }
  }

  lemma WholeIs(xs: seq<Area>, n: nat)
    requires n == |xs|
    ensures xs[..n] == xs
  {
  }
}
