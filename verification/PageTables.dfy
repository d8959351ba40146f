/**
 The page tables of microx/__init__.py as values: how a table of maps, each with bounds, permissions and
 bytes, stands for a FlatMemory, and what loads, stores and added maps do to it.

 A raised exception is None or false.
 */
module PageTables {
  import opened Bits
  import opened FlatMemory

  function Pow2(n: nat): (r: nat)
    ensures r >= 1
  {
    if n == 0 then 1 else 2 * Pow2(n - 1)
  }

  // Python's reading of an index below zero, and of a slice.

  function Clamp(i: int, n: nat): (r: nat)
    ensures r <= n
  {
    var j := if i < 0 then n + i else i;
    if j < 0 then 0 else if j > n then n else j
  }

  function PySlice(s: seq<byte>, lo: int, hi: int): seq<byte> {
    var i, j := Clamp(lo, |s|), Clamp(hi, |s|);
    if i <= j then s[i..j] else []
  }

  function PyIndex(i: int, n: nat): (r: Option<nat>)
    ensures r.Some? ==> r.value < n
  {
    if 0 <= i < n then Some(i) else if i < 0 && 0 <= n + i then Some(n + i) else None
  }

  // How many of the n bytes from a on are mapped without a gap.
  function MappedPrefix(m: Flat, a: int, n: nat): (k: nat)
    ensures k <= n && Mapped(m, a, k)
    ensures k < n ==> a + k !in m
  {
    if n == 0 then 0
    else
      var k := MappedPrefix(m, a, n - 1);
      if k == n - 1 && a + k in m then n else k
  }

  lemma PrefixUnique(m: Flat, a: int, n: nat, k: nat)
    requires k <= n && Mapped(m, a, k) && (k < n ==> a + k !in m)
    ensures MappedPrefix(m, a, n) == k
  {
    var j := MappedPrefix(m, a, n);
    assert j < k ==> a + j in m;
    assert k < j ==> a + k in m;
  }

  lemma NoBytesStored(m: Flat, a: int, bs: seq<byte>)
    ensures Store(m, a, bs[..0]) == m
  {
  }

  lemma StoreMore(m: Flat, a: int, bs: seq<byte>, k: nat)
    requires k < |bs| && Mapped(m, a, k + 1)
    ensures Mapped(Store(m, a, bs[..k]), a + k, 1)
    ensures Store(Store(m, a, bs[..k]), a + k, bs[k..k + 1]) == Store(m, a, bs[..k + 1])
  {
    hide Store;
    var done := Store(m, a, bs[..k]);
    SameMemory(Store(done, a + k, bs[k..k + 1]), Store(m, a, bs[..k + 1]));
  }

  // One byte more stored, or refused because it is not mapped.
  lemma StoreStep(m: Flat, cur: Flat, next: Flat, a: int, bs: seq<byte>, i: nat, ok: bool)
    requires i < |bs| && Mapped(m, a, i) && cur == Store(m, a, bs[..i])
    requires ok == (a + i in cur) && next == if ok then Store(cur, a + i, [bs[i]]) else cur
    ensures ok ==> Mapped(m, a, i + 1) && next == Store(m, a, bs[..i + 1])
    ensures !ok ==> MappedPrefix(m, a, |bs|) == i
  {
    hide Store, MappedPrefix;
    if ok {
      StoreMore(m, a, bs, i);
      assert bs[i..i + 1] == [bs[i]];
    } else {
      PrefixUnique(m, a, |bs|, i);
    }
  }

  // Page tables as values

  // What a map holds: its bounds, permissions and bytes.
  datatype Region = Region(isDefault: bool, lo: nat, hi: nat, canRead: bool, canWrite: bool, canExecute: bool,
                           data: seq<byte>)

  predicate ValidRegion(r: Region) {
    if r.isDefault then r.lo == r.hi == 0 else r.lo < r.hi && |r.data| == r.hi - r.lo
  }

  predicate Inside(r: Region, a: int) {
    !r.isDefault && r.lo <= a < r.hi
  }

  datatype Geometry = Geometry(addressBound: nat, pageSize: nat)

  predicate ValidGeometry(g: Geometry) {
    g.addressBound in {B32, B64} && g.pageSize >= 1
  }

  // The page of an address, masked to the address space.
  function PageNumber(a: nat, bound: nat, size: nat): nat
    requires bound > 0 && size > 0
  {
    NonNegative(a % bound, size);
    a % bound / size
  }

  lemma NonNegative(a: nat, d: nat)
    requires d > 0
    ensures a / d >= 0
  {
  }

  function PageOf(g: Geometry, a: nat): nat
    requires ValidGeometry(g)
  {
    PageNumber(a, g.addressBound, g.pageSize)
  }

  type Table = map<nat, Region>

  ghost predicate ValidTable(t: Table) {
    forall p :: p in t ==> ValidRegion(t[p])
  }

  // No map reaches beyond the address space, so that each starts at or below each of its pages.
  ghost predicate Ordinary(g: Geometry, t: Table) {
    forall p :: p in t && !t[p].isDefault ==> t[p].lo <= p * g.pageSize
  }

  // The map on the page of each of the n bytes from a on, if there is one, starts at or below that byte.
  ghost predicate Starts(g: Geometry, t: Table, a: nat, n: nat)
    requires ValidGeometry(g)
  {
    forall i: nat :: a <= i < a + n && PageOf(g, i) in t && !t[PageOf(g, i)].isDefault ==> t[PageOf(g, i)].lo <= i
  }

  // The same maps, with their bounds and permissions, and no more than default maps on other pages.
  ghost predicate BoundsKept(t: Table, t': Table) {
    && t.Keys <= t'.Keys
    && (forall p :: p in t ==> t'[p] == t[p].(data := t'[p].data))
    && forall p :: p in t' && p !in t ==> t'[p].isDefault
  }

  // No more than default maps on other pages.
  ghost predicate TableGrown(t: Table, t': Table) {
    t.Keys <= t'.Keys && (forall p :: p in t ==> t'[p] == t[p]) && forall p :: p in t' && p !in t ==> t'[p].isDefault
  }

  lemma BoundsSame(t: Table)
    ensures BoundsKept(t, t) && TableGrown(t, t)
  {
  }

  lemma BoundsTransitive(t0: Table, t1: Table, t2: Table)
    requires BoundsKept(t0, t1) && BoundsKept(t1, t2)
    ensures BoundsKept(t0, t2)
  {
  }

  lemma StartsKept(g: Geometry, t: Table, t': Table, a: nat, n: nat, b: nat, k: nat)
    requires ValidGeometry(g) && BoundsKept(t, t') && Starts(g, t, a, n) && a <= b && b + k <= a + n
    ensures Starts(g, t', b, k)
  {
    hide PageOf;
  }

  ghost predicate Holds(g: Geometry, t: Table, a: int)
    requires ValidGeometry(g)
  {
    0 <= a && PageOf(g, a) in t && Inside(t[PageOf(g, a)], a)
  }

  function CellIn(r: Region, a: int): Cell
    requires ValidRegion(r) && Inside(r, a)
  {
    Cell(r.data[a - r.lo], r.canRead, r.canWrite, r.canExecute)
  }

  // The flat memory that a page table stands for.
  ghost function FlatOf(g: Geometry, t: Table): Flat
    requires ValidGeometry(g) && ValidTable(t)
  {
    imap a: int | Holds(g, t, a) :: CellIn(t[PageOf(g, a)], a)
  }

  // A default map on a page that has no map changes nothing.
  lemma DefaultUnseen(g: Geometry, t: Table, p: nat, r: Region)
    requires ValidGeometry(g) && ValidTable(t) && p !in t && r.isDefault && ValidRegion(r)
    ensures ValidTable(t[p := r]) && FlatOf(g, t[p := r]) == FlatOf(g, t)
    ensures BoundsKept(t, t[p := r]) && TableGrown(t, t[p := r])
  {
    hide PageOf;
    assert forall a :: Holds(g, t[p := r], a) <==> Holds(g, t, a);
    SameMemory(FlatOf(g, t[p := r]), FlatOf(g, t));
  }

  // The data of a map with the bytes bs written at an offset.
  function Patched(data: seq<byte>, offset: nat, bs: seq<byte>): (r: seq<byte>)
    requires offset + |bs| <= |data|
    ensures |r| == |data|
    ensures forall i :: 0 <= i < |data| ==> r[i] == if offset <= i < offset + |bs| then bs[i - offset] else data[i]
  {
    data[..offset] + bs + data[offset + |bs|..]
  }

  // One map, on all the pages in own, has had bs written into it; all of them are on its pages.
  ghost predicate StoredIn(g: Geometry, t: Table, t': Table, own: set<nat>, a: nat, bs: seq<byte>)
    requires ValidGeometry(g) && ValidTable(t)
  {
    && t'.Keys == t.Keys
    && (forall i :: a <= i < a + |bs| ==> PageOf(g, i) in own && Holds(g, t, i))
    && (forall p, q :: p in own && q in own && p in t && q in t ==> t[p] == t[q])
    && (forall p :: p in t && p !in own ==> t'[p] == t[p])
    && (forall p :: p in t && p in own && bs != [] ==>
      0 <= a - t[p].lo && a - t[p].lo + |bs| <= |t[p].data|
        && t'[p] == t[p].(data := Patched(t[p].data, a - t[p].lo, bs)))
    && (forall p :: p in t && p in own && bs == [] ==> t'[p] == t[p])
  }

  lemma StoredCell(g: Geometry, t: Table, t': Table, own: set<nat>, a: nat, bs: seq<byte>, b: int)
    requires ValidGeometry(g) && ValidTable(t) && StoredIn(g, t, t', own, a, bs) && Holds(g, t, b)
    ensures
      var p, v := PageOf(g, b), CellIn(t[PageOf(g, b)], b);
      && ValidRegion(t'[p]) && Inside(t'[p], b)
      && CellIn(t'[p], b) == v.(value := if a <= b < a + |bs| then bs[b - a] else v.value)
  {
    hide PageOf, StoredIn, ValidTable;
    StoredPage(g, t, t', own, a, bs, b);
  }

  // What became of the map on the page of b.
  lemma StoredPage(g: Geometry, t: Table, t': Table, own: set<nat>, a: nat, bs: seq<byte>, b: int)
    requires ValidGeometry(g) && ValidTable(t) && StoredIn(g, t, t', own, a, bs) && b >= 0 && PageOf(g, b) in t
    ensures PageOf(g, b) in t' && ValidRegion(t[PageOf(g, b)])
    ensures
      var r, r' := t[PageOf(g, b)], t'[PageOf(g, b)];
      if PageOf(g, b) in own && bs != [] then
        0 <= a - r.lo && a - r.lo + |bs| <= |r.data| && r' == r.(data := Patched(r.data, a - r.lo, bs))
      else r' == r && !(a <= b < a + |bs|)
  {
    hide PageOf, Patched, Holds;
  }

  lemma StoredKeepsBounds(g: Geometry, t: Table, t': Table, own: set<nat>, a: nat, bs: seq<byte>)
    requires ValidGeometry(g) && ValidTable(t) && StoredIn(g, t, t', own, a, bs)
    ensures ValidTable(t') && BoundsKept(t, t')
    ensures forall b :: Holds(g, t', b) <==> Holds(g, t, b)
  {
    hide PageOf;
    assert forall p :: p in t ==> t'[p] == t[p].(data := t'[p].data) && |t'[p].data| == |t[p].data|;
  }

  lemma FlatAt(g: Geometry, t: Table, b: int)
    requires ValidGeometry(g) && ValidTable(t)
    ensures b in FlatOf(g, t) <==> Holds(g, t, b)
    ensures Holds(g, t, b) ==> FlatOf(g, t)[b] == CellIn(t[PageOf(g, b)], b)
  {
    hide PageOf;
  }

  lemma StoredMapped(g: Geometry, t: Table, t': Table, own: set<nat>, a: nat, bs: seq<byte>)
    requires ValidGeometry(g) && ValidTable(t) && StoredIn(g, t, t', own, a, bs)
    ensures Mapped(FlatOf(g, t), a, |bs|)
  {
    hide PageOf, Patched;
  }

  lemma StoreIsFlat(g: Geometry, t: Table, t': Table, own: set<nat>, a: nat, bs: seq<byte>)
    requires ValidGeometry(g) && ValidTable(t) && StoredIn(g, t, t', own, a, bs)
    ensures ValidTable(t') && Mapped(FlatOf(g, t), a, |bs|)
    ensures FlatOf(g, t') == Store(FlatOf(g, t), a, bs)
    ensures BoundsKept(t, t')
  {
    hide PageOf, FlatOf, Holds, Store, Inside, CellIn, Patched, BoundsKept, StoredIn, ValidTable;
    StoredKeepsBounds(g, t, t', own, a, bs);
    StoredMapped(g, t, t', own, a, bs);
    var m, m' := Store(FlatOf(g, t), a, bs), FlatOf(g, t');
    forall b
      ensures b in m <==> b in m'
      ensures b in m ==> m[b] == m'[b]
    {
      FlatAt(g, t, b);
      FlatAt(g, t', b);
      if Holds(g, t, b) {
        StoredCell(g, t, t', own, a, bs, b);
      }
    }
    SameMemory(m, m');
  }

  // How many of n bytes from a on lie below the end of a map.
  function Fitting(hi: nat, a: nat, n: nat): (k: nat)
    ensures k <= n
  {
    if a + n <= hi then n else if a < hi then hi - a else 0
  }

  // Bytes assigned one by one, up to the first index out of range.
  datatype Stored = Stored(data: seq<byte>, ok: bool)

  function StoreFrom(data: seq<byte>, offset: int, bs: seq<byte>): (r: Stored)
    ensures |r.data| == |data|
  {
    if bs == [] then Stored(data, true)
    else
      var r := StoreFrom(data, offset, bs[..|bs| - 1]);
      var index := PyIndex(offset + |bs| - 1, |data|);
      if !r.ok || index == None then Stored(r.data, false) else Stored(r.data[index.value := bs[|bs| - 1]], true)
  }

  // Once an index is out of range nothing more is stored.
  lemma {:induction false} StopsAt(data: seq<byte>, offset: int, bs: seq<byte>, j: nat)
    requires j <= |bs| && !StoreFrom(data, offset, bs[..j]).ok
    ensures StoreFrom(data, offset, bs) == StoreFrom(data, offset, bs[..j])
    decreases |bs|
  {
    if j < |bs| {
      var init := bs[..|bs| - 1];
      assert init[..j] == bs[..j];
      StopsAt(data, offset, init, j);
    } else {
      assert bs[..j] == bs;
    }
  }

  // From inside the data on: up to its end, and then an exception.
  lemma {:induction false} StoredBytes(data: seq<byte>, offset: nat, bs: seq<byte>)
    ensures
      var k := Fitting(|data|, offset, |bs|);
      StoreFrom(data, offset, bs) == Stored(if k == 0 then data else Patched(data, offset, bs[..k]), k == |bs|)
  {
    if bs != [] {
      var init := bs[..|bs| - 1];
      var k := Fitting(|data|, offset, |bs|);
      assert bs[..k] == if k == |bs| then init + [bs[|bs| - 1]] else init[..k];
      StoredBytes(data, offset, init);
    }
  }

  // Bytes stored up to the start of a map, and no further, land as far before its end instead.
  lemma {:induction false} StoredBelow(data: seq<byte>, offset: int, bs: seq<byte>)
    requires -|data| <= offset && offset + |bs| <= 0
    ensures StoreFrom(data, offset, bs) == Stored(Patched(data, |data| + offset, bs), true)
  {
    if bs != [] {
      StoredBelow(data, offset, bs[..|bs| - 1]);
    }
  }

  // A load of n bytes by slicing the data of a map, so that it comes out short at the end of the map.
  function LoadSlice(r: Region, a: nat, n: nat): Option<seq<byte>> {
    if r.isDefault then None else Some(PySlice(r.data, a - r.lo, a - r.lo + n))
  }

  // A byte that a map gives when its data are sliced: one of its own, or, below its start, one counted from
  // its end; the byte just below the start is an empty slice.
  predicate Slices(r: Region, a: nat) {
    Inside(r, a) || (!r.isDefault && r.lo - |r.data| <= a < r.lo - 1)
  }

  // A byte that a map takes: one of its own, or, below its start, one counted from its end.
  predicate Indexes(r: Region, a: nat) {
    Inside(r, a) || (!r.isDefault && r.lo - |r.data| <= a < r.lo)
  }

  // The byte that a map gives at an address.
  function Given(r: Region, a: nat): Option<byte>
    requires ValidRegion(r)
  {
    if !Slices(r, a) then None else Some(if r.lo <= a then r.data[a - r.lo] else r.data[|r.data| + a - r.lo])
  }

  function GivenAt(g: Geometry, t: Table, a: nat): Option<byte>
    requires ValidGeometry(g) && ValidTable(t)
  {
    if PageOf(g, a) in t then Given(t[PageOf(g, a)], a) else None
  }

  ghost predicate GivenFrom(g: Geometry, t: Table, a: nat, bs: seq<byte>)
    requires ValidGeometry(g) && ValidTable(t)
  {
    forall i :: 0 <= i < |bs| ==> GivenAt(g, t, a + i) == Some(bs[i])
  }

  lemma GivenStill(g: Geometry, t: Table, t': Table, a: nat, bs: seq<byte>)
    requires ValidGeometry(g) && ValidTable(t) && ValidTable(t') && TableGrown(t, t') && GivenFrom(g, t, a, bs)
    ensures GivenFrom(g, t', a, bs)
  {
    hide PageOf, Given;
  }

  lemma SliceExactly(r: Region, a: nat)
    requires ValidRegion(r)
    ensures LoadSlice(r, a, 1).Some? && LoadSlice(r, a, 1).value != [] <==> Slices(r, a)
    ensures Slices(r, a) ==> Given(r, a) == Some(LoadSlice(r, a, 1).value[0])
    ensures !Slices(r, a) ==> Given(r, a) == None
  {
  }

  // Bytes sliced from below the start of a map, and not up to it, come from as far before its end.
  lemma SliceBelow(r: Region, a: nat, n: nat)
    requires ValidRegion(r) && !r.isDefault && r.lo - |r.data| <= a && a + n < r.lo
    ensures LoadSlice(r, a, n) == Some(r.data[|r.data| + a - r.lo..|r.data| + a + n - r.lo])
  {
  }

  lemma IndexExactly(r: Region, a: nat, b: byte)
    requires ValidRegion(r) && !r.isDefault
    ensures StoreFrom(r.data, a - r.lo, [b]).ok <==> Indexes(r, a)
  {
    assert [b][..0] == [];
  }

  lemma SameIndexes(r: Region, r': Region, a: nat)
    requires ValidRegion(r) && ValidRegion(r') && r' == r.(data := r'.data)
    ensures Indexes(r, a) <==> Indexes(r', a)
    ensures r.isDefault ==> !Indexes(r, a)
  {
  }

  lemma SliceFits(r: Region, a: nat, n: nat)
    requires ValidRegion(r) && !r.isDefault && r.lo <= a
    ensures
      var k := Fitting(r.hi, a, n);
      LoadSlice(r, a, n) == Some(if k == 0 then [] else r.data[a - r.lo..a - r.lo + k])
  {
    var k := Fitting(r.hi, a, n);
    if k == 0 {
      assert PySlice(r.data, a - r.lo, a - r.lo + n) == [];
    }
  }

  // Some map, on the page of each of the n bytes from a on.
  ghost predicate OneMap(g: Geometry, t: Table, own: set<nat>, a: nat, n: nat)
    requires ValidGeometry(g)
  {
    && own <= t.Keys
    && PageOf(g, a) in own
    && (forall i :: a <= i < a + n ==> PageOf(g, i) in own)
    && forall p, q :: p in own && q in own ==> t[p] == t[q]
  }

  lemma FittingIsMapped(g: Geometry, t: Table, own: set<nat>, a: nat, n: nat)
    requires ValidGeometry(g) && ValidTable(t) && OneMap(g, t, own, a, n)
    requires !t[PageOf(g, a)].isDefault ==> t[PageOf(g, a)].lo <= a
    ensures
      var r := t[PageOf(g, a)];
      MappedPrefix(FlatOf(g, t), a, n) == if r.isDefault then 0 else Fitting(r.hi, a, n)
  {
    hide PageOf;
    var r := t[PageOf(g, a)];
    var k := if r.isDefault then 0 else Fitting(r.hi, a, n);
    forall i | a <= i < a + k
      ensures Holds(g, t, i)
    {
      assert t[PageOf(g, i)] == r;
    }
    assert k < n ==> !Holds(g, t, a + k) by {
      if k < n {
        assert t[PageOf(g, a + k)] == r;
      }
    }
    PrefixUnique(FlatOf(g, t), a, n, k);
  }

  lemma CellOfMap(g: Geometry, t: Table, own: set<nat>, a: nat, n: nat, i: nat)
    requires ValidGeometry(g) && ValidTable(t) && OneMap(g, t, own, a, n) && a <= i < a + n
    requires Inside(t[PageOf(g, a)], i)
    ensures var r := t[PageOf(g, a)];
      i in FlatOf(g, t) && FlatOf(g, t)[i].value == r.data[i - r.lo]
  {
    hide PageOf;
    assert t[PageOf(g, i)] == t[PageOf(g, a)];
  }

  lemma LoadIsFlat(g: Geometry, t: Table, own: set<nat>, a: nat, n: nat)
    requires ValidGeometry(g) && ValidTable(t) && OneMap(g, t, own, a, n)
    requires !t[PageOf(g, a)].isDefault ==> t[PageOf(g, a)].lo <= a
    ensures
      var m, r := FlatOf(g, t), LoadSlice(t[PageOf(g, a)], a, n);
      && (t[PageOf(g, a)].isDefault <==> r == None)
      && (r.Some? ==> r.value == BytesAt(m, a, MappedPrefix(m, a, n)))
  {
    hide PageOf, FlatOf, MappedPrefix, PySlice;
    FittingIsMapped(g, t, own, a, n);
    var m, r := FlatOf(g, t), t[PageOf(g, a)];
    if !r.isDefault {
      SliceFits(r, a, n);
      var k := Fitting(r.hi, a, n);
      var want, got := BytesAt(m, a, k), LoadSlice(r, a, n).value;
      forall i | 0 <= i < k
        ensures got[i] == want[i]
      {
        CellOfMap(g, t, own, a, n, a + i);
      }
      assert got == want;
    }
  }

  // One map has had as many of the bytes written into it as fit.
  lemma StoreThroughMap(g: Geometry, t: Table, t': Table, own: set<nat>, a: nat, bs: seq<byte>, k: nat)
    requires ValidGeometry(g) && ValidTable(t) && OneMap(g, t, own, a, |bs|) && t'.Keys == t.Keys
    requires !t[PageOf(g, a)].isDefault ==> t[PageOf(g, a)].lo <= a
    requires var r := t[PageOf(g, a)]; k == if r.isDefault then 0 else Fitting(r.hi, a, |bs|)
    requires forall p :: p in t && p !in own ==> t'[p] == t[p]
    requires
      var r := t[PageOf(g, a)];
      forall p :: p in own ==> t'[p] == if k == 0 then r else r.(data := Patched(r.data, a - r.lo, bs[..k]))
    ensures ValidTable(t') && k == MappedPrefix(FlatOf(g, t), a, |bs|)
    ensures FlatOf(g, t') == Store(FlatOf(g, t), a, bs[..k])
    ensures BoundsKept(t, t')
  {
    hide PageOf, FlatOf, BoundsKept, MappedPrefix, Patched, StoredIn, OneMap, ValidTable, Fitting;
    FittingIsMapped(g, t, own, a, |bs|);
    StoredByMap(g, t, t', own, a, bs, k);
    StoreIsFlat(g, t, t', own, a, bs[..k]);
  }

  lemma StoredByMap(g: Geometry, t: Table, t': Table, own: set<nat>, a: nat, bs: seq<byte>, k: nat)
    requires ValidGeometry(g) && ValidTable(t) && OneMap(g, t, own, a, |bs|) && t'.Keys == t.Keys
    requires !t[PageOf(g, a)].isDefault ==> t[PageOf(g, a)].lo <= a
    requires var r := t[PageOf(g, a)]; k == if r.isDefault then 0 else Fitting(r.hi, a, |bs|)
    requires forall p :: p in t && p !in own ==> t'[p] == t[p]
    requires
      var r := t[PageOf(g, a)];
      forall p :: p in own ==> t'[p] == if k == 0 then r else r.(data := Patched(r.data, a - r.lo, bs[..k]))
    ensures StoredIn(g, t, t', own, a, bs[..k])
  {
    hide PageOf, Patched;
    var r := t[PageOf(g, a)];
    forall i | a <= i < a + k
      ensures PageOf(g, i) in own && Holds(g, t, i)
    {
      assert t[PageOf(g, i)] == r;
    }
    assert forall p :: p in t && p in own ==> t[p] == r;
  }

  lemma OrdinaryStart(g: Geometry, t: Table, a: nat)
    requires ValidGeometry(g) && Ordinary(g, t) && PageOf(g, a) in t && !t[PageOf(g, a)].isDefault
    ensures t[PageOf(g, a)].lo <= a
  {
    var b := a % g.addressBound;
    assert b / g.pageSize * g.pageSize <= b <= a;
  }

  // Without maps that reach beyond the address space, any range; otherwise, those that are mapped, and those
  // not on the pages of such maps.
  lemma RangesStart(g: Geometry, t: Table, a: nat, n: nat)
    requires ValidGeometry(g) && ValidTable(t) && (Ordinary(g, t) || Mapped(FlatOf(g, t), a, n))
    ensures Starts(g, t, a, n)
  {
    hide PageOf, Ordinary;
    forall i: nat | a <= i < a + n && PageOf(g, i) in t && !t[PageOf(g, i)].isDefault
      ensures t[PageOf(g, i)].lo <= i
    {
      if Ordinary(g, t) {
        OrdinaryStart(g, t, i);
      } else {
        assert i in FlatOf(g, t);
      }
    }
  }

  // The page of the i-th step through a map.
  function NthPage(g: Geometry, lo: nat, i: nat): nat
    requires ValidGeometry(g)
  {
    PageOf(g, lo + i * g.pageSize)
  }

  // One of the first n pages stepped through.
  ghost predicate Among(g: Geometry, lo: nat, n: nat, p: nat)
    requires ValidGeometry(g)
  {
    exists i: nat :: i < n && NthPage(g, lo, i) == p
  }

  lemma AmongMore(g: Geometry, lo: nat, n: nat, p: nat)
    requires ValidGeometry(g)
    ensures Among(g, lo, n + 1, p) <==> Among(g, lo, n, p) || p == NthPage(g, lo, n)
  {
    hide NthPage;
    if Among(g, lo, n, p) {
      var i: nat :| i < n && NthPage(g, lo, i) == p;
      assert i < n + 1;
    }
  }

  lemma LastStep(lo: int, hi: int, ps: int, n: nat)
    requires ps > 0 && lo <= hi && lo + n * ps >= hi && (n == 0 || lo + n * ps < hi + ps)
    ensures n == (hi - lo + ps - 1) / ps
  {
    StepInside(lo, hi, ps, n);
    if n > 0 {
      Distribute(n, -1, ps);
      StepInside(lo, hi, ps, n - 1);
    }
  }

  // The number of pages that a map takes, the last of them perhaps in part.
  function PageCount(g: Geometry, r: Region): nat
    requires ValidGeometry(g) && r.lo <= r.hi
  {
    (r.hi - r.lo + g.pageSize - 1) / g.pageSize
  }

  ghost predicate Covered(g: Geometry, r: Region, p: nat)
    requires ValidGeometry(g) && r.lo <= r.hi
  {
    Among(g, r.lo, PageCount(g, r), p)
  }

  // Table t with the map r added over what was there.
  ghost predicate Overlaid(g: Geometry, t: Table, r: Region, t': Table)
    requires ValidGeometry(g) && r.lo <= r.hi
  {
    forall p :: (p in t' <==> p in t || Covered(g, r, p)) && (p in t' ==> t'[p] == if Covered(g, r, p) then r else t[p])
  }

  lemma StepInside(lo: int, hi: int, ps: int, i: int)
    requires ps > 0
    ensures i < (hi - lo + ps - 1) / ps <==> lo + i * ps < hi
  {
    var k := hi - lo + ps - 1;
    var n := k / ps;
    assert n * ps <= k < n * ps + ps;
    MultipleOutside(n - i, ps);
    assert (n - i) * ps == n * ps - i * ps;
    MultipleOutside(i - n, ps);
    assert (i - n) * ps == i * ps - n * ps;
  }

  // Address a lies on the page that the i-th step from lo reaches.
  lemma SamePage(g: Geometry, lo: nat, i: nat, a: nat)
    requires ValidGeometry(g) && lo % g.pageSize == 0 && a < g.addressBound
    requires lo + i * g.pageSize <= a < lo + i * g.pageSize + g.pageSize
    ensures NthPage(g, lo, i) == PageOf(g, a) == lo / g.pageSize + i
    ensures (lo / g.pageSize + i) * g.pageSize == lo + i * g.pageSize
  {
    hide PageOf;
    var ps, q := g.pageSize, lo / g.pageSize;
    Aligned(lo, ps);
    Distribute(q, i, ps);
    var b := lo + i * ps;
    PageIs(g, b, q + i, 0);
    PageIs(g, a, q + i, a - b);
  }

  lemma Aligned(lo: int, ps: int)
    requires ps > 0
    ensures lo % ps == 0 <==> lo / ps * ps == lo
  {
  }

  lemma PageIs(g: Geometry, a: nat, q: nat, r: nat)
    requires ValidGeometry(g) && a < g.addressBound && a == q * g.pageSize + r && r < g.pageSize
    ensures PageOf(g, a) == q
  {
    DivModUnique(a, g.pageSize, q, r);
  }

  // Inside the address space, the pages that a map covers are those it has bytes on.
  lemma CoveredPages(g: Geometry, r: Region, a: nat)
    requires ValidGeometry(g) && ValidRegion(r) && r.lo % g.pageSize == 0 && r.lo <= a < r.hi <= g.addressBound
    ensures Covered(g, r, PageOf(g, a))
  {
    hide PageOf, NthPage;
    var i := (a - r.lo) / g.pageSize;
    assert i * g.pageSize <= a - r.lo < i * g.pageSize + g.pageSize by {
      assert (a - r.lo) == i * g.pageSize + (a - r.lo) % g.pageSize;
    }
    SamePage(g, r.lo, i, a);
    StepInside(r.lo, r.hi, g.pageSize, i);
  }

  // What an added map holds is visible at its addresses, and hides what was on its pages; the other pages
  // are as before.
  lemma AddedView(g: Geometry, t: Table, r: Region, t': Table, a: nat)
    requires ValidGeometry(g) && ValidTable(t) && ValidRegion(r) && Overlaid(g, t, r, t')
    ensures ValidTable(t')
    ensures Covered(g, r, PageOf(g, a)) ==>
      (a in FlatOf(g, t') <==> Inside(r, a)) && (Inside(r, a) ==> FlatOf(g, t')[a] == CellIn(r, a))
    ensures !Covered(g, r, PageOf(g, a)) ==>
      (a in FlatOf(g, t') <==> a in FlatOf(g, t)) && (a in FlatOf(g, t) ==> FlatOf(g, t')[a] == FlatOf(g, t)[a])
    ensures r.lo % g.pageSize == 0 && r.hi <= g.addressBound && Inside(r, a) ==> Covered(g, r, PageOf(g, a))
  {
    hide Covered, PageOf;
    if r.lo % g.pageSize == 0 && r.hi <= g.addressBound && Inside(r, a) {
      CoveredPages(g, r, a);
    }
  }

  lemma CoveredStart(g: Geometry, r: Region, p: nat)
    requires ValidGeometry(g) && ValidRegion(r) && r.lo % g.pageSize == 0 && r.hi <= g.addressBound
    requires Covered(g, r, p)
    ensures r.lo <= p * g.pageSize
  {
    hide PageOf, NthPage;
    var i: nat :| i < PageCount(g, r) && NthPage(g, r.lo, i) == p;
    StepInside(r.lo, r.hi, g.pageSize, i);
    SamePage(g, r.lo, i, r.lo + i * g.pageSize);
  }

  lemma AddedOrdinary(g: Geometry, t: Table, r: Region, t': Table)
    requires ValidGeometry(g) && ValidTable(t) && ValidRegion(r) && Overlaid(g, t, r, t') && Ordinary(g, t)
    requires r.lo % g.pageSize == 0 && r.hi <= g.addressBound
    ensures Ordinary(g, t')
  {
    hide Covered;
    forall p | p in t' && Covered(g, r, p)
      ensures r.lo <= p * g.pageSize
    {
      CoveredStart(g, r, p);
    }
  }

  // A load through one map has all its bytes exactly when they are all mapped. Otherwise it comes out
  // short, where a load byte by byte would raise an exception.
  lemma SizedLoadComplete(g: Geometry, t: Table, own: set<nat>, a: nat, n: nat)
    requires ValidGeometry(g) && ValidTable(t) && OneMap(g, t, own, a, n) && n > 0
    requires !t[PageOf(g, a)].isDefault ==> t[PageOf(g, a)].lo <= a
    ensures
      var r := LoadSlice(t[PageOf(g, a)], a, n);
      r.Some? && |r.value| == n <==> Mapped(FlatOf(g, t), a, n)
  {
    hide PageOf, FlatOf, LoadSlice;
    LoadIsFlat(g, t, own, a, n);
    FittingIsMapped(g, t, own, a, n);
  }

  // A map of six bytes, from which two are loaded at the last.
  lemma ShortLoad()
    ensures
      var r := Region(false, 0, 6, true, true, false, [1, 2, 3, 4, 5, 6]);
      ValidRegion(r) && LoadSlice(r, 5, 2) == Some([6]) && !Inside(r, 6)
  {
    var data: seq<byte> := [1, 2, 3, 4, 5, 6];
    assert data[5..6] == [6];
  }
}
