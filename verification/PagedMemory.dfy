/**
 The paged memory of microx/__init__.py: a page table of maps, with a fast path for accesses of 1, 2, 4 or 8
 bytes that stay in one map and a path byte by byte for the rest. It refines FlatMemory.

 A raised exception is None or false.
 */
module PagedMemory {
  import opened Bits
  import opened FlatMemory
  import F = FlatMemory
  import opened PageTables

  class MemoryMap {
    const isDefault: bool
    const lo: nat
    const hi: nat
    const canRead: bool
    const canWrite: bool
    const canExecute: bool
    var data: seq<byte>

    ghost function State(): Region
      reads this
    {
      Region(isDefault, lo, hi, canRead, canWrite, canExecute, data)
    }

    constructor Default()
      ensures State() == Region(true, 0, 0, false, false, false, [])
    {
      isDefault, lo, hi, canRead, canWrite, canExecute := true, 0, 0, false, false, false;
      data := [];
    }

    constructor Array(base: nat, limit: nat, readable: bool, writable: bool, executable: bool)
      requires base < limit
      ensures State() == Region(false, base, limit, readable, writable, executable, seq(limit - base, _ => 0))
    {
      isDefault, lo, hi, canRead, canWrite, canExecute := false, base, limit, readable, writable, executable;
      data := seq(limit - base, _ => 0);
    }

    // The range that its permissions apply to.
    predicate Allows(a: int) {
      !isDefault && lo <= a < hi
    }

    function LoadBytes(a: nat, n: nat): (r: Option<seq<byte>>)
      reads this
      ensures r == LoadSlice(State(), a, n)
    {
      if isDefault then None else Some(PySlice(data, a - lo, a - lo + n))
    }

    // Stops with an exception at the first byte that has no index, also when the map starts above it.
    method StoreBytes(a: nat, bs: seq<byte>) returns (ok: bool)
      requires ValidRegion(State())
      modifies this
      ensures ValidRegion(State())
      ensures isDefault ==> !ok && data == old(data)
      ensures !isDefault ==> Stored(data, ok) == StoreFrom(old(data), a - lo, bs)
    {
      if isDefault {
        return false;
      }
      var offset := a - lo;
      for j := 0 to |bs|
        invariant offset == a - lo + j && Stored(data, true) == StoreFrom(old(data), a - lo, bs[..j])
      {
        assert bs[..j + 1][..j] == bs[..j];
        var index := PyIndex(offset, |data|);
        if index == None {
          StopsAt(old(data), a - lo, bs, j + 1);
          return false;
        }
        data := data[index.value := bs[j]];
        offset := offset + 1;
      }
      assert bs[..|bs|] == bs;
      ok := true;
    }
  }

  lemma StoredInRegion(r: Region, a: nat, bs: seq<byte>)
    requires ValidRegion(r) && !r.isDefault && r.lo <= a
    ensures
      var k := Fitting(r.hi, a, |bs|);
      StoreFrom(r.data, a - r.lo, bs) == Stored(
        if k == 0 then r.data else Patched(r.data, a - r.lo, bs[..k]), k == |bs|)
  {
    StoredBytes(r.data, a - r.lo, bs);
  }

  // Which objects the table refers to

  ghost predicate Grown(before: map<nat, MemoryMap>, after: map<nat, MemoryMap>) {
    && before.Keys <= after.Keys
    && (forall p :: p in before ==> after[p] == before[p])
    && forall p :: p in after && p !in before ==> after[p].isDefault
  }

  lemma GrownSame(t: map<nat, MemoryMap>)
    ensures Grown(t, t)
  {
  }

  lemma GrownValues(before: map<nat, MemoryMap>, after: map<nat, MemoryMap>)
    requires Grown(before, after)
    ensures before.Values <= after.Values
  {
  }

  lemma GrownTransitive(t0: map<nat, MemoryMap>, t1: map<nat, MemoryMap>, t2: map<nat, MemoryMap>)
    requires Grown(t0, t1) && Grown(t1, t2)
    ensures Grown(t0, t2)
  {
  }

  // What bytes written at any addresses do to the data of the maps

  type Datas = map<MemoryMap, seq<byte>>

  // The maps hold these data.
  ghost predicate Hold(ds: Datas)
    reads ds.Keys
  {
    forall m :: m in ds ==> m.data == ds[m]
  }

  ghost predicate Extends(ds: Datas, more: Datas) {
    ds.Keys <= more.Keys && forall m :: m in ds ==> more[m] == ds[m]
  }

  lemma HoldLess(ds: Datas, more: Datas)
    requires Extends(ds, more) && Hold(more)
    ensures Hold(ds)
  {
  }

  datatype Taken = Taken(datas: Datas, ok: bool)

  // One byte, written where Python's index is in the map on its page.
  ghost function TakeByte(g: Geometry, maps: map<nat, MemoryMap>, ds: Datas, a: nat, b: byte): (r: Taken)
    requires ValidGeometry(g) && maps.Values <= ds.Keys
    ensures r.datas.Keys == ds.Keys
  {
    var p := PageOf(g, a);
    if p !in maps || maps[p].isDefault then Taken(ds, false)
    else
      var m := maps[p];
      var i := PyIndex(a - m.lo, |ds[m]|);
      if i == None then Taken(ds, false)
      else
        var data: seq<byte> := ds[m][i.value := b];
        Taken(ds[m := data], true)
  }

  // Bytes one by one, up to the first that has no place.
  ghost function TakeAll(g: Geometry, maps: map<nat, MemoryMap>, ds: Datas, a: nat, bs: seq<byte>): (r: Taken)
    requires ValidGeometry(g) && maps.Values <= ds.Keys
    ensures r.datas.Keys == ds.Keys
  {
    if bs == [] then Taken(ds, true)
    else
      var last := |bs| - 1;
      var r := TakeAll(g, maps, ds, a, bs[..last]);
      if r.ok then TakeByte(g, maps, r.datas, a + last, bs[last]) else r
  }

  // Default maps on further pages do not matter.
  lemma TakeByteGrown(g: Geometry, maps: map<nat, MemoryMap>, later: map<nat, MemoryMap>, ds: Datas, more: Datas,
                      a: nat, b: byte)
    requires ValidGeometry(g) && maps.Values <= ds.Keys && later.Values <= more.Keys
    requires Grown(maps, later) && Extends(ds, more)
    ensures
      var r, r' := TakeByte(g, maps, ds, a, b), TakeByte(g, later, more, a, b);
      r.ok == r'.ok && Extends(r.datas, r'.datas)
  {
    hide PageOf;
  }

  lemma {:induction false} TakeGrown(g: Geometry, maps: map<nat, MemoryMap>, later: map<nat, MemoryMap>, ds: Datas,
                                     more: Datas, a: nat, bs: seq<byte>)
    requires ValidGeometry(g) && maps.Values <= ds.Keys && later.Values <= more.Keys
    requires Grown(maps, later) && Extends(ds, more)
    ensures
      var r, r' := TakeAll(g, maps, ds, a, bs), TakeAll(g, later, more, a, bs);
      r.ok == r'.ok && Extends(r.datas, r'.datas)
  {
    hide TakeByte, Grown, Extends;
    if bs != [] {
      var last := |bs| - 1;
      TakeGrown(g, maps, later, ds, more, a, bs[..last]);
      var r, r' := TakeAll(g, maps, ds, a, bs[..last]), TakeAll(g, later, more, a, bs[..last]);
      TakeByteGrown(g, maps, later, r.datas, r'.datas, a + last, bs[last]);
    }
  }

  // One byte more of a list.
  lemma TakeMore(g: Geometry, maps: map<nat, MemoryMap>, later: map<nat, MemoryMap>, ds: Datas, more: Datas, a: nat,
                 bs: seq<byte>, i: nat)
    requires ValidGeometry(g) && maps.Values <= ds.Keys && later.Values <= more.Keys && i < |bs|
    requires TakeAll(g, maps, ds, a, bs[..i]).ok
    requires Grown(maps, later) && Extends(TakeAll(g, maps, ds, a, bs[..i]).datas, more)
    ensures
      var r, r' := TakeAll(g, maps, ds, a, bs[..i + 1]), TakeByte(g, later, more, a + i, bs[i]);
      r.ok == r'.ok && Extends(r.datas, r'.datas)
  {
    hide TakeByte, Grown, Extends;
    assert bs[..i + 1][..i] == bs[..i];
    TakeByteGrown(g, maps, later, TakeAll(g, maps, ds, a, bs[..i]).datas, more, a + i, bs[i]);
  }

  lemma {:induction false} TakeStops(g: Geometry, maps: map<nat, MemoryMap>, ds: Datas, a: nat, bs: seq<byte>, i: nat)
    requires ValidGeometry(g) && maps.Values <= ds.Keys && i <= |bs| && !TakeAll(g, maps, ds, a, bs[..i]).ok
    ensures TakeAll(g, maps, ds, a, bs) == TakeAll(g, maps, ds, a, bs[..i])
    decreases |bs|
  {
    hide TakeByte;
    if i == |bs| {
      assert bs[..i] == bs;
    } else {
      var init := bs[..|bs| - 1];
      assert init[..i] == bs[..i];
      TakeStops(g, maps, ds, a, init, i);
    }
  }

  lemma TakeNone(g: Geometry, maps: map<nat, MemoryMap>, ds: Datas, a: nat, bs: seq<byte>)
    requires ValidGeometry(g) && maps.Values <= ds.Keys
    ensures TakeAll(g, maps, ds, a, bs[..0]) == Taken(ds, true)
  {
  }

  lemma TakeOne(g: Geometry, maps: map<nat, MemoryMap>, ds: Datas, a: nat, b: byte)
    requires ValidGeometry(g) && maps.Values <= ds.Keys
    ensures TakeAll(g, maps, ds, a, [b]) == TakeByte(g, maps, ds, a, b)
  {
    hide TakeByte;
    assert [b][..0] == [];
  }

  // Written through one map, they are its data with the bytes stored.
  lemma {:induction false} TakeThrough(g: Geometry, maps: map<nat, MemoryMap>, ds: Datas, m: MemoryMap, a: nat,
                                       bs: seq<byte>)
    requires ValidGeometry(g) && maps.Values <= ds.Keys && AllOnPages(g, maps, m, a, |bs|) && bs != []
    ensures
      var r := TakeAll(g, maps, ds, a, bs);
      if m.isDefault then r == Taken(ds, false)
      else
        var s := StoreFrom(ds[m], a - m.lo, bs);
        r == Taken(ds[m := s.data], s.ok)
  {
    hide PageOf, PyIndex;
    var last := |bs| - 1;
    assert OnPage(g, maps, m, a + last);
    if last == 0 {
      assert bs[..last] == [];
      assert ds[m := ds[m]] == ds;
    } else {
      TakeThrough(g, maps, ds, m, a, bs[..last]);
    }
  }

  // The first n pages that m is stepped onto refer to it, and the others to what they did before.
  ghost predicate PagesSet(g: Geometry, before: map<nat, MemoryMap>, after: map<nat, MemoryMap>, m: MemoryMap, n: nat)
    requires ValidGeometry(g)
  {
    forall p: nat ::
      && (p in after <==> p in before || Among(g, m.lo, n, p))
      && (p in after ==> after[p] == if Among(g, m.lo, n, p) then m else before[p])
  }

  lemma PagesSetNone(g: Geometry, maps: map<nat, MemoryMap>, m: MemoryMap)
    requires ValidGeometry(g)
    ensures PagesSet(g, maps, maps, m, 0)
  {
  }

  lemma PagesSetMore(g: Geometry, before: map<nat, MemoryMap>, after: map<nat, MemoryMap>, m: MemoryMap, n: nat)
    requires ValidGeometry(g) && PagesSet(g, before, after, m, n)
    ensures PagesSet(g, before, after[PageOf(g, m.lo + n * g.pageSize) := m], m, n + 1)
  {
    hide PageOf, Among;
    forall p: nat { AmongMore(g, m.lo, n, p); }
  }

  ghost predicate OnPage(g: Geometry, maps: map<nat, MemoryMap>, m: MemoryMap, a: nat)
    requires ValidGeometry(g)
  {
    PageOf(g, a) in maps && maps[PageOf(g, a)] == m
  }

  // The n bytes from a on, and a in any case, are on pages of one map.
  ghost predicate OneMapOn(g: Geometry, maps: map<nat, MemoryMap>, a: nat, n: nat)
    requires ValidGeometry(g)
  {
    PageOf(g, a) in maps && AllOnPages(g, maps, maps[PageOf(g, a)], a, n)
  }

  // Two of them are on pages of different maps.
  ghost predicate TwoMaps(g: Geometry, maps: map<nat, MemoryMap>, a: nat, n: nat)
    requires ValidGeometry(g)
  {
    && PageOf(g, a) in maps
    && exists k :: a < k < a + n && PageOf(g, k) in maps && maps[PageOf(g, k)] != maps[PageOf(g, a)]
  }

  lemma MeansTwo(g: Geometry, maps: map<nat, MemoryMap>, a: nat, n: nat, m: MemoryMap, k: nat, other: MemoryMap)
    requires ValidGeometry(g) && a < k < a + n && m != other && OnPage(g, maps, m, a) && OnPage(g, maps, other, k)
    ensures TwoMaps(g, maps, a, n)
  {
    hide PageOf;
  }

  lemma NotOneMap(g: Geometry, before: map<nat, MemoryMap>, maps: map<nat, MemoryMap>, a: nat, n: nat)
    requires ValidGeometry(g) && Grown(before, maps) && TwoMaps(g, before, a, n)
    ensures !OneMapOn(g, maps, a, n)
  {
    hide PageOf;
    var k :| a < k < a + n && PageOf(g, k) in before && before[PageOf(g, k)] != before[PageOf(g, a)];
    assert OneMapOn(g, maps, a, n) ==> OnPage(g, maps, maps[PageOf(g, a)], k);
  }

  lemma OnPageLater(g: Geometry, before: map<nat, MemoryMap>, after: map<nat, MemoryMap>, m: MemoryMap, a: nat)
    requires ValidGeometry(g) && Grown(before, after) && OnPage(g, before, m, a)
    ensures OnPage(g, after, m, a)
  {
  }

  // All n bytes from a on are on pages of the map m, and a is in any case.
  ghost predicate AllOnPages(g: Geometry, maps: map<nat, MemoryMap>, m: MemoryMap, a: nat, n: nat)
    requires ValidGeometry(g)
  {
    OnPage(g, maps, m, a) && forall i :: a <= i < a + n ==> OnPage(g, maps, m, i)
  }

  lemma AllOnNone(g: Geometry, maps: map<nat, MemoryMap>, m: MemoryMap, a: nat)
    requires ValidGeometry(g) && OnPage(g, maps, m, a)
    ensures AllOnPages(g, maps, m, a, 1)
  {
  }

  lemma OnItsPage(g: Geometry, maps: map<nat, MemoryMap>, m: MemoryMap, a: nat, n: nat)
    requires ValidGeometry(g) && AllOnPages(g, maps, m, a, n)
    ensures m in maps.Values
  {
  }

  lemma AllOnMore(g: Geometry, maps: map<nat, MemoryMap>, m: MemoryMap, a: nat, n: nat)
    requires ValidGeometry(g) && AllOnPages(g, maps, m, a, n) && OnPage(g, maps, m, a + n)
    ensures AllOnPages(g, maps, m, a, n + 1)
  {
    hide OnPage;
  }

  lemma AllOnFewer(g: Geometry, maps: map<nat, MemoryMap>, m: MemoryMap, a: nat, n: nat, n': nat)
    requires ValidGeometry(g) && AllOnPages(g, maps, m, a, n) && n' <= n
    ensures AllOnPages(g, maps, m, a, n')
  {
    hide OnPage;
  }

  lemma AllOnLater(g: Geometry, before: map<nat, MemoryMap>, after: map<nat, MemoryMap>, m: MemoryMap, a: nat, n: nat)
    requires ValidGeometry(g) && Grown(before, after) && AllOnPages(g, before, m, a, n)
    ensures AllOnPages(g, after, m, a, n)
  {
    hide OnPage, Grown;
    OnPageLater(g, before, after, m, a);
    forall i | a <= i < a + n
      ensures OnPage(g, after, m, i)
    {
      OnPageLater(g, before, after, m, i);
    }
  }

  lemma SameFound(g: Geometry, maps: map<nat, MemoryMap>, m: MemoryMap, found: MemoryMap, a: nat, n: nat)
    requires ValidGeometry(g) && AllOnPages(g, maps, m, a, n) && OnPage(g, maps, found, a)
    ensures found == m
  {
  }

  class Memory {
    const addressBound: nat
    const pageShift: nat
    var maps: map<nat, MemoryMap>

    constructor (addressSize: nat, shift: nat)
      requires addressSize in {32, 64} && 0 < shift < 32
      ensures Valid() && IsOrdinary() && View() == imap[]
      ensures Geom() == Geometry(if addressSize == 32 then B32 else B64, Pow2(shift)) && maps == map[]
    {
      addressBound := if addressSize == 32 then B32 else B64;
      pageShift := shift;
      maps := map[];
    }

    ghost function Geom(): Geometry {
      Geometry(addressBound, Pow2(pageShift))
    }

    function Page(a: nat): (p: nat)
      requires ValidGeometry(Geom())
      ensures p == PageOf(Geom(), a)
    {
      PageNumber(a, addressBound, Pow2(pageShift))
    }

    ghost function Tab(): Table
      reads this, maps.Values
    {
      map p | p in maps :: maps[p].State()
    }

    ghost predicate Valid()
      reads this, maps.Values
    {
      ValidGeometry(Geom()) && ValidTable(Tab())
    }

    ghost predicate IsOrdinary()
      reads this, maps.Values
    {
      Ordinary(Geom(), Tab())
    }

    // The flat memory that this one stands for.
    ghost function View(): (m: Flat)
      requires Valid()
      reads this, maps.Values
    {
      FlatOf(Geom(), Tab())
    }

    // The data of all maps.
    ghost function Held(): (ds: Datas)
      reads this, maps.Values
      ensures ds.Keys == maps.Values && Hold(ds)
    {
      map m | m in maps.Values :: m.data
    }

    // What storing bytes at any addresses comes to.
    ghost function Takes(a: nat, bs: seq<byte>): (r: Taken)
      requires Valid()
      reads this, maps.Values
      ensures r.datas.Keys == maps.Values
    {
      TakeAll(Geom(), maps, Held(), a, bs)
    }

    ghost function Own(m: MemoryMap): set<nat>
      reads this
    {
      set p | p in maps && maps[p] == m
    }

    // A lookup leaves a default map behind on a page that has none, which nothing else can tell.
    method FindMap(a: nat) returns (found: MemoryMap)
      requires Valid()
      modifies this`maps
      ensures Valid() && View() == old(View()) && BoundsKept(old(Tab()), Tab())
      ensures Grown(old(maps), maps) && fresh(maps.Values - old(maps.Values))
      ensures OnPage(Geom(), maps, found, a)
      ensures TableGrown(old(Tab()), Tab())
    {
      hide PageOf, FlatOf, BoundsKept, TableGrown;
      BoundsSame(Tab());
      var p := Page(a);
      if p !in maps {
        found := new MemoryMap.Default();
        maps := maps[p := found];
        assert Tab() == old(Tab())[p := found.State()];
        DefaultUnseen(Geom(), old(Tab()), p, found.State());
      }
      found := maps[p];
    }

    // No byte of the range is on a page of a map that starts above it.
    ghost predicate Regular(a: nat, n: nat)
      requires Valid()
      reads this, maps.Values
    {
      Starts(Geom(), Tab(), a, n)
    }

    // So it is if no map reaches beyond the address space, or all the bytes are mapped.
    lemma RangeIsRegular(a: nat, n: nat)
      requires Valid() && (IsOrdinary() || Mapped(View(), a, n))
      ensures Regular(a, n)
    {
      hide PageOf, Ordinary, FlatOf, Starts;
      RangesStart(Geom(), Tab(), a, n);
    }

    lemma RegularLater(t: Table, a: nat, n: nat, b: nat, k: nat)
      requires Valid() && ValidGeometry(Geom()) && BoundsKept(t, Tab())
      requires Starts(Geom(), t, a, n) && a <= b && b + k <= a + n
      ensures Regular(b, k)
    {
      hide PageOf, Starts;
      StartsKept(Geom(), t, Tab(), a, n, b, k);
    }

    // Maps are told apart by identity; the pages looked at get default maps.
    method CrossesPages(a: nat, n: nat) returns (crosses: bool)
      requires Valid()
      modifies this`maps
      ensures Valid() && View() == old(View()) && BoundsKept(old(Tab()), Tab())
      ensures Grown(old(maps), maps) && fresh(maps.Values - old(maps.Values))
      ensures !crosses ==> exists m :: AllOnPages(Geom(), maps, m, a, n)
      ensures crosses ==> TwoMaps(Geom(), maps, a, n)
    {
      hide PageOf, FlatOf, BoundsKept, View, Valid, Tab, Starts, Grown, OnPage;
      GeometryIs();
      ghost var t0 := Tab();
      var first := FindMap(a);
      var i := 1;
      AllOnNone(Geom(), maps, first, a);
      while i < n
        invariant 1 <= i && (n > 1 ==> i <= n)
        invariant Valid() && View() == old(View()) && BoundsKept(old(Tab()), Tab())
        invariant Grown(old(maps), maps) && fresh(maps.Values - old(maps.Values))
        invariant OnPage(Geom(), maps, first, a) && AllOnPages(Geom(), maps, first, a, i)
      {
        ghost var before, t := maps, Tab();
        var other := FindMap(a + i);
        GrownTransitive(old(maps), before, maps);
        BoundsTransitive(t0, t, Tab());
        OnPageLater(Geom(), before, maps, first, a);
        AllOnLater(Geom(), before, maps, first, a, i);
        if other != first {
          MeansTwo(Geom(), maps, a, n, first, a + i, other);
          return true;
        }
        AllOnMore(Geom(), maps, first, a, i);
        i := i + 1;
      }
      crosses := false;
      AllOnFewer(Geom(), maps, first, a, i, n);
    }

    // What is loaded through one map: the mapped bytes up to the first that is not.
    lemma LoadedView(m: MemoryMap, a: nat, n: nat)
      requires Valid() && Regular(a, n) && n > 0
      requires ValidGeometry(Geom()) && AllOnPages(Geom(), maps, m, a, n)
      ensures
        var r := m.LoadBytes(a, n);
        && (r == None ==> !Mapped(View(), a, n))
        && (r.Some? ==> r.value == BytesAt(View(), a, MappedPrefix(View(), a, n)))
    {
      hide PageOf, Ordinary, MappedPrefix, LoadSlice;
      OneMapOwned(m, a, n);
      RegularStart(m, a, n);
      LoadIsFlat(Geom(), Tab(), Own(m), a, n);
      FittingIsMapped(Geom(), Tab(), Own(m), a, n);
    }

    lemma OneMapOwned(m: MemoryMap, a: nat, n: nat)
      requires Valid() && ValidGeometry(Geom()) && AllOnPages(Geom(), maps, m, a, n)
      ensures OneMap(Geom(), Tab(), Own(m), a, n)
      ensures Tab()[PageOf(Geom(), a)] == m.State()
    {
      hide PageOf;
      forall i | a <= i < a + n
        ensures PageOf(Geom(), i) in Own(m)
      {
        assert OnPage(Geom(), maps, m, i);
      }
    }

    lemma RegularStart(m: MemoryMap, a: nat, n: nat)
      requires Valid() && Regular(a, n) && n > 0 && ValidGeometry(Geom()) && OnPage(Geom(), maps, m, a)
      ensures !m.isDefault ==> m.lo <= a
    {
      hide PageOf;
      assert Tab()[PageOf(Geom(), a)] == m.State();
    }

    method LoadSized(a: nat, n: nat, ghost m: MemoryMap) returns (r: Option<seq<byte>>)
      requires Valid() && n > 0 && ValidGeometry(Geom()) && AllOnPages(Geom(), maps, m, a, n)
      modifies this`maps
      ensures Valid() && View() == old(View()) && BoundsKept(old(Tab()), Tab())
      ensures Grown(old(maps), maps) && fresh(maps.Values - old(maps.Values))
      ensures old(Regular(a, n)) && r == None ==> !Mapped(View(), a, n)
      ensures old(Regular(a, n)) && r.Some? ==> r.value == BytesAt(View(), a, MappedPrefix(View(), a, n))
      ensures AllOnPages(Geom(), maps, m, a, n) && r == LoadSlice(m.State(), a, n)
    {
      hide PageOf, FlatOf, BoundsKept, View, Valid, Tab, Starts, Grown, OnPage, AllOnPages, Mapped, MappedPrefix;
      hide LoadSlice;
      ghost var t0 := Tab();
      var found := FindMap(a);
      AllOnLater(Geom(), old(maps), maps, m, a, n);
      SameFound(Geom(), maps, m, found, a, n);
      r := found.LoadBytes(a, n);
      GeometryIs();
      if old(Regular(a, n)) {
        RegularLater(t0, a, n, a, n);
        LoadedView(m, a, n);
      }
    }

    lemma FoundIs(m: MemoryMap, a: nat)
      requires Valid() && ValidGeometry(Geom()) && OnPage(Geom(), maps, m, a)
      ensures PageOf(Geom(), a) in Tab() && Tab()[PageOf(Geom(), a)] == m.State() && ValidRegion(m.State())
    {
      hide PageOf;
    }

    // At any address, the map on its page may give a byte counted from its end.
    method LoadByte(a: nat) returns (r: Option<byte>)
      requires Valid()
      modifies this`maps
      ensures Valid() && View() == old(View()) && BoundsKept(old(Tab()), Tab())
      ensures Grown(old(maps), maps) && fresh(maps.Values - old(maps.Values))
      ensures old(Regular(a, 1)) ==> r == if a in View() then Some(View()[a].value) else None
      ensures ValidGeometry(Geom()) && ValidTable(Tab()) && r == GivenAt(Geom(), Tab(), a)
      ensures TableGrown(old(Tab()), Tab())
    {
      hide PageOf, FlatOf, BoundsKept, View, Valid, Tab, Starts, Grown, OnPage, LoadSlice, Slices, Given, TableGrown;
      GeometryIs();
      ghost var t0 := Tab();
      var found := FindMap(a);
      AllOnNone(Geom(), maps, found, a);
      var one := found.LoadBytes(a, 1);
      GeometryIs();
      FoundIs(found, a);
      SliceExactly(found.State(), a);
      if old(Regular(a, 1)) {
        RegularLater(t0, a, 1, a, 1);
        LoadedView(found, a, 1);
      }
      r := if one == None || |one.value| == 0 then None else Some(one.value[0]);
    }

    // What a load gives at any addresses: through one map, a slice of it; else the bytes that the maps give.
    ghost predicate Gives(a: nat, n: nat, r: Option<seq<byte>>)
      requires ValidGeometry(Geom()) && ValidTable(Tab())
      reads this, maps.Values
    {
      if n in {1, 2, 4, 8} && OneMapOn(Geom(), maps, a, n) then r == LoadSlice(Tab()[PageOf(Geom(), a)], a, n)
      else if r.Some? then |r.value| == n && GivenFrom(Geom(), Tab(), a, r.value)
      else exists i :: a <= i < a + n && GivenAt(Geom(), Tab(), i) == None
    }

    lemma GivesThrough(a: nat, n: nat, r: Option<seq<byte>>, m: MemoryMap)
      requires ValidGeometry(Geom()) && ValidTable(Tab()) && n in {1, 2, 4, 8}
      requires AllOnPages(Geom(), maps, m, a, n) && r == LoadSlice(m.State(), a, n)
      ensures Gives(a, n, r)
    {
      hide LoadSlice, PageOf, GivenFrom, GivenAt;
    }

    lemma GivesEach(a: nat, n: nat, r: Option<seq<byte>>)
      requires ValidGeometry(Geom()) && ValidTable(Tab())
      requires n !in {1, 2, 4, 8} || !OneMapOn(Geom(), maps, a, n)
      requires r.Some? ==> |r.value| == n && GivenFrom(Geom(), Tab(), a, r.value)
      requires r == None ==> exists i :: a <= i < a + n && GivenAt(Geom(), Tab(), i) == None
      ensures Gives(a, n, r)
    {
      hide LoadSlice, PageOf, GivenFrom, GivenAt, Tab;
    }

    // Loads the n bytes from a on, if they are mapped. Through a single map the load may instead come out
    // short; it then has the mapped bytes up to the first that is not.
    method Load(a: nat, n: nat) returns (r: Option<seq<byte>>)
      requires Valid()
      modifies this`maps
      ensures Valid() && View() == old(View()) && BoundsKept(old(Tab()), Tab())
      ensures Grown(old(maps), maps) && fresh(maps.Values - old(maps.Values))
      ensures old(Regular(a, n)) && r == None ==> !Mapped(View(), a, n)
      ensures old(Regular(a, n)) && r.Some? ==> r.value == BytesAt(View(), a, MappedPrefix(View(), a, n))
      ensures ValidGeometry(Geom()) && ValidTable(Tab()) && Gives(a, n, r)
    {
      hide PageOf, FlatOf, BoundsKept, View, Valid, Tab, Starts, Grown, OnPage, AllOnPages, MappedPrefix, Gives;
      hide LoadSlice, GivenFrom, GivenAt, TwoMaps;
      GeometryIs();
      GrownSame(maps);
      BoundsSame(Tab());
      ghost var t0, regular := Tab(), Regular(a, n);
      var sized := n in {1, 2, 4, 8};
      if sized {
        var crosses := CrossesPages(a, n);
        sized := !crosses;
      }
      ghost var before, t := maps, Tab();
      if regular {
        RegularLater(t0, a, n, a, n);
      }
      if sized {
        ghost var m :| AllOnPages(Geom(), maps, m, a, n);
        r := LoadSized(a, n, m);
        GeometryIs();
        GivesThrough(a, n, r, m);
      } else {
        r := LoadBytewise(a, n);
        if n in {1, 2, 4, 8} {
          NotOneMap(Geom(), before, maps, a, n);
        }
        GivesEach(a, n, r);
      }
      GrownTransitive(old(maps), before, maps);
      BoundsTransitive(t0, t, Tab());
    }

    method LoadBytewise(a: nat, n: nat) returns (r: Option<seq<byte>>)
      requires Valid()
      modifies this`maps
      ensures Valid() && View() == old(View()) && BoundsKept(old(Tab()), Tab())
      ensures Grown(old(maps), maps) && fresh(maps.Values - old(maps.Values))
      ensures old(Regular(a, n)) && r == None ==> !Mapped(View(), a, n)
      ensures old(Regular(a, n)) && r.Some? ==> Mapped(View(), a, n) && r.value == BytesAt(View(), a, n)
      ensures ValidGeometry(Geom()) && ValidTable(Tab())
      ensures r.Some? ==> |r.value| == n && GivenFrom(Geom(), Tab(), a, r.value)
      ensures r == None ==> exists i :: a <= i < a + n && GivenAt(Geom(), Tab(), i) == None
    {
      hide PageOf, FlatOf, BoundsKept, View, Valid, Tab, Starts, Grown, OnPage, AllOnPages, MappedPrefix;
      hide GivenAt, TableGrown;
      GeometryIs();
      GrownSame(maps);
      BoundsSame(Tab());
      ghost var t0 := Tab();
      var loaded: seq<byte> := [];
      var i := 0;
      while i < n
        invariant i <= n
        invariant Valid() && View() == old(View()) && BoundsKept(old(Tab()), Tab())
        invariant Grown(old(maps), maps) && fresh(maps.Values - old(maps.Values))
        invariant ValidGeometry(Geom()) && ValidTable(Tab()) && |loaded| == i && GivenFrom(Geom(), Tab(), a, loaded)
        invariant old(Regular(a, n)) ==> Mapped(View(), a, i) && loaded == BytesAt(View(), a, i)
      {
        ghost var before, t := maps, Tab();
        if old(Regular(a, n)) {
          RegularLater(t0, a, n, a + i, 1);
        }
        var one := LoadByte(a + i);
        GrownTransitive(old(maps), before, maps);
        BoundsTransitive(t0, t, Tab());
        GivenStill(Geom(), t, Tab(), a, loaded);
        if one == None {
          return None;
        }
        loaded := loaded + [one.value];
        i := i + 1;
      }
      r := Some(loaded);
    }

    method StoreSized(a: nat, bs: seq<byte>, ghost m: MemoryMap) returns (ok: bool)
      requires Valid() && |bs| > 0 && ValidGeometry(Geom()) && AllOnPages(Geom(), maps, m, a, |bs|)
      modifies this`maps, maps.Values
      ensures Valid() && BoundsKept(old(Tab()), Tab())
      ensures Grown(old(maps), maps) && fresh(maps.Values - old(maps.Values))
      ensures old(Regular(a, |bs|)) ==>
        var k := MappedPrefix(old(View()), a, |bs|);
        ok == (k == |bs|) && View() == F.Store(old(View()), a, bs[..k])
      ensures ok == old(Takes(a, bs)).ok && Hold(old(Takes(a, bs)).datas)
    {
      hide PageOf, FlatOf, BoundsKept, View, Valid, Tab, Starts, MappedPrefix, F.Store, TakeAll, Held, Hold, Extends;
      GeometryIs();
      ghost var t0, before, held := Tab(), maps, Held();
      var found := FindMap(a);
      AllOnLater(Geom(), old(maps), maps, m, a, |bs|);
      SameFound(Geom(), maps, m, found, a, |bs|);
      ghost var t := Tab();
      if old(Regular(a, |bs|)) {
        RegularLater(t0, a, |bs|, a, |bs|);
      }
      GrownValues(before, maps);
      HeldExtends(held);
      TakeGrown(Geom(), before, maps, held, Held(), a, bs);
      ghost var now := Held();
      ok := StoreThrough(found, a, bs);
      HoldLess(TakeAll(Geom(), before, held, a, bs).datas, TakeAll(Geom(), maps, now, a, bs).datas);
      BoundsTransitive(t0, t, Tab());
    }

    method StoreInMap(m: MemoryMap, a: nat, bs: seq<byte>) returns (ok: bool)
      requires Valid() && |bs| > 0 && ValidGeometry(Geom()) && AllOnPages(Geom(), maps, m, a, |bs|)
      modifies m
      ensures Valid() && BoundsKept(old(Tab()), Tab())
      ensures old(Regular(a, |bs|)) ==>
        var k := MappedPrefix(old(View()), a, |bs|);
        ok == (k == |bs|) && View() == F.Store(old(View()), a, bs[..k])
      ensures m.isDefault ==> !ok && m.data == old(m.data)
      ensures !m.isDefault ==> Stored(m.data, ok) == old(StoreFrom(m.data, a - m.lo, bs))
    {
      hide PageOf, FlatOf, MappedPrefix, Patched, StoreFrom;
      OneMapOwned(m, a, |bs|);
      if Regular(a, |bs|) {
        RegularStart(m, a, |bs|);
      }
      if !m.isDefault && m.lo <= a {
        StoredInRegion(m.State(), a, bs);
      }
      ok := m.StoreBytes(a, bs);
      if old(Regular(a, |bs|)) {
        var k := if m.isDefault then 0 else Fitting(m.hi, a, |bs|);
        StoreThroughMap(Geom(), old(Tab()), Tab(), Own(m), a, bs, k);
      }
    }

    // The same at any addresses.
    method StoreThrough(m: MemoryMap, a: nat, bs: seq<byte>) returns (ok: bool)
      requires Valid() && |bs| > 0 && ValidGeometry(Geom()) && AllOnPages(Geom(), maps, m, a, |bs|)
      modifies m
      ensures Valid() && BoundsKept(old(Tab()), Tab())
      ensures old(Regular(a, |bs|)) ==>
        var k := MappedPrefix(old(View()), a, |bs|);
        ok == (k == |bs|) && View() == F.Store(old(View()), a, bs[..k])
      ensures ok <==> !m.isDefault && old(StoreFrom(m.data, a - m.lo, bs).ok)
      ensures var r := TakeAll(Geom(), maps, old(Held()), a, bs); ok == r.ok && Hold(r.datas)
    {
      hide PageOf, BoundsKept, View, Valid, Tab, Starts, MappedPrefix, F.Store, StoreFrom, OnPage, TakeAll, Held;
      hide AllOnPages;
      ghost var held := Held();
      OnItsPage(Geom(), maps, m, a, |bs|);
      TakeThrough(Geom(), maps, held, m, a, bs);
      ok := StoreInMap(m, a, bs);
    }

    lemma HeldExtends(ds: Datas)
      requires Hold(ds) && ds.Keys <= maps.Values
      ensures Extends(ds, Held())
    {
    }

    method StoreByteInMap(m: MemoryMap, a: nat, b: byte) returns (ok: bool)
      requires Valid() && ValidGeometry(Geom()) && OnPage(Geom(), maps, m, a)
      modifies m
      ensures Valid() && BoundsKept(old(Tab()), Tab())
      ensures old(Regular(a, 1)) ==>
        ok == (a in old(View())) && View() == if ok then F.Store(old(View()), a, [b]) else old(View())
      ensures var r := TakeByte(Geom(), maps, old(Held()), a, b); ok == r.ok && Hold(r.datas)
      ensures ok <==> PageOf(Geom(), a) in Tab() && Indexes(Tab()[PageOf(Geom(), a)], a)
    {
      hide PageOf, FlatOf, BoundsKept, View, Valid, Tab, Starts, MappedPrefix, F.Store, StoreFrom, Indexes, OnPage;
      hide Held, TakeByte, TakeAll, Hold;
      AllOnNone(Geom(), maps, m, a);
      FoundIs(m, a);
      ghost var region := m.State();
      if !m.isDefault {
        IndexExactly(region, a, b);
      }
      TakeOne(Geom(), maps, Held(), a, b);
      ok := StoreThrough(m, a, [b]);
      FoundIs(m, a);
      SameIndexes(region, m.State(), a);
      NoBytesStored(old(View()), a, [b]);
    }

    // At any address, the map on its page may take a byte counted from its end.
    method StoreByte(a: nat, b: byte) returns (ok: bool)
      requires Valid()
      modifies this`maps, maps.Values
      ensures Valid() && BoundsKept(old(Tab()), Tab())
      ensures Grown(old(maps), maps) && fresh(maps.Values - old(maps.Values))
      ensures old(Regular(a, 1)) ==>
        ok == (a in old(View())) && View() == if ok then F.Store(old(View()), a, [b]) else old(View())
      ensures ValidGeometry(Geom()) && (ok <==> PageOf(Geom(), a) in Tab() && Indexes(Tab()[PageOf(Geom(), a)], a))
      ensures var r := TakeByte(Geom(), old(maps), old(Held()), a, b); ok == r.ok && Hold(r.datas)
    {
      hide PageOf, FlatOf, BoundsKept, View, Valid, Tab, Starts, F.Store, Indexes, TakeByte, Held, Hold, Grown, Extends;
      GeometryIs();
      ghost var t0, before, held := Tab(), maps, Held();
      var found := FindMap(a);
      GrownValues(before, maps);
      HeldExtends(held);
      TakeByteGrown(Geom(), before, maps, held, Held(), a, b);
      ghost var t, now := Tab(), Held();
      if old(Regular(a, 1)) {
        RegularLater(t0, a, 1, a, 1);
      }
      ok := StoreByteInMap(found, a, b);
      HoldLess(TakeByte(Geom(), before, held, a, b).datas, TakeByte(Geom(), maps, now, a, b).datas);
      BoundsTransitive(t0, t, Tab());
    }

    // Some bytes of a list have been stored: into the view m, if the list is regular, and into the data that
    // were held.
    ghost predicate StoredSoFar(t: Table, before: map<nat, MemoryMap>, held: Datas, m: Flat, regular: bool, a: nat,
                                bs: seq<byte>)
      requires ValidGeometry(Geom()) && before.Values == held.Keys
      reads this, maps.Values, held.Keys
    {
      && Valid() && BoundsKept(t, Tab()) && Grown(before, maps)
      && (regular ==> m.Keys == View().Keys && Mapped(m, a, |bs|) && View() == F.Store(m, a, bs))
      && TakeAll(Geom(), before, held, a, bs).ok && Hold(TakeAll(Geom(), before, held, a, bs).datas)
    }

    method StoreNext(a: nat, bs: seq<byte>, i: nat, ghost t: Table, ghost before: map<nat, MemoryMap>,
                     ghost held: Datas, ghost m: Flat, ghost regular: bool) returns (ok: bool)
      requires ValidGeometry(Geom()) && before.Values == held.Keys && i < |bs|
      requires StoredSoFar(t, before, held, m, regular, a, bs[..i])
      requires regular ==> Starts(Geom(), t, a, |bs|)
      modifies this`maps, maps.Values
      ensures Grown(old(maps), maps) && fresh(maps.Values - old(maps.Values))
      ensures ok ==> StoredSoFar(t, before, held, m, regular, a, bs[..i + 1])
      ensures !ok ==> Valid() && BoundsKept(t, Tab()) && Grown(before, maps)
      ensures !ok && regular ==>
        MappedPrefix(m, a, |bs|) == i && Mapped(m, a, i) && View() == F.Store(m, a, bs[..i])
      ensures !ok ==>
        var r := TakeAll(Geom(), before, held, a, bs);
        !r.ok && Hold(r.datas)
    {
      hide Regular, PageOf, FlatOf, BoundsKept, View, Valid, Tab, Starts, Grown, MappedPrefix, F.Store;
      hide TakeAll, TakeByte, Held, Hold, Extends, Indexes;
      ghost var now, tab, done, data := maps, Tab(), View(), Held();
      if regular {
        RegularLater(t, a, |bs|, a + i, 1);
      }
      GrownValues(before, maps);
      HeldExtends(TakeAll(Geom(), before, held, a, bs[..i]).datas);
      TakeMore(Geom(), before, maps, held, data, a, bs, i);
      ok := StoreByte(a + i, bs[i]);
      HoldLess(TakeAll(Geom(), before, held, a, bs[..i + 1]).datas, TakeByte(Geom(), now, data, a + i, bs[i]).datas);
      GrownTransitive(before, now, maps);
      BoundsTransitive(t, tab, Tab());
      if regular {
        StoreStep(m, done, View(), a, bs, i, ok);
      }
      if !ok {
        TakeStops(Geom(), before, held, a, bs, i + 1);
      }
    }

    method StoreBytewise(a: nat, bs: seq<byte>) returns (ok: bool)
      requires Valid()
      modifies this`maps, maps.Values
      ensures Valid() && BoundsKept(old(Tab()), Tab())
      ensures Grown(old(maps), maps) && fresh(maps.Values - old(maps.Values))
      ensures old(Regular(a, |bs|)) ==>
        var k := MappedPrefix(old(View()), a, |bs|);
        ok == (k == |bs|) && View() == F.Store(old(View()), a, bs[..k])
      ensures ok == old(Takes(a, bs)).ok && Hold(old(Takes(a, bs)).datas)
    {
      hide Regular, PageOf, FlatOf, BoundsKept, View, Valid, Tab, Starts, Grown, OnPage, MappedPrefix, F.Store;
      hide TakeAll, Held, Hold;
      GrownSame(maps);
      GeometryIs();
      BoundsSame(Tab());
      ghost var m, t, regular, before, held := View(), Tab(), Regular(a, |bs|), maps, Held();
      NoBytesStored(m, a, bs);
      TakeNone(Geom(), maps, held, a, bs);
      RegularIs(a, |bs|);
      var i := 0;
      while i < |bs|
        invariant i <= |bs| && fresh(maps.Values - old(maps.Values))
        invariant StoredSoFar(t, before, held, m, regular, a, bs[..i])
      {
        var stored := StoreNext(a, bs, i, t, before, held, m, regular);
        if !stored {
          return false;
        }
        i := i + 1;
      }
      ok := true;
      assert bs[..|bs|] == bs;
      if regular {
        PrefixUnique(m, a, |bs|, |bs|);
      }
    }

    lemma RegularIs(a: nat, n: nat)
      requires Valid()
      ensures ValidGeometry(Geom()) && Regular(a, n) == Starts(Geom(), Tab(), a, n)
    {
    }

    // Stores the bytes from a on, up to the first that is not mapped, which raises an exception; at any addresses,
    // up to the first that has no place.
    method Store(a: nat, bs: seq<byte>) returns (ok: bool)
      requires Valid()
      modifies this`maps, maps.Values
      ensures Valid() && BoundsKept(old(Tab()), Tab())
      ensures Grown(old(maps), maps) && fresh(maps.Values - old(maps.Values))
      ensures old(Regular(a, |bs|)) ==>
        var k := MappedPrefix(old(View()), a, |bs|);
        ok == (k == |bs|) && View() == F.Store(old(View()), a, bs[..k])
      ensures ok == old(Takes(a, bs)).ok && Hold(old(Takes(a, bs)).datas)
    {
      hide PageOf, FlatOf, BoundsKept, View, Valid, Tab, Starts, Grown, OnPage, AllOnPages, MappedPrefix, F.Store;
      hide TakeAll, Held, Hold, Extends;
      GeometryIs();
      GrownSame(maps);
      BoundsSame(Tab());
      ghost var t0, regular, maps0, held := Tab(), Regular(a, |bs|), maps, Held();
      var sized := |bs| in {1, 2, 4, 8};
      if sized {
        var crosses := CrossesPages(a, |bs|);
        sized := !crosses;
      }
      ghost var before, t := maps, Tab();
      if regular {
        RegularLater(t0, a, |bs|, a, |bs|);
      }
      ghost var now := Held();
      GrownValues(maps0, maps);
      HeldExtends(held);
      TakeGrown(Geom(), maps0, maps, held, now, a, bs);
      if sized {
        ghost var m :| AllOnPages(Geom(), maps, m, a, |bs|);
        ok := StoreSized(a, bs, m);
      } else {
        ok := StoreBytewise(a, bs);
      }
      HoldLess(TakeAll(Geom(), maps0, held, a, bs).datas, TakeAll(Geom(), before, now, a, bs).datas);
      GrownTransitive(old(maps), before, maps);
      BoundsTransitive(t0, t, Tab());
    }

    // Adds a map, over whatever was on its pages; its start must be aligned to a page.
    method AddMap(m: MemoryMap) returns (ok: bool)
      requires Valid() && ValidRegion(m.State())
      modifies this`maps
      ensures Valid() && ok == (m.lo % Geom().pageSize == 0)
      ensures ok ==> Overlaid(Geom(), old(Tab()), m.State(), Tab())
      ensures !ok ==> maps == old(maps)
      ensures maps.Values <= old(maps.Values) + {m}
      ensures old(IsOrdinary()) && m.hi <= addressBound ==> IsOrdinary()
    {
      hide PageOf, Ordinary, NthPage, Pow2, Valid, PagesSet, Overlaid;
      GeometryIs();
      var base := m.lo;
      Aligned(base, Pow2(pageShift));
      if base / Pow2(pageShift) * Pow2(pageShift) != base {
        return false;
      }
      ghost var i := 0;
      PagesSetNone(Geom(), maps, m);
      while base < m.hi
        invariant base == m.lo + i * Geom().pageSize
        invariant i == 0 || base < m.hi + Geom().pageSize
        invariant PagesSet(Geom(), old(maps), maps, m, i)
        invariant maps.Values <= old(maps.Values) + {m}
      {
        PagesSetMore(Geom(), old(maps), maps, m, i);
        maps := maps[Page(base) := m];
        base := base + Pow2(pageShift);
        i := i + 1;
      }
      ok := true;
      LastStep(m.lo, m.hi, Geom().pageSize, i);
      AddedTable(old(maps), old(Tab()), m);
    }

    lemma AddedTable(before: map<nat, MemoryMap>, t: Table, m: MemoryMap)
      requires ValidGeometry(Geom()) && ValidTable(t) && ValidRegion(m.State())
      requires t == map p | p in before :: before[p].State()
      requires m.lo % Geom().pageSize == 0 && PagesSet(Geom(), before, maps, m, PageCount(Geom(), m.State()))
      ensures Valid() && Overlaid(Geom(), t, m.State(), Tab())
      ensures Ordinary(Geom(), t) && m.hi <= addressBound ==> IsOrdinary()
    {
      hide PageOf, NthPage, Among, Ordinary, PageCount;
      assert forall p :: p in before ==> t[p] == before[p].State();
      forall p
        ensures p in Tab() <==> p in t || Covered(Geom(), m.State(), p)
        ensures p in Tab() ==> Tab()[p] == if Covered(Geom(), m.State(), p) then m.State() else t[p]
      {
      }
      if Ordinary(Geom(), t) && m.hi <= addressBound {
        AddedOrdinary(Geom(), t, m.State(), Tab());
      }
    }

    lemma AllowedIsCell(m: MemoryMap, a: nat)
      requires Valid() && ValidGeometry(Geom()) && OnPage(Geom(), maps, m, a)
      ensures m.Allows(a) <==> a in View()
      ensures a in View() ==>
        View()[a].canRead == m.canRead && View()[a].canWrite == m.canWrite && View()[a].canExecute == m.canExecute
    {
      hide PageOf;
      assert Tab()[PageOf(Geom(), a)] == m.State();
    }

    method CanRead(a: nat) returns (ok: bool)
      requires Valid()
      modifies this`maps
      ensures Valid() && View() == old(View()) && BoundsKept(old(Tab()), Tab())
      ensures fresh(maps.Values - old(maps.Values))
      ensures ok == (a in View() && View()[a].canRead)
    {
      hide PageOf, View, Valid, OnPage, BoundsKept;
      GeometryIs();
      var found := FindMap(a);
      AllowedIsCell(found, a);
      ok := found.canRead && found.Allows(a);
    }

    method CanWrite(a: nat) returns (ok: bool)
      requires Valid()
      modifies this`maps
      ensures Valid() && View() == old(View()) && BoundsKept(old(Tab()), Tab())
      ensures fresh(maps.Values - old(maps.Values))
      ensures ok == (a in View() && View()[a].canWrite)
    {
      hide PageOf, View, Valid, OnPage, BoundsKept;
      GeometryIs();
      var found := FindMap(a);
      AllowedIsCell(found, a);
      ok := found.canWrite && found.Allows(a);
    }

    method CanExecute(a: nat) returns (ok: bool)
      requires Valid()
      modifies this`maps
      ensures Valid() && View() == old(View()) && BoundsKept(old(Tab()), Tab())
      ensures fresh(maps.Values - old(maps.Values))
      ensures ok == (a in View() && View()[a].canExecute)
    {
      hide PageOf, View, Valid, OnPage, BoundsKept;
      GeometryIs();
      var found := FindMap(a);
      AllowedIsCell(found, a);
      ok := found.canExecute && found.Allows(a);
    }

    lemma GeometryIs()
      requires Valid()
      ensures ValidGeometry(Geom()) && ValidTable(Tab())
    {
    }
  }

  // The user's side of the executor's memory requests: permissions are checked when memory is read, byte by
  // byte, also for a write announced for later; the write itself is not checked again.
  class Process {
    const memory: Memory

    constructor (m: Memory)
      ensures memory == m
    {
      memory := m;
    }

    method ReadMemory(a: nat, n: nat, hint: MemHint) returns (r: Option<seq<byte>>)
      requires memory.Valid()
      modifies memory`maps
      ensures memory.Valid() && memory.View() == old(memory.View())
      ensures BoundsKept(old(memory.Tab()), memory.Tab())
      ensures fresh(memory.maps.Values - old(memory.maps.Values))
      ensures hint != AddressGeneration ==> r == ReadMem(memory.View(), a, n, hint)
    {
      hide Memory.View, Memory.Valid, Memory.Regular, Memory.IsOrdinary, Memory.Tab, Memory.Gives, BoundsKept;
      hide MappedPrefix;
      var checkRead, checkWrite, checkExecute := ChecksRead(hint), ChecksWrite(hint), ChecksExecute(hint);
      ghost var t0, t := memory.Tab(), memory.Tab();
      BoundsSame(t0);
      var i := 0;
      while i < n
        invariant i <= n
        invariant memory.Valid() && memory.View() == old(memory.View())
        invariant BoundsKept(t0, memory.Tab())
        invariant fresh(memory.maps.Values - old(memory.maps.Values))
        invariant hint != AddressGeneration ==> Accessible(memory.View(), a, i, hint)
      {
        if checkRead {
          t := memory.Tab();
          var ok := memory.CanRead(a + i);
          BoundsTransitive(t0, t, memory.Tab());
          if !ok {
            return None;
          }
        }
        if checkWrite {
          t := memory.Tab();
          var ok := memory.CanWrite(a + i);
          BoundsTransitive(t0, t, memory.Tab());
          if !ok {
            return None;
          }
        }
        if checkExecute {
          t := memory.Tab();
          var ok := memory.CanExecute(a + i);
          BoundsTransitive(t0, t, memory.Tab());
          if !ok {
            return None;
          }
        }
        i := i + 1;
      }
      if hint != AddressGeneration {
        memory.RangeIsRegular(a, n);
        PrefixUnique(memory.View(), a, n, n);
      }
      t := memory.Tab();
      r := memory.Load(a, n);
      BoundsTransitive(t0, t, memory.Tab());
    }

    // Stores the bytes, whatever their permissions, up to the first that is not mapped.
    method WriteMemory(a: nat, bs: seq<byte>) returns (ok: bool)
      requires memory.Valid()
      modifies memory`maps, memory.maps.Values
      ensures memory.Valid() && BoundsKept(old(memory.Tab()), memory.Tab())
      ensures fresh(memory.maps.Values - old(memory.maps.Values))
      ensures old(memory.Regular(a, |bs|)) ==>
        var k := MappedPrefix(old(memory.View()), a, |bs|);
        ok == (k == |bs|) && memory.View() == Store(old(memory.View()), a, bs[..k])
      ensures old(Mapped(memory.View(), a, |bs|)) ==>
        ok && memory.View() == Store(old(memory.View()), a, bs)
      ensures ok == old(memory.Takes(a, bs)).ok && Hold(old(memory.Takes(a, bs)).datas)
    {
      hide Memory.View, Memory.Valid, Memory.Regular, Memory.IsOrdinary, Memory.Tab, Memory.Takes, BoundsKept;
      hide MappedPrefix, Store, Hold;
      if Mapped(memory.View(), a, |bs|) {
        memory.RangeIsRegular(a, |bs|);
        PrefixUnique(memory.View(), a, |bs|, |bs|);
      }
      ok := memory.Store(a, bs);
      assert bs[..|bs|] == bs;
    }
  }

  // What was checked for writing may be written: bytes that are not writable stay as they are.
  lemma CheckedWriteProtects(m: Flat, a: nat, bs: seq<byte>, hint: MemHint)
    requires ReadMem(m, a, |bs|, hint).Some? && ChecksWrite(hint)
    ensures Mapped(m, a, |bs|) && KeepsProtected(m, Store(m, a, bs))
    ensures BytesAt(Store(m, a, bs), a, |bs|) == bs
  {
    hide Store;
    var r := Store(m, a, bs);
    forall i | i in m && !m[i].canWrite
      ensures r[i] == m[i]
    {
      assert !(a <= i < a + |bs|);
    }
  }
}

