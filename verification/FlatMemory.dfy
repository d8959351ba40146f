/**
 The user's memory as the executor sees it: one byte per address, with page permissions.
 The paged memory of microx/__init__.py refines it (module PagedMemory).
 */
module FlatMemory {
  import opened Bits

  datatype Cell = Cell(value: byte, canRead: bool, canWrite: bool, canExecute: bool)

  // Only mapped addresses are keys.
  type Flat = imap<int, Cell>

  // What the executor says it is going to do with the memory it asks for.
  datatype MemHint = ReadOnly | ReadExecutable | WriteOnly | ReadWrite | AddressGeneration

  predicate ChecksRead(h: MemHint) { h in {ReadOnly, ReadExecutable, ReadWrite} }

  predicate ChecksWrite(h: MemHint) { h in {WriteOnly, ReadWrite} }

  predicate ChecksExecute(h: MemHint) { h == ReadExecutable }

  predicate Permits(c: Cell, h: MemHint) {
    && (ChecksRead(h) ==> c.canRead)
    && (ChecksWrite(h) ==> c.canWrite)
    && (ChecksExecute(h) ==> c.canExecute)
  }

  predicate Mapped(m: Flat, a: int, n: nat) {
    forall i :: a <= i < a + n ==> i in m
  }

  predicate Accessible(m: Flat, a: int, n: nat, h: MemHint) {
    forall i :: a <= i < a + n ==> i in m && Permits(m[i], h)
  }

  function BytesAt(m: Flat, a: int, n: nat): (bs: seq<byte>)
    requires Mapped(m, a, n)
    ensures |bs| == n
    ensures forall i :: 0 <= i < n ==> bs[i] == m[a + i].value
  {
    if n == 0 then [] else BytesAt(m, a, n - 1) + [m[a + n - 1].value]
  }

  function ValueAt(m: Flat, a: int, n: nat): nat
    requires Mapped(m, a, n)
  {
    FromBytes(BytesAt(m, a, n))
  }

  // Memory m with the bytes bs written from address a on; permissions stay.
  function Store(m: Flat, a: int, bs: seq<byte>): (r: Flat)
    requires Mapped(m, a, |bs|)
    ensures r.Keys == m.Keys
    ensures forall i :: i in m ==>
      r[i] == m[i].(value := if a <= i < a + |bs| then bs[i - a] else m[i].value)
  {
    if bs == [] then m
    else
      var last := |bs| - 1;
      var r := Store(m, a, bs[..last]);
      r[a + last := r[a + last].(value := bs[last])]
  }

  function StoreValue(m: Flat, a: int, n: nat, v: nat): Flat
    requires Mapped(m, a, n)
  {
    Store(m, a, ToBytes(v, n))
  }

  lemma SameMemory(m: Flat, r: Flat)
    requires m.Keys == r.Keys
    requires forall i :: i in m.Keys ==> m[i] == r[i]
    ensures m == r
  {
    assert forall i | i in m :: m[i] == r[i];
  }

  // Two memories with the same mappings and permissions.
  ghost predicate SamePermissions(m: Flat, r: Flat) {
    && m.Keys == r.Keys
    && forall i :: i in m ==> m[i] == r[i].(value := m[i].value)
  }

  // r may differ from m only in bytes that m lets be written.
  ghost predicate KeepsProtected(m: Flat, r: Flat) {
    && SamePermissions(m, r)
    && forall i :: i in m && !m[i].canWrite ==> r[i] == m[i]
  }

  lemma ReadBack(m: Flat, a: int, n: nat, v: nat)
    requires Mapped(m, a, n)
    requires v < Pow256(n)
    ensures ValueAt(StoreValue(m, a, n, v), a, n) == v
  {
    var bs := ToBytes(v, n);
    assert BytesAt(Store(m, a, bs), a, n) == bs;
    ValueRoundTrip(v, n);
  }

  // Writing back what was read changes nothing.
  lemma WriteBackUnchanged(m: Flat, a: int, n: nat)
    requires Mapped(m, a, n)
    ensures StoreValue(m, a, n, ValueAt(m, a, n)) == m
  {
    var bs := BytesAt(m, a, n);
    BytesRoundTrip(bs);
    SameMemory(m, Store(m, a, bs));
  }

  // The default ReadMem: the bytes, or refusal.
  datatype Option<+T> = None | Some(value: T)

  function ReadMem(m: Flat, a: int, n: nat, h: MemHint): Option<seq<byte>> {
    if Accessible(m, a, n, h) then Some(BytesAt(m, a, n)) else None
  }
}
