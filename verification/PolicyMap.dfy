/**
 The memory map of godefroid/policy_map.py: it marks every byte that is read or written, asks the policy
 for the contents of memory that is read before it is written, and tells it of outputs.

 A failed assertion, or another exception, is None or false.
 */
module PolicyMap {
  import opened Bits
  import opened FlatMemory
  import opened PageTables
  import opened Areas
  import opened InputPolicy

  datatype Mark = WasRead | WasWritten

  type Marks = map<int, set<Mark>>

  datatype MapState = MapState(base: nat, data: seq<byte>, marks: Marks, policy: Policy)

  // The state changed so far, and the result if nothing went wrong.
  datatype Outcome<+T> = Outcome(state: MapState, value: Option<T>)

  function MarksAt(marks: Marks, b: int): set<Mark> {
    if b in marks then marks[b] else {}
  }

  predicate SomeLacks(marks: Marks, addr: int, size: nat, mark: Mark) {
    exists b :: addr <= b < addr + size && mark !in MarksAt(marks, b)
  }

  function MarkAll(marks: Marks, addr: int, size: nat, mark: Mark): (r: Marks)
    ensures forall b :: MarksAt(r, b) == MarksAt(marks, b) + if addr <= b < addr + size then {mark} else {}
  {
    if size == 0 then marks
    else
      var last := addr + size - 1;
      MarkAll(marks, addr, size - 1, mark)[last := MarksAt(marks, last) + {mark}]
  }

  // Python's assignment to a slice.
  function PyAssign(s: seq<byte>, lo: int, hi: int, bs: seq<byte>): seq<byte> {
    var i, j := Clamp(lo, |s|), Clamp(hi, |s|);
    s[..i] + bs + s[if i <= j then j else i..]
  }

  // A load that the policy cares about and that touches a byte never written gets its data from the policy.
  predicate Invents(s: MapState, addr: int, size: nat) {
    InSpace(s.policy, addr) && SomeLacks(s.marks, addr, size, WasWritten)
  }

  function PrepareLoad(s: MapState, addr: int, size: nat, random: seq<byte>): Outcome<()> {
    if !InSpace(s.policy, addr) then Outcome(s, Some(()))
    else
      var lo := addr - s.base;
      var r :=
        if SomeLacks(s.marks, addr, size, WasWritten) then
          var found := Discover(s.policy, addr, size, PySlice(s.data, lo, lo + size), random);
          if found.value == None || |found.value.value| != size then Outcome(s.(policy := found.policy), None)
          else Outcome(s.(policy := found.policy, data := PyAssign(s.data, lo, lo + size, found.value.value)), Some(()))
        else Outcome(s, Some(()));
      if r.value == None then r else r.(state := r.state.(marks := MarkAll(s.marks, addr, size, WasRead)))
  }

  function PrepareStore(s: MapState, addr: int, size: nat): Outcome<()> {
    if !InSpace(s.policy, addr) then Outcome(s, Some(()))
    else
      var lo := addr - s.base;
      var noted := s.(policy := NoteOutput(s.policy, addr, size));
      if SomeLacks(s.marks, addr, size, WasRead) && |PySlice(s.data, lo, lo + size)| != size then Outcome(noted, None)
      else
        var data := if SomeLacks(s.marks, addr, size, WasRead)
                    then PyAssign(s.data, lo, lo + size, PySlice(s.data, lo, lo + size)) else s.data;
        Outcome(noted.(data := data, marks := MarkAll(s.marks, addr, size, WasWritten)), Some(()))
  }

  function LoadOf(s: MapState, addr: int, size: nat, random: seq<byte>): Outcome<seq<byte>> {
    var p := PrepareLoad(s, addr, size, random);
    if p.value == None then Outcome(p.state, None)
    else Outcome(p.state, Some(PySlice(p.state.data, addr - s.base, addr - s.base + size)))
  }

  function StoreOf(s: MapState, addr: int, size: nat, bs: seq<byte>): Outcome<()> {
    var p := PrepareStore(s, addr, size);
    if p.value == None then p
    else
      var r := StoreFrom(p.state.data, addr - s.base, if |bs| <= size then bs else bs[..size]);
      Outcome(p.state.(data := r.data), if r.ok then Some(()) else None)
  }

  // Runs of loads, stores and address computations

  datatype Access =
    | Load(addr: int, size: nat, random: seq<byte>)
    | Store(addr: int, size: nat, bytes: seq<byte>)
    | RawStore(addr: int, bytes: seq<byte>)
    | Address(addr: int, parts: seq<int>, size: nat)

  function Perform(s: MapState, a: Access): Outcome<()> {
    match a
    case Load(addr, size, random) =>
      var r := LoadOf(s, addr, size, random);
      Outcome(r.state, if r.value == None then None else Some(()))
    case Store(addr, size, bytes) => StoreOf(s, addr, size, bytes)
    case RawStore(addr, bytes) =>
      var r := StoreFrom(s.data, addr - s.base, bytes);
      Outcome(s.(data := r.data), if r.ok then Some(()) else None)
    case Address(addr, parts, size) =>
      var r := NoteComputed(s.policy, addr, parts, size);
      Outcome(s.(policy := r.policy), if r.value == None then None else Some(()))
  }

  // A run that has not failed.
  function PerformAll(s: MapState, accesses: seq<Access>): Outcome<()> {
    if accesses == [] then Outcome(s, Some(()))
    else
      var r := PerformAll(s, accesses[..|accesses| - 1]);
      if r.value == None then r else Perform(r.state, accesses[|accesses| - 1])
  }

  // Every byte of a known output has been written.
  ghost predicate OutputsWritten(s: MapState) {
    forall b :: Occupied(s.policy.outputs, b) ==> WasWritten in MarksAt(s.marks, b)
  }

  lemma NoteKeeps(outputs: map<int, nat>, addr: int, size: nat, b: int)
    requires Occupied(outputs[addr := size], b)
    ensures Occupied(outputs, b) || addr <= b < addr + size
  {
    var a :| a in outputs[addr := size] && a <= b < a + outputs[addr := size][a];
    assert a != addr ==> a in outputs && a <= b < a + outputs[a];
  }

  lemma PolicyKeepsOutputs(p: Policy, addr: int, size: nat, held: seq<byte>, random: seq<byte>, parts: seq<int>)
    ensures Discover(p, addr, size, held, random).policy.outputs == p.outputs
    ensures NoteComputed(p, addr, parts, size).policy.outputs == p.outputs
  {
  }

  lemma PerformKeepsOutputs(s: MapState, a: Access)
    requires OutputsWritten(s) && Perform(s, a).value.Some?
    ensures OutputsWritten(Perform(s, a).state)
    ensures forall b :: MarksAt(s.marks, b) <= MarksAt(Perform(s, a).state.marks, b)
  {
    hide Discover, NoteComputed, StoreFrom, PyAssign, PySlice, Occupied, SomeLacks;
    var t := Perform(s, a).state;
    forall b | Occupied(t.policy.outputs, b)
      ensures WasWritten in MarksAt(t.marks, b)
    {
      match a {
        case Load(addr, size, random) =>
          PolicyKeepsOutputs(s.policy, addr, size, PySlice(s.data, addr - s.base, addr - s.base + size), random, []);
        case Store(addr, size, bytes) =>
          if InSpace(s.policy, addr) {
            NoteKeeps(s.policy.outputs, addr, size, b);
          }
        case RawStore(addr, bytes) =>
        case Address(addr, parts, size) =>
          PolicyKeepsOutputs(s.policy, addr, size, [], [], parts);
      }
    }
  }

  // In every run that does not fail, each byte of an output that will be reported is marked as written.
  lemma {:induction false} OutputsAreWritten(s: MapState, accesses: seq<Access>)
    requires s.policy.outputs == map[] && PerformAll(s, accesses).value.Some?
    ensures OutputsWritten(PerformAll(s, accesses).state)
  {
    hide Perform, OutputsWritten;
    if accesses == [] {
      NothingOccupied(s);
    } else {
      OutputsAreWritten(s, accesses[..|accesses| - 1]);
      PerformKeepsOutputs(PerformAll(s, accesses[..|accesses| - 1]).state, accesses[|accesses| - 1]);
    }
  }

  lemma NothingOccupied(s: MapState)
    requires s.policy.outputs == map[]
    ensures OutputsWritten(s)
  {
  }

  lemma ReportedAreWritten(s: MapState, accesses: seq<Access>, merged: seq<Area>, b: int)
    requires s.policy.outputs == map[] && PerformAll(s, accesses).value.Some?
    requires Reports(PerformAll(s, accesses).state.policy.outputs, merged) && Covers(merged, b)
    ensures WasWritten in MarksAt(PerformAll(s, accesses).state.marks, b)
  {
    hide PerformAll, Covers;
    OutputsAreWritten(s, accesses);
  }

  // Contents

  lemma AssignIsPatch(data: seq<byte>, offset: nat, bs: seq<byte>)
    requires offset + |bs| <= |data|
    ensures PyAssign(data, offset, offset + |bs|, bs) == Patched(data, offset, bs)
    ensures PySlice(Patched(data, offset, bs), offset, offset + |bs|) == bs
    ensures Patched(data, offset, data[offset..offset + |bs|]) == data
  {
    assert PySlice(Patched(data, offset, bs), offset, offset + |bs|) == bs;
  }

  // A load right after a store of the same bytes finds them, and leaves them.
  lemma LoadAfterStore(s: MapState, addr: nat, bs: seq<byte>, random: seq<byte>)
    requires s.base <= addr && bs != [] && StoreOf(s, addr, |bs|, bs).value.Some?
    ensures
      var t := StoreOf(s, addr, |bs|, bs).state;
      var r := LoadOf(t, addr, |bs|, random);
      r.value == Some(bs) && r.state.data == t.data
  {
    hide StoreFrom, PyAssign, PySlice, Discover, Patched;
    var p := PrepareStore(s, addr, |bs|);
    StoredBytes(p.state.data, addr - s.base, bs);
    assert bs[..|bs|] == bs;
    AssignIsPatch(p.state.data, addr - s.base, bs);
  }

  // What a load does to the data.
  lemma LoadChanges(s: MapState, addr: nat, size: nat, random: seq<byte>)
    requires s.base <= addr && addr - s.base + size <= |s.data| && LoadOf(s, addr, size, random).value.Some?
    ensures
      var lo, r := addr - s.base, LoadOf(s, addr, size, random);
      && |r.value.value| == size
      && r.state.data == (if Invents(s, addr, size) then Patched(s.data, lo, r.value.value) else s.data)
      && (!Invents(s, addr, size) ==> r.value.value == s.data[lo..lo + size])
  {
    hide Discover, Patched, PyAssign;
    var lo := addr - s.base;
    if Invents(s, addr, size) {
      var found := Discover(s.policy, addr, size, PySlice(s.data, lo, lo + size), random);
      AssignIsPatch(s.data, lo, found.value.value);
    }
  }

  function Different(b: byte): byte {
    if b == 0 then 1 else 0
  }

  // A load is sure to return what memory holds exactly when the policy does not care about it, or all its bytes
  // have been written, or what memory holds happens to be the pointer that the policy invents.
  lemma LoadFaithful(s: MapState, addr: nat, size: nat)
    requires s.base <= addr && addr - s.base + size <= |s.data|
    ensures
      var held := s.data[addr - s.base..addr - s.base + size];
      (forall random: seq<byte> :: |random| == size ==> LoadOf(s, addr, size, random).value == Some(held))
      <==> !Invents(s, addr, size)
           || (size == s.policy.addressSize && CanIssue(s.policy) && FromBytes(held) == s.policy.watermark)
  {
    hide Discover, PyAssign, PySlice, LoadOf, Invents, CanIssue;
    var held := s.data[addr - s.base..addr - s.base + size];
    if !Invents(s, addr, size) {
      forall random: seq<byte> | |random| == size
        ensures LoadOf(s, addr, size, random).value == Some(held)
      {
        LoadHeld(s, addr, size, random);
      }
    } else if size == s.policy.addressSize {
      forall random: seq<byte> | |random| == size
        ensures LoadOf(s, addr, size, random).value == Some(held)
          <==> CanIssue(s.policy) && FromBytes(held) == s.policy.watermark
      {
        LoadPointer(s, addr, size, random);
      }
      assert |held| == size;
    } else {
      Nonempty(s, addr, size);
      var random := held[0 := Different(held[0])];
      LoadInvented(s, addr, size, random);
      assert random[0] != held[0];
    }
  }

  lemma Nonempty(s: MapState, addr: nat, size: nat)
    requires Invents(s, addr, size)
    ensures size > 0
  {
  }

  lemma LoadHeld(s: MapState, addr: nat, size: nat, random: seq<byte>)
    requires s.base <= addr && addr - s.base + size <= |s.data| && !Invents(s, addr, size)
    ensures LoadOf(s, addr, size, random).value == Some(s.data[addr - s.base..addr - s.base + size])
  {
    hide Discover, PyAssign;
  }

  // An invented load at pointer size is of a new pointer, and fails if there is none.
  lemma LoadPointer(s: MapState, addr: nat, size: nat, random: seq<byte>)
    requires s.base <= addr && addr - s.base + size <= |s.data| && size == s.policy.addressSize
    requires Invents(s, addr, size)
    ensures LoadOf(s, addr, size, random).value == (
      if CanIssue(s.policy) && s.policy.watermark < Pow256(size) then Some(ToBytes(s.policy.watermark, size)) else None)
    ensures
      var held := s.data[addr - s.base..addr - s.base + size];
      LoadOf(s, addr, size, random).value == Some(held) <==> CanIssue(s.policy) && FromBytes(held) == s.policy.watermark
  {
    hide Discover, PyAssign, Patched, Pow256, ToBytes, FromBytes, CanIssue;
    var lo := addr - s.base;
    var held := s.data[lo..lo + size];
    PointerFails(s.policy, addr, size, held, random);
    if CanIssue(s.policy) && s.policy.watermark < Pow256(size) {
      AssignIsPatch(s.data, lo, ToBytes(s.policy.watermark, size));
      ValueRoundTrip(s.policy.watermark, size);
    }
    BytesRoundTrip(held);
    FromBytesBound(held);
  }

  lemma LoadInvented(s: MapState, addr: nat, size: nat, random: seq<byte>)
    requires s.base <= addr && addr - s.base + size <= |s.data| && size != s.policy.addressSize
    requires Invents(s, addr, size) && |random| == size
    ensures LoadOf(s, addr, size, random).value == Some(random)
  {
    hide PyAssign, Patched;
    AssignIsPatch(s.data, addr - s.base, random);
  }

  // Two bytes, the first of which has been written: a load of both overwrites it.
  lemma WrittenByteLost(p: Policy, random: seq<byte>)
    requires InSpace(p, 0) && p.addressSize != 2 && |random| == 2
    ensures
      var s := MapState(0, [7, 0], map[0 := {WasWritten}], p);
      LoadOf(s, 0, 2, random).state.data == random
  {
    var s := MapState(0, [7, 0], map[0 := {WasWritten}], p);
    assert WasWritten !in MarksAt(s.marks, 1);
    LoadInvented(s, 0, 2, random);
    LoadChanges(s, 0, 2, random);
  }

  // Byte b of the map stays as it is during a run: it is not stored to, and no load that touches it invents data.
  ghost predicate LeavesAlone(s: MapState, a: Access, b: int) {
    match a
    case Load(addr, size, _) => Invents(s, addr, size) ==> !(addr <= b < addr + size)
    case Store(addr, size, bytes) => !(addr <= b < addr + |bytes|)
    case RawStore(addr, bytes) => !(addr <= b < addr + |bytes|)
    case Address(_, _, _) => true
  }

  ghost predicate AllLeaveAlone(s: MapState, accesses: seq<Access>, b: int) {
    accesses == [] || (
      && AllLeaveAlone(s, accesses[..|accesses| - 1], b)
      && LeavesAlone(PerformAll(s, accesses[..|accesses| - 1]).state, accesses[|accesses| - 1], b))
  }

  // Accesses come to a map only for addresses at or above its start.
  ghost predicate OnMap(accesses: seq<Access>, base: nat) {
    forall i :: 0 <= i < |accesses| ==> accesses[i].addr >= base
  }

  lemma {:induction false} StoredElsewhere(data: seq<byte>, offset: nat, bs: seq<byte>, i: nat)
    requires i < |data| && !(offset <= i < offset + |bs|)
    ensures StoreFrom(data, offset, bs).data[i] == data[i]
  {
    if bs != [] {
      StoredElsewhere(data, offset, bs[..|bs| - 1], i);
    }
  }

  lemma AssignElsewhere(data: seq<byte>, offset: nat, bs: seq<byte>, i: nat)
    requires i < |data| && !(offset <= i < offset + |bs|) && |PySlice(data, offset, offset + |bs|)| == |bs|
    ensures |PyAssign(data, offset, offset + |bs|, bs)| == |data|
      && PyAssign(data, offset, offset + |bs|, bs)[i] == data[i]
  {
  }

  lemma AssignSame(data: seq<byte>, offset: nat, n: nat)
    requires |PySlice(data, offset, offset + n)| == n
    ensures PyAssign(data, offset, offset + n, PySlice(data, offset, offset + n)) == data
  {
  }

  lemma DiscoverSize(p: Policy, addr: int, size: nat, held: seq<byte>, random: seq<byte>)
    requires Discover(p, addr, size, held, random).value.Some?
    ensures |Discover(p, addr, size, held, random).value.value| == |held|
  {
  }

  lemma PerformLeaves(s: MapState, a: Access, b: int)
    requires a.addr >= s.base && LeavesAlone(s, a, b) && 0 <= b - s.base < |s.data| && Perform(s, a).value.Some?
    ensures
      var t := Perform(s, a).state;
      t.base == s.base && |t.data| == |s.data| && t.data[b - s.base] == s.data[b - s.base]
  {
    hide Discover, NoteComputed, StoreFrom, PyAssign, PySlice, SomeLacks, MarkAll;
    var lo, i := a.addr - s.base, b - s.base;
    match a {
      case Load(addr, size, random) =>
        if Invents(s, addr, size) {
          var held := PySlice(s.data, lo, lo + size);
          DiscoverSize(s.policy, addr, size, held, random);
          AssignElsewhere(s.data, lo, Discover(s.policy, addr, size, held, random).value.value, i);
        }
      case Store(addr, size, bytes) =>
        if |PySlice(s.data, lo, lo + size)| == size {
          AssignSame(s.data, lo, size);
        }
        StoredElsewhere(s.data, lo, if |bytes| <= size then bytes else bytes[..size], i);
      case RawStore(addr, bytes) => StoredElsewhere(s.data, lo, bytes, i);
      case Address(addr, parts, size) =>
    }
  }

  // What was stored stays until it is stored over, or a load invents data where it is.
  lemma {:induction false} RunLeaves(s: MapState, accesses: seq<Access>, b: int)
    requires OnMap(accesses, s.base) && AllLeaveAlone(s, accesses, b) && 0 <= b - s.base < |s.data|
    requires PerformAll(s, accesses).value.Some?
    ensures
      var t := PerformAll(s, accesses).state;
      t.base == s.base && |t.data| == |s.data| && t.data[b - s.base] == s.data[b - s.base]
  {
    hide Perform, LeavesAlone;
    if accesses != [] {
      var init := accesses[..|accesses| - 1];
      assert OnMap(init, s.base);
      RunLeaves(s, init, b);
      PerformLeaves(PerformAll(s, init).state, accesses[|accesses| - 1], b);
    }
  }

  // The map as an object

  class PolicyMemoryMap {
    const base: nat
    const limit: nat
    var data: seq<byte>
    var accessMap: Marks
    var policy: InputMemoryPolicy

    constructor (start: nat, end: nat, inputPolicy: InputMemoryPolicy)
      requires start < end
      ensures State() == MapState(start, seq(end - start, _ => 0), map[], inputPolicy.State()) && limit == end
    {
      base, limit := start, end;
      data := seq(end - start, _ => 0);
      accessMap := map[];
      policy := inputPolicy;
    }

    ghost function State(): MapState
      reads this, policy
    {
      MapState(base, data, accessMap, policy.State())
    }

    method MarkBytes(addr: int, size: nat, flags: seq<set<Mark>>, mark: Mark)
      requires |flags| == size && forall i :: 0 <= i < size ==> flags[i] == MarksAt(accessMap, addr + i)
      modifies this`accessMap
      ensures accessMap == MarkAll(old(accessMap), addr, size, mark)
    {
      hide MarksAt;
      for i := 0 to size
        invariant accessMap == MarkAll(old(accessMap), addr, i, mark)
      {
        accessMap := accessMap[addr + i := flags[i] + {mark}];
      }
    }

    method LoadPolicy(addr: int, size: nat, random: seq<byte>) returns (ok: bool)
      modifies this, policy
      ensures policy == old(policy)
      ensures Outcome(State(), if ok then Some(()) else None) == PrepareLoad(old(State()), addr, size, random)
    {
      hide PyAssign, PySlice, MarkAll, Discover;
      if !policy.HandlesLoad(addr) {
        return true;
      }
      var marks := accessMap;
      var flags := seq(size, i requires 0 <= i < size => MarksAt(marks, addr + i));
      if SomeLacks(accessMap, addr, size, WasWritten) {
        var start := addr - base;
        var newData := policy.ReadBeforeWrite(addr, size, PySlice(data, start, start + size), random);
        if newData == None || |newData.value| != size {
          return false;
        }
        data := PyAssign(data, start, start + size, newData.value);
      }
      MarkBytes(addr, size, flags, WasRead);
      ok := true;
    }

    method StorePolicy(addr: int, size: nat) returns (ok: bool)
      modifies this, policy
      ensures policy == old(policy)
      ensures Outcome(State(), if ok then Some(()) else None) == PrepareStore(old(State()), addr, size)
    {
      hide PyAssign, PySlice, MarkAll;
      if !policy.HandlesStore(addr) {
        return true;
      }
      var marks := accessMap;
      var flags := seq(size, i requires 0 <= i < size => MarksAt(marks, addr + i));
      if SomeLacks(accessMap, addr, size, WasRead) {
        var start := addr - base;
        var newData := policy.WriteBeforeRead(addr, size, PySlice(data, start, start + size));
        if |newData| != size {
          return false;
        }
        data := PyAssign(data, start, start + size, newData);
      } else {
        policy.AddOutput(addr, size);
      }
      MarkBytes(addr, size, flags, WasWritten);
      ok := true;
    }

    // Also the loads of a byte, word, dword and qword, which have their size fixed.
    method LoadUnit(addr: int, size: nat, random: seq<byte>) returns (r: Option<seq<byte>>)
      modifies this, policy
      ensures policy == old(policy) && Outcome(State(), r) == LoadOf(old(State()), addr, size, random)
    {
      var ok := LoadPolicy(addr, size, random);
      if !ok {
        return None;
      }
      var offset := addr - base;
      r := Some(PySlice(data, offset, offset + size));
    }

    method StoreUnit(addr: int, size: nat, bytes: seq<byte>) returns (ok: bool)
      modifies this, policy
      ensures policy == old(policy)
      ensures Outcome(State(), if ok then Some(()) else None) == StoreOf(old(State()), addr, size, bytes)
    {
      ok := StorePolicy(addr, size);
      if ok {
        ok := StoreBytesRaw(addr, if |bytes| <= size then bytes else bytes[..size]);
      }
    }

    method StoreBytes(addr: int, bytes: seq<byte>) returns (ok: bool)
      modifies this, policy
      ensures policy == old(policy)
      ensures Outcome(State(), if ok then Some(()) else None) == StoreOf(old(State()), addr, |bytes|, bytes)
    {
      ok := StorePolicy(addr, |bytes|);
      if ok {
        ok := StoreBytesRaw(addr, bytes);
      }
    }

    method StoreBytesRaw(addr: int, bytes: seq<byte>) returns (ok: bool)
      modifies this`data
      ensures Stored(data, ok) == StoreFrom(old(data), addr - base, bytes)
    {
      var offset := addr - base;
      for j := 0 to |bytes|
        invariant offset == addr - base + j && Stored(data, true) == StoreFrom(old(data), addr - base, bytes[..j])
      {
        assert bytes[..j + 1][..j] == bytes[..j];
        var index := PyIndex(offset, |data|);
        if index == None {
          StopsAt(old(data), addr - base, bytes, j + 1);
          return false;
        }
        data := data[index.value := bytes[j]];
        offset := offset + 1;
      }
      assert bytes[..|bytes|] == bytes;
      ok := true;
    }
  }
}
