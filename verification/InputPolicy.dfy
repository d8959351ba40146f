/**
 The input discovery policy of godefroid/policies.py: it invents pointers for unwritten memory that is read
 at pointer size, and keeps track of the inputs and outputs of the code under examination.

 A failed assertion, or another exception, is None or false. The bytes that it invents otherwise come
 from outside.
 */
module InputPolicy {
  import opened Bits
  import opened FlatMemory
  import opened Areas

  const POINTER_INCREMENT: nat := 0x400

  datatype Policy = Policy(addressSize: nat, start: int, end: int, pointersStart: nat, pointersEnd: nat,
                           watermark: nat, inputs: map<int, nat>, outputs: map<int, nat>, pointerMap: map<int, nat>)

  // The state changed so far, and the result if nothing went wrong.
  datatype Result<+T> = Result(policy: Policy, value: Option<T>)

  predicate InSpace(p: Policy, addr: int) {
    p.start <= addr <= p.end || p.pointersStart <= addr <= p.pointersEnd
  }

  function IssuePointer(p: Policy): Result<nat> {
    if p.watermark + p.addressSize >= p.pointersEnd then Result(p, None)
    else
      var moved := p.(watermark := p.watermark + POINTER_INCREMENT);
      Result(moved, if moved.watermark < p.pointersEnd then Some(p.watermark) else None)
  }

  // There is room for one more pointer, and for the increment behind it.
  predicate CanIssue(p: Policy) {
    p.watermark + p.addressSize < p.pointersEnd && p.watermark + POINTER_INCREMENT < p.pointersEnd
  }

  // Data read before it was written: a new pointer at pointer size, and otherwise bytes from outside.
  function Discover(p: Policy, addr: int, size: nat, old_: seq<byte>, random: seq<byte>): Result<seq<byte>> {
    if p.addressSize == size then
      var g := IssuePointer(p);
      if g.value == None then Result(g.policy, None)
      else
        var pointed := g.policy.(pointerMap := p.pointerMap[addr := g.value.value]);
        if g.value.value >= Pow256(size) then Result(pointed, None)
        else
          var known := pointed.(inputs := pointed.inputs[addr := size]);
          Result(known, if |old_| == size then Some(ToBytes(g.value.value, size)) else None)
    else
      Result(p.(inputs := p.inputs[addr := size]), if |old_| == |random| then Some(random) else None)
  }

  function NoteOutput(p: Policy, addr: int, size: nat): Policy {
    p.(outputs := p.outputs[addr := size])
  }

  // Addresses beyond the watermark in pointer space move it, though only by one increment.
  function CheckRange(p: Policy, addr: int): Result<bool> {
    if addr in p.inputs then Result(p, Some(true))
    else if p.pointersStart <= addr < p.pointersEnd then
      if addr > p.watermark then
        var moved := p.(watermark := p.watermark + POINTER_INCREMENT);
        Result(moved, if moved.watermark < p.pointersEnd then Some(true) else None)
      else Result(p, Some(true))
    else Result(p, Some(p.start <= addr < p.end))
  }

  predicate FromInput(p: Policy, parts: seq<int>) {
    exists i :: 0 <= i < |parts| && parts[i] in p.inputs && parts[i] != 0
  }

  function NoteComputed(p: Policy, result: int, parts: seq<int>, size: nat): Result<int> {
    var r := CheckRange(p, result);
    if r.value == None then Result(r.policy, None)
    else if r.value.value || FromInput(r.policy, parts) then
      Result(r.policy.(inputs := r.policy.inputs[result := size]), Some(result))
    else Result(r.policy, Some(result))
  }

  // Runs

  datatype Event =
    | Read(addr: int, size: nat, held: seq<byte>, random: seq<byte>)
    | Write(addr: int, size: nat)
    | Compute(addr: int, parts: seq<int>, size: nat)

  // A run, with the pointers issued so far in order.
  datatype Log = Log(policy: Policy, issued: seq<nat>, aborted: bool)

  function NextLog(l: Log, e: Event): Log {
    if l.aborted then l
    else
      match e
      case Read(addr, size, held, random) =>
        var r := Discover(l.policy, addr, size, held, random);
        var issued := size == l.policy.addressSize && r.value.Some?;
        Log(r.policy, if issued then l.issued + [l.policy.watermark] else l.issued,
            r.value == None)
      case Write(addr, size) => Log(NoteOutput(l.policy, addr, size), l.issued, false)
      case Compute(addr, parts, size) =>
        var r := NoteComputed(l.policy, addr, parts, size);
        Log(r.policy, l.issued, r.value == None)
  }

  function Play(p: Policy, es: seq<Event>): Log {
    if es == [] then Log(p, [], false) else NextLog(Play(p, es[..|es| - 1]), es[|es| - 1])
  }

  predicate Initial(p: Policy) {
    && p.start < p.end && p.pointersStart < p.pointersEnd
    && p.watermark == p.pointersStart && p.inputs == p.outputs == map[] && p.pointerMap == map[]
  }

  // Pointers are issued upwards, an increment or more apart, from the pointer space up to the watermark.
  ghost predicate Spaced(from: nat, issued: seq<nat>, watermark: nat) {
    && from <= watermark
    && (forall i :: 0 <= i < |issued| ==>
          from + i * POINTER_INCREMENT <= issued[i] && issued[i] + POINTER_INCREMENT <= watermark)
    && (forall i, j :: 0 <= i < j < |issued| ==> issued[i] + POINTER_INCREMENT <= issued[j])
  }

  ghost predicate Injective(m: map<int, nat>) {
    forall a, b :: a in m && b in m && m[a] == m[b] ==> a == b
  }

  ghost predicate Sound(l: Log) {
    && Spaced(l.policy.pointersStart, l.issued, l.policy.watermark)
    && l.policy.watermark < l.policy.pointersEnd
    && (forall a :: a in l.policy.pointerMap ==> l.policy.pointerMap[a] in l.issued)
    && Injective(l.policy.pointerMap)
    && l.policy.pointersStart + |l.issued| * POINTER_INCREMENT <= l.policy.watermark
  }

  lemma IssuedBelow(from: nat, issued: seq<nat>, watermark: nat, x: nat)
    requires Spaced(from, issued, watermark) && x in issued
    ensures x < watermark
  {
  }

  // A new pointer is the watermark, which then moves by an increment.
  lemma IssueSound(l: Log, p: Policy, addr: int)
    requires Sound(l) && p.pointersStart == l.policy.pointersStart && p.pointersEnd == l.policy.pointersEnd
    requires p.watermark == l.policy.watermark + POINTER_INCREMENT < p.pointersEnd
    requires p.pointerMap == l.policy.pointerMap[addr := l.policy.watermark]
    ensures Sound(Log(p, l.issued + [l.policy.watermark], false))
  {
    var ptr, m, issued := l.policy.watermark, l.policy.pointerMap, l.issued + [l.policy.watermark];
    assert ptr in issued;
    forall a | a in m
      ensures m[a] in issued && m[a] != ptr
    {
      IssuedBelow(l.policy.pointersStart, l.issued, ptr, m[a]);
      var i :| 0 <= i < |l.issued| && l.issued[i] == m[a];
      assert issued[i] == m[a];
    }
    assert forall i :: 0 <= i < |l.issued| ==> issued[i] == l.issued[i];
  }

  // Nothing issued; the watermark may have moved.
  lemma QuietSound(l: Log, p: Policy)
    requires Sound(l) && p.pointersStart == l.policy.pointersStart && p.pointersEnd == l.policy.pointersEnd
    requires l.policy.watermark <= p.watermark < p.pointersEnd && p.pointerMap == l.policy.pointerMap
    ensures Sound(Log(p, l.issued, false))
  {
  }

  lemma StepSound(l: Log, e: Event)
    requires Sound(l)
    ensures !NextLog(l, e).aborted ==> Sound(NextLog(l, e))
    ensures NextLog(l, e).policy.pointersStart == l.policy.pointersStart
    ensures NextLog(l, e).policy.pointersEnd == l.policy.pointersEnd
  {
    hide Spaced, Injective, Pow256;
    var n := NextLog(l, e);
    if !n.aborted && !l.aborted {
      if n.issued != l.issued {
        IssueSound(l, n.policy, e.addr);
      } else {
        QuietSound(l, n.policy);
      }
    }
  }

  lemma {:induction false} PlaySound(p: Policy, es: seq<Event>)
    requires Initial(p) && !Play(p, es).aborted
    ensures Sound(Play(p, es))
    ensures Play(p, es).policy.pointersStart == p.pointersStart && Play(p, es).policy.pointersEnd == p.pointersEnd
  {
    hide NextLog, Sound;
    if es == [] {
      StartSound(p);
    } else {
      AbortedStays(Play(p, es[..|es| - 1]), es[|es| - 1]);
      PlaySound(p, es[..|es| - 1]);
      StepSound(Play(p, es[..|es| - 1]), es[|es| - 1]);
    }
  }

  lemma AbortedStays(l: Log, e: Event)
    ensures l.aborted ==> NextLog(l, e) == l
  {
  }

  lemma StartSound(p: Policy)
    requires Initial(p)
    ensures Sound(Log(p, [], false))
  {
  }

  // In every run that does not abort, the regions of the pointers issued are disjoint and lie in the
  // pointer space, so that there are no more of them than fit; no two addresses share a pointer.
  lemma PointersDisjoint(p: Policy, es: seq<Event>)
    requires Initial(p) && !Play(p, es).aborted
    ensures
      var l := Play(p, es);
      && (forall i :: 0 <= i < |l.issued| ==>
        p.pointersStart <= l.issued[i] && l.issued[i] + POINTER_INCREMENT < p.pointersEnd)
      && (forall i, j :: 0 <= i < j < |l.issued| ==> l.issued[i] + POINTER_INCREMENT <= l.issued[j])
      && |l.issued| <= (p.pointersEnd - p.pointersStart) / POINTER_INCREMENT
    ensures
      var m := Play(p, es).policy.pointerMap;
      && (forall a :: a in m ==> m[a] in Play(p, es).issued)
      && forall a, b :: a in m && b in m && a != b ==>
           m[a] + POINTER_INCREMENT <= m[b] || m[b] + POINTER_INCREMENT <= m[a]
  {
    hide Play;
    PlaySound(p, es);
    var l := Play(p, es);
    var m := l.policy.pointerMap;
    forall a, b | a in m && b in m && a != b
      ensures m[a] + POINTER_INCREMENT <= m[b] || m[b] + POINTER_INCREMENT <= m[a]
    {
      assert m[a] != m[b];
      var i :| 0 <= i < |l.issued| && l.issued[i] == m[a];
      var j :| 0 <= j < |l.issued| && l.issued[j] == m[b];
    }
  }

  // A read at pointer size returns the little-endian bytes of the pointer recorded for its address.
  lemma PointerRead(p: Policy, addr: int, size: nat, held: seq<byte>, random: seq<byte>)
    requires size == p.addressSize && Discover(p, addr, size, held, random).value.Some?
    ensures
      var r := Discover(p, addr, size, held, random);
      && addr in r.policy.pointerMap && r.policy.pointerMap[addr] == p.watermark
      && |r.value.value| == size && FromBytes(r.value.value) == p.watermark
      && addr in r.policy.inputs && r.policy.inputs[addr] == size
  {
    ValueRoundTrip(p.watermark, size);
  }

  // Such a read fails exactly if there is no room for a pointer, or the pointer has no room.
  lemma PointerFails(p: Policy, addr: int, size: nat, held: seq<byte>, random: seq<byte>)
    requires size == p.addressSize && |held| == size
    ensures Discover(p, addr, size, held, random).value == (
      if CanIssue(p) && p.watermark < Pow256(size) then Some(ToBytes(p.watermark, size)) else None)
  {
  }

  // Reports

  datatype Kind = Data | Pointer(to: nat) | Computed

  datatype Input = Input(start: int, size: nat, kind: Kind)

  function MakeKind(p: Policy, addr: int, size: nat): Kind {
    if addr in p.pointerMap then Pointer(p.pointerMap[addr]) else if size != 0 then Data else Computed
  }

  function Extent(x: Input): Area {
    Area(x.start, x.size)
  }

  function Extents(xs: seq<Input>): (r: seq<Area>)
    ensures |r| == |xs| && forall i :: 0 <= i < |xs| ==> r[i] == Extent(xs[i])
  {
    if xs == [] then [] else Extents(xs[..|xs| - 1]) + [Extent(xs[|xs| - 1])]
  }

  // As Areas.Absorb; the kind of an area is taken from the input that last extended it.
  function AbsorbInput(p: Policy, merged: seq<Input>, x: Area): seq<Input> {
    if merged == [] then [Input(x.start, x.size, MakeKind(p, x.start, x.size))]
    else
      var entry := merged[|merged| - 1];
      if x.start >= entry.start + entry.size then merged + [Input(x.start, x.size, MakeKind(p, x.start, x.size))]
      else if End(x) > entry.start + entry.size then
        var size := End(x) - entry.start;
        merged[|merged| - 1 := Input(entry.start, size, MakeKind(p, x.start, size))]
      else merged
  }

  function MergeInputs(p: Policy, xs: seq<Area>): seq<Input> {
    if xs == [] then [] else AbsorbInput(p, MergeInputs(p, xs[..|xs| - 1]), xs[|xs| - 1])
  }

  lemma MergeInputsNext(p: Policy, xs: seq<Area>, i: nat)
    requires i < |xs|
    ensures MergeInputs(p, xs[..i + 1]) == AbsorbInput(p, MergeInputs(p, xs[..i]), xs[i])
  {
    assert xs[..i + 1][..i] == xs[..i];
  }

  lemma MergeInputsFirst(p: Policy, xs: seq<Area>)
    ensures MergeInputs(p, []) == []
    ensures xs != [] ==>
      MergeInputs(p, xs[..1]) == [Input(xs[0].start, xs[0].size, MakeKind(p, xs[0].start, xs[0].size))]
  {
    assert MergeInputs(p, []) == [];
    if xs != [] {
      assert xs[..1][..0] == [];
    }
  }

  // Inputs are covered and separated as outputs are.
  lemma {:induction false} InputAreas(p: Policy, xs: seq<Area>)
    ensures Extents(MergeInputs(p, xs)) == Merge(xs)
  {
    if xs != [] {
      InputAreas(p, xs[..|xs| - 1]);
      var merged := MergeInputs(p, xs[..|xs| - 1]);
      assert Extents(AbsorbInput(p, merged, xs[|xs| - 1])) == Absorb(Extents(merged), xs[|xs| - 1]);
    }
  }

  // No input that starts at or behind `from` and comes before i reaches as far.
  ghost predicate FirstToReach(xs: seq<Area>, i: nat, from: int)
    requires i < |xs|
  {
    forall k :: 0 <= k < i && from <= xs[k].start ==> End(xs[k]) < End(xs[i])
  }

  lemma NewestReaches(xs: seq<Area>, from: int)
    requires Increasing(xs) && xs != []
    requires
      var merged := Merge(xs[..|xs| - 1]);
      from == Last(xs).start || (merged != [] && End(Last(xs)) > End(Last(merged)))
    ensures FirstToReach(xs, |xs| - 1, from)
  {
    hide Merge;
    var init := xs[..|xs| - 1];
    forall k | 0 <= k < |xs| - 1 && from <= xs[k].start
      ensures End(xs[k]) < End(Last(xs))
    {
      EndsBefore(init, k);
    }
  }

  // The kind of a merged input is that of the first of its inputs that reaches up to its end.
  lemma {:induction false} InputKind(p: Policy, xs: seq<Area>, j: nat) returns (i: nat)
    requires Increasing(xs) && j < |MergeInputs(p, xs)|
    ensures i < |xs|
    ensures
      var x := MergeInputs(p, xs)[j];
      && x.kind == MakeKind(p, xs[i].start, x.size) && End(xs[i]) == End(Extent(x)) && x.start <= xs[i].start
      && FirstToReach(xs, i, x.start)
  {
    hide MakeKind, Merge, FirstToReach;
    var init := xs[..|xs| - 1];
    var merged := MergeInputs(p, init);
    if j < |merged| && MergeInputs(p, xs)[j] == merged[j] {
      i := InputKind(p, init, j);
      EarlierReaches(xs, i, merged[j].start);
    } else {
      i := |xs| - 1;
      if merged != [] {
        InputAreas(p, init);
        MergeSeparates(init);
        assert Extents(merged)[|merged| - 1] == Last(Merge(init));
      }
      NewestReaches(xs, MergeInputs(p, xs)[j].start);
    }
  }

  lemma EarlierReaches(xs: seq<Area>, i: nat, from: int)
    requires i < |xs| - 1 && FirstToReach(xs[..|xs| - 1], i, from)
    ensures FirstToReach(xs, i, from)
  {
    assert forall k :: 0 <= k <= i ==> xs[..|xs| - 1][k] == xs[k];
  }

  // The policy as an object

  class InputMemoryPolicy {
    const addressSize: nat
    const start: int
    const end: int
    const pointersStart: nat
    const pointersEnd: nat
    var watermark: nat
    var knownInputs: map<int, nat>
    var knownOutputs: map<int, nat>
    var pointerMap: map<int, nat>

    ghost function State(): Policy
      reads this
    {
      Policy(addressSize, start, end, pointersStart, pointersEnd, watermark, knownInputs, knownOutputs, pointerMap)
    }

    constructor (addressBits: nat, argumentVas: (int, int), pointerVas: (nat, nat))
      requires argumentVas.0 < argumentVas.1 && pointerVas.0 < pointerVas.1
      ensures Initial(State())
      ensures addressSize == addressBits / 8 && (start, end) == argumentVas
        && (pointersStart, pointersEnd) == pointerVas
    {
      addressSize := addressBits / 8;
      start, end := argumentVas.0, argumentVas.1;
      pointersStart, pointersEnd := pointerVas.0, pointerVas.1;
      watermark := pointerVas.0;
      knownInputs, knownOutputs, pointerMap := map[], map[], map[];
    }

    method AddOutput(addr: int, size: nat)
      modifies this`knownOutputs
      ensures knownOutputs == old(knownOutputs)[addr := size]
    {
      knownOutputs := knownOutputs[addr := size];
    }

    method GeneratePointer() returns (ptr: Option<nat>)
      modifies this`watermark
      ensures Result(State(), ptr) == IssuePointer(old(State()))
    {
      var newPtr := watermark;
      if newPtr + addressSize >= pointersEnd {
        return None;
      }
      watermark := watermark + POINTER_INCREMENT;
      if watermark >= pointersEnd {
        return None;
      }
      ptr := Some(newPtr);
    }

    predicate HandlesStore(addr: int) {
      start <= addr <= end || pointersStart <= addr <= pointersEnd
    }

    predicate HandlesLoad(addr: int) {
      start <= addr <= end || pointersStart <= addr <= pointersEnd
    }

    method ReadBeforeWrite(addr: int, size: nat, data: seq<byte>, random: seq<byte>) returns (r: Option<seq<byte>>)
      modifies this
      ensures Result(State(), r) == Discover(old(State()), addr, size, data, random)
    {
      var newData := data;
      if addressSize == size {
        var ptr := GeneratePointer();
        if ptr == None {
          return None;
        }
        pointerMap := pointerMap[addr := ptr.value];
        if ptr.value >= Pow256(size) {
          return None;
        }
        newData := ToBytes(ptr.value, size);
      } else {
        newData := random;
      }
      knownInputs := knownInputs[addr := size];
      r := if |data| == |newData| then Some(newData) else None;
    }

    method WriteBeforeRead(addr: int, size: nat, data: seq<byte>) returns (r: seq<byte>)
      modifies this`knownOutputs
      ensures knownOutputs == old(knownOutputs)[addr := size] && r == data
    {
      knownOutputs := knownOutputs[addr := size];
      r := data;
    }

    method InInputRange(addr: int) returns (r: Option<bool>)
      modifies this`watermark
      ensures Result(State(), r) == CheckRange(old(State()), addr)
    {
      if addr in knownInputs {
        return Some(true);
      }
      if pointersStart <= addr < pointersEnd {
        if addr > watermark {
          watermark := watermark + POINTER_INCREMENT;
          if watermark >= pointersEnd {
            return None;
          }
        }
        return Some(true);
      }
      r := Some(start <= addr < end);
    }

    method HandleCompute(result: int, base: int, scale: int, index: int, disp: int, size: nat) returns (r: Option<int>)
      modifies this
      ensures Result(State(), r) == NoteComputed(old(State()), result, [base, scale, index, disp], size)
    {
      var parts := [base, scale, index, disp];
      var inside := InInputRange(result);
      if inside == None {
        return None;
      }
      if inside.value {
        knownInputs := knownInputs[result := size];
      } else {
        var i := 0;
        while i < |parts|
          invariant i <= |parts| && State() == CheckRange(old(State()), result).policy
          invariant forall j :: 0 <= j < i ==> !(parts[j] in knownInputs && parts[j] != 0)
        {
          if parts[i] in knownInputs && parts[i] != 0 {
            assert FromInput(State(), parts);
            knownInputs := knownInputs[result := size];
            return Some(result);
          }
          i := i + 1;
        }
      }
      r := Some(result);
    }

    method GetOutputs() returns (merged: seq<Area>)
      ensures Reports(knownOutputs, merged)
      ensures exists keys ::
        Ascending(keys) && Lists(keys, knownOutputs.Keys) && merged == Merge(AreasOf(keys, knownOutputs))
    {
      hide AreasOf, Merge, Reports, Ascending, Lists;
      var keys := Sorted(knownOutputs.Keys);
      ghost var areas := AreasOf(keys, knownOutputs);
      merged := [];
      MergedReports(keys, knownOutputs);
      MergeFirst(areas);
      if |keys| == 0 {
        return;
      }
      var entry := keys[0];
      AreaAt(keys, knownOutputs, 0);
      merged := merged + [Area(entry, knownOutputs[entry])];
      var watermark := entry + knownOutputs[entry];
      for i := 1 to |keys|
        invariant merged == Merge(areas[..i]) != []
        invariant entry == Last(merged).start && watermark == End(Last(merged))
      {
        AreaAt(keys, knownOutputs, i);
        MergeNext(areas, i);
        var addr := keys[i];
        var writeSize := knownOutputs[addr];
        if addr >= watermark {
          merged := merged + [Area(addr, writeSize)];
          watermark := addr + writeSize;
          entry := addr;
        } else if addr + writeSize > watermark {
          var newWatermark := addr + writeSize;
          merged := merged[|merged| - 1 := Area(entry, newWatermark - entry)];
          watermark := newWatermark;
        }
      }
      WholeIs(areas, |keys|);
    }

    method GetInputs() returns (merged: seq<Input>)
      ensures Reports(knownInputs, Extents(merged))
      ensures exists keys :: Ascending(keys) && Lists(keys, knownInputs.Keys)
                             && merged == MergeInputs(State(), AreasOf(keys, knownInputs))
    {
      hide AreasOf, Merge, MergeInputs, Reports, Ascending, Lists, MakeKind, Extents;
      var keys := Sorted(knownInputs.Keys);
      ghost var areas := AreasOf(keys, knownInputs);
      merged := [];
      MergedReports(keys, knownInputs);
      InputAreas(State(), areas);
      MergeInputsFirst(State(), areas);
      if |keys| == 0 {
        return;
      }
      var entry := keys[0];
      AreaAt(keys, knownInputs, 0);
      merged := merged + [Input(entry, knownInputs[entry], KindOf(entry, knownInputs[entry]))];
      var watermark := entry + knownInputs[entry];
      for i := 1 to |keys|
        invariant merged == MergeInputs(State(), areas[..i]) != []
        invariant entry == merged[|merged| - 1].start && watermark == entry + merged[|merged| - 1].size
      {
        AreaAt(keys, knownInputs, i);
        MergeInputsNext(State(), areas, i);
        var addr := keys[i];
        var readSize := knownInputs[addr];
        if addr >= watermark {
          merged := merged + [Input(addr, readSize, KindOf(addr, readSize))];
          watermark := addr + readSize;
          entry := addr;
        } else if addr + readSize > watermark {
          var newWatermark := addr + readSize;
          merged := merged[|merged| - 1 := Input(entry, newWatermark - entry, KindOf(addr, newWatermark - entry))];
          watermark := newWatermark;
        }
      }
      WholeIs(areas, |keys|);
    }

    function KindOf(addr: int, size: nat): (k: Kind)
      reads this
      ensures k == MakeKind(State(), addr, size)
    {
      if addr in pointerMap then Pointer(pointerMap[addr]) else if size != 0 then Data else Computed
    }
  }
}
