/**
 Pointer space over whole runs (godefroid/policies.py:72-93, 118-144 and 244-263): which slot each read at pointer size
 is given, what is recorded for it, and exactly when a run fails.
 */
module PointerRuns {
  import opened Bits
  import opened Areas
  import opened InputPolicy
  import opened KnownInputs

  // Event k takes the next slot of pointer space: a read at pointer size, which is given it, or a computed address
  // beyond it that is not yet known, which only skips one slot, however far beyond it lies.
  ghost predicate Takes(p: Policy, es: seq<Event>, k: nat)
    requires k < |es|
    decreases k, 1
  {
    match es[k]
    case Read(_, size, _, _) => size == p.addressSize
    case Write(_, _) => false
    case Compute(a, _, _) =>
      a > FreeSlot(p, es, k) && p.pointersStart <= a < p.pointersEnd && !KnownBefore(p, es, k, a)
  }

  // The slot that is next after k events.
  ghost function FreeSlot(p: Policy, es: seq<Event>, k: nat): nat
    requires k <= |es|
    decreases k, 0
  {
    if k == 0 then p.pointersStart else FreeSlot(p, es, k - 1) + if Takes(p, es, k - 1) then 0x400 else 0
  }

  // Event k fails: there is no slot, or its address has no room in a pointer, or the data have the wrong size.
  ghost predicate Fails(p: Policy, es: seq<Event>, k: nat) {
    && k < |es|
    && var slot := FreeSlot(p, es, k);
       match es[k]
       case Read(_, size, held, random) =>
         if size == p.addressSize then
           || slot + size >= p.pointersEnd || slot + 0x400 >= p.pointersEnd
           || slot >= Pow256(size) || |held| != size
         else |held| != |random|
       case Write(_, _) => false
       case Compute(_, _, _) => Takes(p, es, k) && slot + 0x400 >= p.pointersEnd
  }

  ghost predicate PointerRead(p: Policy, es: seq<Event>, k: nat, a: int) {
    k < |es| && es[k].Read? && es[k].size == p.addressSize && es[k].addr == a
  }

  ghost predicate LastPointerRead(p: Policy, es: seq<Event>, k: nat, a: int) {
    PointerRead(p, es, k, a) && forall j: nat :: k < j ==> !PointerRead(p, es, j, a)
  }

  // What is recorded for an address is the slot that its last read at pointer size was given.
  ghost predicate PointersAre(p: Policy, es: seq<Event>, pointers: map<int, nat>) {
    && (forall a :: a in pointers ==> exists k: nat :: LastPointerRead(p, es, k, a))
    && forall k: nat, a :: LastPointerRead(p, es, k, a) ==> a in pointers && pointers[a] == FreeSlot(p, es, k)
  }

  // What happens later does not matter.
  lemma {:induction false} SlotPrefix(p: Policy, es: seq<Event>, n: nat, k: nat)
    requires k <= n <= |es|
    ensures FreeSlot(p, es[..n], k) == FreeSlot(p, es, k)
    ensures k < n ==> (Takes(p, es[..n], k) <==> Takes(p, es, k))
    decreases k
  {
    hide KnownBefore;
    if k > 0 {
      SlotPrefix(p, es, n, k - 1);
    }
    if k < n {
      assert es[..n][k] == es[k];
      KnownPrefix(p, es, n, k, es[k].addr);
    }
  }

  lemma FailsPrefix(p: Policy, es: seq<Event>, n: nat, k: nat)
    requires k < n <= |es|
    ensures Fails(p, es[..n], k) <==> Fails(p, es, k)
  {
    hide Takes, FreeSlot;
    SlotPrefix(p, es, n, k);
  }

  // One event from a state in which the watermark is the next slot.
  lemma EventSlot(p: Policy, es: seq<Event>, l: Log)
    requires es != [] && !l.aborted && SameRanges(p, l.policy)
    requires
      var last := |es| - 1;
      && l.policy.watermark == FreeSlot(p, es, last)
      && (es[last].addr in l.policy.inputs <==> KnownBefore(p, es, last, es[last].addr))
    ensures
      var last := |es| - 1;
      var e, n := es[last], NextLog(l, es[last]);
      && (n.aborted <==> Fails(p, es, last))
      && (!n.aborted ==>
            && n.policy.watermark == FreeSlot(p, es, |es|)
            && n.policy.pointerMap == (
                 if PointerRead(p, es, last, e.addr) then l.policy.pointerMap[e.addr := FreeSlot(p, es, last)]
                 else l.policy.pointerMap))
  {
    hide KnownBefore, ToBytes, FromInput, Pow256;
    assert POINTER_INCREMENT == 0x400;
    var last := |es| - 1;
    assert FreeSlot(p, es, |es|) == FreeSlot(p, es, last) + if Takes(p, es, last) then 0x400 else 0;
  }

  lemma LastNext(p: Policy, es: seq<Event>, k: nat, a: int)
    requires es != []
    ensures
      var last := |es| - 1;
      LastPointerRead(p, es, k, a) <==>
        if PointerRead(p, es, last, a) then k == last else LastPointerRead(p, es[..last], k, a)
  {
    var last := |es| - 1;
    var init := es[..last];
    forall j: nat
      ensures PointerRead(p, es, j, a) <==> PointerRead(p, init, j, a) || (j == last && PointerRead(p, es, last, a))
    {
    }
    hide PointerRead;
    assert forall j: nat :: PointerRead(p, es, j, a) ==> j <= last by { ReadsWithin(p, es, a); }
    assert forall j: nat :: PointerRead(p, init, j, a) ==> j < last by { ReadsWithin(p, init, a); }
  }

  lemma ReadsWithin(p: Policy, es: seq<Event>, a: int)
    ensures forall j: nat :: PointerRead(p, es, j, a) ==> j < |es|
  {
  }

  lemma PointersNext(p: Policy, es: seq<Event>, before: map<int, nat>, after: map<int, nat>)
    requires es != [] && PointersAre(p, es[..|es| - 1], before)
    requires
      var last := |es| - 1;
      var a := es[last].addr;
      after == if PointerRead(p, es, last, a) then before[a := FreeSlot(p, es, last)] else before
    ensures PointersAre(p, es, after)
  {
    var last := |es| - 1;
    var init := es[..last];
    assert forall a :: PointerRead(p, es, last, a) ==> a == es[last].addr;
    hide FreeSlot, LastPointerRead, PointerRead;
    forall a | a in after
      ensures exists k: nat :: LastPointerRead(p, es, k, a)
    {
      LastNext(p, es, last, a);
      if !PointerRead(p, es, last, a) {
        var k: nat :| LastPointerRead(p, init, k, a);
        LastNext(p, es, k, a);
      }
    }
    forall k: nat, a | LastPointerRead(p, es, k, a)
      ensures a in after && after[a] == FreeSlot(p, es, k)
    {
      LastNext(p, es, k, a);
      if !PointerRead(p, es, last, a) {
        LastWithin(p, init, k, a);
        SlotPrefix(p, es, last, k);
      }
    }
  }

  lemma LastWithin(p: Policy, es: seq<Event>, k: nat, a: int)
    ensures LastPointerRead(p, es, k, a) ==> k < |es|
  {
  }

  // A run fails if and only if one of its events does; if none does, the watermark is the next slot, and each address
  // has the slot that it was last given.
  lemma {:induction false} RunPointers(p: Policy, es: seq<Event>)
    requires Initial(p)
    ensures Play(p, es).aborted <==> exists k: nat :: Fails(p, es, k)
    ensures !Play(p, es).aborted ==>
      && Play(p, es).policy.watermark == FreeSlot(p, es, |es|)
      && PointersAre(p, es, Play(p, es).policy.pointerMap)
  {
    hide NextLog, Fails, KnownAre, Makes, Takes, KnownBefore, PointerRead;
    if es == [] {
      NoEvents(p);
    } else {
      var last := |es| - 1;
      var init := es[..last];
      var l := Play(p, init);
      RunPointers(p, init);
      FailsEarlier(p, es);
      if l.aborted {
        AbortedStays(l, es[last]);
      } else {
        KnownExactly(p, init);
        KnownAt(p, init, l.policy.inputs, es[last].addr);
        KnownPrefix(p, es, last, last, es[last].addr);
        SlotPrefix(p, es, last, last);
        EventSlot(p, es, l);
        if !NextLog(l, es[last]).aborted {
          PointersNext(p, es, l.policy.pointerMap, NextLog(l, es[last]).policy.pointerMap);
        }
      }
    }
  }

  lemma NoEvents(p: Policy)
    requires Initial(p)
    ensures FreeSlot(p, [], 0) == p.watermark && PointersAre(p, [], map[]) && forall k: nat :: !Fails(p, [], k)
  {
  }

  lemma KnownAt(p: Policy, es: seq<Event>, inputs: map<int, nat>, a: int)
    requires KnownAre(p, es, inputs)
    ensures a in inputs <==> KnownBefore(p, es, |es|, a)
  {
  }

  lemma FailsEarlier(p: Policy, es: seq<Event>)
    requires es != []
    ensures (exists k: nat :: Fails(p, es, k)) <==>
      var init := es[..|es| - 1];
      (exists k: nat :: Fails(p, init, k)) || Fails(p, es, |es| - 1)
  {
    var last := |es| - 1;
    forall k: nat
      ensures Fails(p, es[..last], k) <==> Fails(p, es, k) && k < last
    {
      FailsWithin(p, es, k);
      FailsWithin(p, es[..last], k);
      if k < last {
        FailsPrefix(p, es, last, k);
      }
    }
    hide Fails;
    if k: nat :| Fails(p, es, k) {
      FailsWithin(p, es, k);
      assert Fails(p, es[..last], k) || k == last;
    }
  }

  lemma FailsWithin(p: Policy, es: seq<Event>, k: nat)
    ensures Fails(p, es, k) ==> k < |es|
  {
  }

  // So the kind that a report gives to an input at a: a pointer if it was ever read at pointer size, and the last one
  // that it was given; and otherwise data, unless it is empty.
  lemma KindOverRun(p: Policy, es: seq<Event>, a: int, size: nat)
    requires Initial(p) && !Play(p, es).aborted
    ensures MakeKind(Play(p, es).policy, a, size).Pointer? <==> exists k: nat :: PointerRead(p, es, k, a)
    ensures forall k: nat :: LastPointerRead(p, es, k, a) ==>
      MakeKind(Play(p, es).policy, a, size) == Pointer(FreeSlot(p, es, k))
    ensures (forall k: nat :: !PointerRead(p, es, k, a)) ==>
      MakeKind(Play(p, es).policy, a, size) == if size == 0 then Computed else Data
  {
    hide Play, Fails, FreeSlot;
    RunPointers(p, es);
    if k: nat :| PointerRead(p, es, k, a) {
      var j := LastPointerFrom(p, es, k, a);
    }
  }

  lemma {:induction false} LastPointerFrom(p: Policy, es: seq<Event>, k: nat, a: int) returns (j: nat)
    requires PointerRead(p, es, k, a)
    ensures LastPointerRead(p, es, j, a)
    decreases |es| - k
  {
    if i: nat :| k < i && PointerRead(p, es, i, a) {
      j := LastPointerFrom(p, es, i, a);
    } else {
      j := k;
    }
  }

  // The input at keys[i] is the first of those that a reported area covers to reach up to its end.
  ghost predicate Decides(inputs: map<int, nat>, keys: seq<int>, i: nat, x: Input) {
    && i < |keys| && keys[i] in inputs
    && x.start <= keys[i] && keys[i] + inputs[keys[i]] == x.start + x.size
    && forall k :: 0 <= k < i && x.start <= keys[k] ==>
         keys[k] in inputs && keys[k] + inputs[keys[k]] < x.start + x.size
  }

  lemma DecidingInput(p: Policy, keys: seq<int>, j: nat) returns (i: nat)
    requires Ascending(keys) && Lists(keys, p.inputs.Keys) && j < |MergeInputs(p, AreasOf(keys, p.inputs))|
    ensures
      var x := MergeInputs(p, AreasOf(keys, p.inputs))[j];
      Decides(p.inputs, keys, i, x) && x.kind == MakeKind(p, keys[i], x.size)
  {
    hide MergeInputs, MakeKind, Ascending, Lists, AreasOf;
    var xs := AreasOf(keys, p.inputs);
    AreasOfCover(keys, p.inputs, 0);
    i := InputKind(p, xs, j);
    var x := MergeInputs(p, xs)[j];
    AreaAt(keys, p.inputs, i);
    forall k | 0 <= k < i && x.start <= keys[k]
      ensures keys[k] in p.inputs && keys[k] + p.inputs[keys[k]] < x.start + x.size
    {
      AreaAt(keys, p.inputs, k);
    }
  }

  // The kinds in a report.
  lemma ReportedKinds(p: Policy, es: seq<Event>, keys: seq<int>, j: nat) returns (i: nat)
    requires Initial(p) && !Play(p, es).aborted
    requires Ascending(keys) && Lists(keys, Play(p, es).policy.inputs.Keys)
    requires j < |MergeInputs(Play(p, es).policy, AreasOf(keys, Play(p, es).policy.inputs))|
    ensures
      var inputs := Play(p, es).policy.inputs;
      var x := MergeInputs(Play(p, es).policy, AreasOf(keys, inputs))[j];
      && Decides(inputs, keys, i, x)
      && (x.kind.Pointer? <==> exists k: nat :: PointerRead(p, es, k, keys[i]))
      && (forall k: nat :: LastPointerRead(p, es, k, keys[i]) ==> x.kind == Pointer(FreeSlot(p, es, k)))
      && (!x.kind.Pointer? ==> x.kind == if x.size == 0 then Computed else Data)
  {
    hide Play, MergeInputs, MakeKind, PointerRead, LastPointerRead, FreeSlot, Ascending, Lists, AreasOf;
    var policy := Play(p, es).policy;
    i := DecidingInput(policy, keys, j);
    KindOverRun(p, es, keys[i], MergeInputs(policy, AreasOf(keys, policy.inputs))[j].size);
  }
}
