/**
 Which bytes are reported as outputs (godefroid/policies.py:140-197 and godefroid/policy_map.py:61-93): not all that
 were written, since a store replaces what is known of an earlier one with the same start. Here is exactly which.
 */
module Outputs {
  import opened Bits
  import opened PageTables
  import opened Areas
  import opened InputPolicy
  import opened PolicyMap

  // A store that the policy is told of.
  predicate Noted(p: Policy, a: Access) {
    a.Store? && InSpace(p, a.addr)
  }

  predicate Spans(a: Access, b: int)
    requires a.Store?
  {
    a.addr <= b < a.addr + a.size
  }

  // Access k is told of, and no later one with the same start is.
  ghost predicate LastAt(p: Policy, accesses: seq<Access>, k: nat) {
    k < |accesses| && Noted(p, accesses[k]) && NotReplaced(p, accesses, k)
  }

  ghost predicate NotReplaced(p: Policy, accesses: seq<Access>, k: nat)
    requires k < |accesses|
  {
    forall j :: k < j < |accesses| && Noted(p, accesses[j]) ==> accesses[j].addr != accesses[k].addr
  }

  ghost predicate Told(p: Policy, accesses: seq<Access>, k: nat, b: int) {
    k < |accesses| && Noted(p, accesses[k]) && Spans(accesses[k], b)
  }

  ghost predicate Kept(p: Policy, accesses: seq<Access>, k: nat, b: int) {
    LastAt(p, accesses, k) && Spans(accesses[k], b)
  }

  // The outputs that are known

  // A map of starts to the sizes of the stores last there, as far as the policy is told of them.
  ghost predicate KnownOf(p: Policy, accesses: seq<Access>, outputs: map<int, nat>) {
    && (forall a :: a in outputs ==> exists k: nat :: LastAt(p, accesses, k) && accesses[k].addr == a)
    && forall k: nat :: LastAt(p, accesses, k) ==>
         accesses[k].addr in outputs && outputs[accesses[k].addr] == accesses[k].size
  }

  ghost predicate SameSpace(p: Policy, q: Policy) {
    p.start == q.start && p.end == q.end && p.pointersStart == q.pointersStart && p.pointersEnd == q.pointersEnd
  }

  lemma LastBefore(p: Policy, accesses: seq<Access>, k: nat)
    requires accesses != []
    ensures
      var init, last := accesses[..|accesses| - 1], accesses[|accesses| - 1];
      LastAt(p, accesses, k) <==>
        if k == |init| then Noted(p, last)
        else LastAt(p, init, k) && !(Noted(p, last) && last.addr == init[k].addr)
  {
    hide InSpace;
    var init := accesses[..|accesses| - 1];
    if LastAt(p, accesses, k) && k < |init| {
      assert forall j :: k < j < |init| ==> init[j] == accesses[j];
    }
  }

  lemma KnownNext(p: Policy, accesses: seq<Access>, before: map<int, nat>, after: map<int, nat>)
    requires accesses != [] && KnownOf(p, accesses[..|accesses| - 1], before)
    requires
      var last := accesses[|accesses| - 1];
      after == if Noted(p, last) then before[last.addr := last.size] else before
    ensures KnownOf(p, accesses, after)
  {
    hide NotReplaced, InSpace;
    var init, last := accesses[..|accesses| - 1], accesses[|accesses| - 1];
    forall a | a in after
      ensures exists k: nat :: LastAt(p, accesses, k) && accesses[k].addr == a
    {
      LastBefore(p, accesses, |init|);
      if !(Noted(p, last) && last.addr == a) {
        var k: nat :| LastAt(p, init, k) && init[k].addr == a;
        LastBefore(p, accesses, k);
      }
    }
    forall k: nat | LastAt(p, accesses, k)
      ensures accesses[k].addr in after && after[accesses[k].addr] == accesses[k].size
    {
      LastBefore(p, accesses, k);
    }
  }

  lemma PerformOutputs(s: MapState, a: Access)
    requires Perform(s, a).value.Some?
    ensures SameSpace(s.policy, Perform(s, a).state.policy)
    ensures Perform(s, a).state.policy.outputs ==
      if Noted(s.policy, a) then s.policy.outputs[a.addr := a.size] else s.policy.outputs
  {
    hide StoreFrom, PyAssign, PySlice, SomeLacks, MarkAll;
  }

  lemma {:induction false} RunOutputs(s: MapState, accesses: seq<Access>)
    requires s.policy.outputs == map[] && PerformAll(s, accesses).value.Some?
    ensures SameSpace(s.policy, PerformAll(s, accesses).state.policy)
    ensures KnownOf(s.policy, accesses, PerformAll(s, accesses).state.policy.outputs)
  {
    hide Perform, KnownOf;
    if accesses == [] {
      NothingKnown(s.policy);
    } else {
      var init, last := accesses[..|accesses| - 1], accesses[|accesses| - 1];
      RunOutputs(s, init);
      var t := PerformAll(s, init).state;
      PerformOutputs(t, last);
      KnownNext(s.policy, accesses, t.policy.outputs, Perform(t, last).state.policy.outputs);
    }
  }

  lemma NothingKnown(p: Policy)
    ensures KnownOf(p, [], map[])
  {
  }

  // What is written and what is reported

  // In every run that does not fail, the report has exactly the bytes of the stores that are last at their start,
  // among those that the policy is told of.
  lemma ReportedExactly(s: MapState, accesses: seq<Access>, merged: seq<Area>, b: int)
    requires s.policy.outputs == map[] && PerformAll(s, accesses).value.Some?
    requires Reports(PerformAll(s, accesses).state.policy.outputs, merged)
    ensures Covers(merged, b) <==> exists k: nat :: Kept(s.policy, accesses, k, b)
  {
    hide PerformAll, Covers, NotReplaced;
    RunOutputs(s, accesses);
    var outputs := PerformAll(s, accesses).state.policy.outputs;
    if Occupied(outputs, b) {
      var a :| a in outputs && a <= b < a + outputs[a];
      var k: nat :| LastAt(s.policy, accesses, k) && accesses[k].addr == a;
      assert Kept(s.policy, accesses, k, b);
    }
    if k: nat :| Kept(s.policy, accesses, k, b) {
      assert accesses[k].addr in outputs;
    }
  }

  lemma PerformMarks(s: MapState, a: Access, b: int)
    requires Perform(s, a).value.Some?
    ensures WasWritten in MarksAt(Perform(s, a).state.marks, b) <==>
      WasWritten in MarksAt(s.marks, b) || (Noted(s.policy, a) && Spans(a, b))
  {
    hide Discover, NoteComputed, StoreFrom, PyAssign, PySlice, SomeLacks;
  }

  // Exactly the bytes of stores that the policy is told of are marked as written.
  lemma {:induction false} WrittenExactly(s: MapState, accesses: seq<Access>, b: int)
    requires s.policy.outputs == map[] && WasWritten !in MarksAt(s.marks, b) && PerformAll(s, accesses).value.Some?
    ensures WasWritten in MarksAt(PerformAll(s, accesses).state.marks, b) <==>
      exists k: nat :: Told(s.policy, accesses, k, b)
  {
    hide Perform, MarksAt;
    if accesses != [] {
      var init, last := accesses[..|accesses| - 1], accesses[|accesses| - 1];
      WrittenExactly(s, init, b);
      RunOutputs(s, init);
      PerformMarks(PerformAll(s, init).state, last, b);
      forall k: nat | Told(s.policy, accesses, k, b)
        ensures Told(s.policy, init, k, b) || (Noted(s.policy, last) && Spans(last, b))
      {
      }
      if k: nat :| Told(s.policy, init, k, b) {
        assert Told(s.policy, accesses, k, b);
      }
      assert Noted(s.policy, last) && Spans(last, b) ==> Told(s.policy, accesses, |init|, b);
    }
  }

  // Every byte of a store that was replaced is that of one that was not.
  ghost predicate NothingLost(p: Policy, accesses: seq<Access>) {
    forall k: nat, b: int :: Told(p, accesses, k, b) ==> exists j: nat :: Kept(p, accesses, j, b)
  }

  // The exact condition: the report has all bytes written if and only if no replaced store had a byte of its own.
  lemma CompleteExactly(s: MapState, accesses: seq<Access>, merged: seq<Area>)
    requires s.policy.outputs == map[] && s.marks == map[] && PerformAll(s, accesses).value.Some?
    requires Reports(PerformAll(s, accesses).state.policy.outputs, merged)
    ensures (forall b :: WasWritten in MarksAt(PerformAll(s, accesses).state.marks, b) ==> Covers(merged, b))
      <==> NothingLost(s.policy, accesses)
  {
    hide PerformAll, Covers, Told, Kept;
    forall b
      ensures WasWritten in MarksAt(PerformAll(s, accesses).state.marks, b) <==>
        exists k: nat :: Told(s.policy, accesses, k, b)
      ensures Covers(merged, b) <==> exists k: nat :: Kept(s.policy, accesses, k, b)
    {
      WrittenExactly(s, accesses, b);
      ReportedExactly(s, accesses, merged, b);
    }
    if NothingLost(s.policy, accesses) {
      forall b | WasWritten in MarksAt(PerformAll(s, accesses).state.marks, b)
        ensures Covers(merged, b)
      {
        var k: nat :| Told(s.policy, accesses, k, b);
      }
    }
    if forall b :: WasWritten in MarksAt(PerformAll(s, accesses).state.marks, b) ==> Covers(merged, b) {
      forall k: nat, b: int | Told(s.policy, accesses, k, b)
        ensures exists j: nat :: Kept(s.policy, accesses, j, b)
      {
        assert WasWritten in MarksAt(PerformAll(s, accesses).state.marks, b);
      }
    }
  }

  // It is met if no store is shorter than an earlier one with the same start.
  ghost predicate NoneShorter(p: Policy, accesses: seq<Access>) {
    forall j, k ::
      (0 <= j < k < |accesses| && Noted(p, accesses[j]) && Noted(p, accesses[k])
       && accesses[j].addr == accesses[k].addr)
      ==> accesses[j].size <= accesses[k].size
  }

  lemma NoneShorterLoses(p: Policy, accesses: seq<Access>)
    requires NoneShorter(p, accesses)
    ensures NothingLost(p, accesses)
  {
    hide InSpace;
    forall k: nat, b: int | Told(p, accesses, k, b)
      ensures exists j: nat :: Kept(p, accesses, j, b)
    {
      var j := LastFrom(p, accesses, k);
      assert Kept(p, accesses, j, b);
    }
  }

  lemma {:induction false} LastFrom(p: Policy, accesses: seq<Access>, k: nat) returns (j: nat)
    requires k < |accesses| && Noted(p, accesses[k])
    ensures k <= j && LastAt(p, accesses, j) && accesses[j].addr == accesses[k].addr
    decreases |accesses| - k
  {
    if i :| k < i < |accesses| && Noted(p, accesses[i]) && accesses[i].addr == accesses[k].addr {
      j := LastFrom(p, accesses, i);
    } else {
      j := k;
    }
  }

  // A store of two bytes and then one of one byte at the same address: the second byte was written and is not
  // reported.
  lemma OutputLost(p: Policy, merged: seq<Area>)
    requires InSpace(p, 0) && p.outputs == map[]
    ensures
      var r := PerformAll(MapState(0, [0, 0], map[], p), [Store(0, 2, [1, 2]), Store(0, 1, [3])]);
      && r.value.Some? && WasWritten in MarksAt(r.state.marks, 1)
      && (Reports(r.state.policy.outputs, merged) ==> !Covers(merged, 1))
  {
    hide PerformAll, Reports, Covers;
    var s, accesses := MapState(0, [0, 0], map[], p), [Store(0, 2, [1, 2]), Store(0, 1, [3])];
    TwoStores(s, accesses);
    WrittenExactly(s, accesses, 1);
    assert Told(p, accesses, 0, 1);
    assert !NotReplaced(p, accesses, 0) by { assert accesses[1].addr == accesses[0].addr; }
    if Reports(PerformAll(s, accesses).state.policy.outputs, merged) {
      ReportedExactly(s, accesses, merged, 1);
    }
  }

  lemma TwoStores(s: MapState, accesses: seq<Access>)
    requires s.base == 0 && |s.data| == 2 && accesses == [Store(0, 2, [1, 2]), Store(0, 1, [3])]
    ensures PerformAll(s, accesses).value.Some?
  {
    hide PySlice, PyAssign, StoreFrom, SomeLacks, InSpace, MarkAll;
    assert accesses[..1] == [Store(0, 2, [1, 2])] && accesses[..1][..0] == [];
    assert PerformAll(s, accesses[..1][..0]).state == s;
    assert PerformAll(s, accesses[..1]) == StoreOf(s, 0, 2, [1, 2]);
    StoreInside(s, 2, [1, 2]);
    StoreInside(StoreOf(s, 0, 2, [1, 2]).state, 1, [3]);
  }

  lemma StoreInside(s: MapState, size: nat, bs: seq<byte>)
    requires s.base == 0 && |bs| == size <= |s.data|
    ensures
      var r := StoreOf(s, 0, size, bs);
      r.value.Some? && r.state.base == 0 && |r.state.data| == |s.data|
  {
    hide PyAssign, SomeLacks, MarkAll, InSpace;
    AssignIsPatch(s.data, 0, s.data[..size]);
    var p := PrepareStore(s, 0, size);
    StoredBytes(p.state.data, 0, bs);
  }
}
