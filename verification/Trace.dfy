/** The calls that one step makes on the user's callbacks, and the order the executor promises. */
module Trace {
  import opened Bits
  import opened FlatMemory
  import opened Machine
  import opened Updates
  import opened Isa

  datatype RegHint = General | ProgramCounter | WriteBackHint | MemoryBase | MemoryIndex

  datatype Call =
    | ReadRegCall(id: RegId, regHint: RegHint)
    | ReadFlagCall(flag: Flag)
    | ReadMemCall(address: Word, size: nat, hint: MemHint)
    | ReadFpuCall
    | WriteMemCall(address: Word, size: nat)
    | WriteFpuCall
    | WriteFlagCall(flag: Flag)
    | WriteRegCall(id: RegId)

  // Reads come first; then memory, the FPU, flags, registers, and last the program counter.
  function Rank(c: Call): nat {
    match c
    case ReadRegCall(_, _) | ReadFlagCall(_) | ReadMemCall(_, _, _) | ReadFpuCall => 0
    case WriteMemCall(_, _) => 1
    case WriteFpuCall => 2
    case WriteFlagCall(_) => 3
    case WriteRegCall(id) => if id == RIP then 5 else 4
  }

  const PC_RANK: nat := 5

  // Reading

  function ReadRegs(t: seq<Call>): set<RegId> {
    if t == [] then {}
    else
      var c := t[|t| - 1];
      ReadRegs(t[..|t| - 1]) + if c.ReadRegCall? then {c.id} else {}
  }

  // Calls that only read, and request the registers in `used`, each of them once.
  ghost predicate Reads(t: seq<Call>, used: set<RegId>) {
    && NoWrites(t)
    && ReadRegs(t) == used
    && forall i, j :: 0 <= i < j < |t| && t[i].ReadRegCall? && t[j].ReadRegCall? ==> t[i].id != t[j].id
  }

  ghost predicate NoWrites(t: seq<Call>) {
    forall i :: 0 <= i < |t| ==> Rank(t[i]) == 0
  }

  lemma {:induction false} ReadRegsListed(t: seq<Call>, i: nat)
    requires i < |t| && t[i].ReadRegCall?
    ensures t[i].id in ReadRegs(t)
  {
    if i < |t| - 1 {
      ReadRegsListed(t[..|t| - 1], i);
    }
  }

  lemma ReadMore(t: seq<Call>, used: set<RegId>, c: Call)
    requires Reads(t, used) && Rank(c) == 0 && (c.ReadRegCall? ==> c.id !in used)
    ensures Reads(t + [c], used + if c.ReadRegCall? then {c.id} else {})
  {
    var r := t + [c];
    assert r[..|t|] == t;
    forall i, j | 0 <= i < j < |r| && r[i].ReadRegCall? && r[j].ReadRegCall?
      ensures r[i].id != r[j].id
    {
      if j == |t| {
        ReadRegsListed(t, i);
      }
    }
  }

  lemma ReadOther(t: seq<Call>, used: set<RegId>, c: Call)
    requires Reads(t, used) && Rank(c) == 0 && !c.ReadRegCall?
    ensures Reads(t + [c], used)
  {
    ReadMore(t, used, c);
    assert used + {} == used;
  }

  lemma ReadFpu(t: seq<Call>, used: set<RegId>)
    requires Reads(t, used)
    ensures Reads(t + [ReadFpuCall], used)
  {
    ReadOther(t, used, ReadFpuCall);
  }

  lemma ReadsDoNotWrite(t: seq<Call>, used: set<RegId>)
    requires Reads(t, used)
    ensures NoWrites(t)
  {
  }

  // The user agreed to a write of this memory earlier in the step.
  ghost predicate Requested(t: seq<Call>, address: Word, size: nat) {
    exists i :: 0 <= i < |t| && t[i].ReadMemCall? && t[i].address == address && t[i].size == size
      && ChecksWrite(t[i].hint)
  }

  lemma RequestedLater(t: seq<Call>, later: seq<Call>, address: Word, size: nat)
    requires Requested(t, address, size) && t <= later
    ensures Requested(later, address, size)
  {
    var i :| 0 <= i < |t| && t[i].ReadMemCall? && t[i].address == address && t[i].size == size
      && ChecksWrite(t[i].hint);
    assert later[i] == t[i];
  }

  lemma RequestedNow(t: seq<Call>, address: Word, size: nat, hint: MemHint)
    requires ChecksWrite(hint)
    ensures Requested(t + [ReadMemCall(address, size, hint)], address, size)
  {
    assert (t + [ReadMemCall(address, size, hint)])[|t|] == ReadMemCall(address, size, hint);
  }

  // Writing

  function CallOf(u: Update): Call {
    match u
    case ToMem(address, size, _) => WriteMemCall(address, size)
    case ToFpu(_) => WriteFpuCall
    case ToFlag(f, _) => WriteFlagCall(f)
    case ToReg(id, _) => WriteRegCall(id)
  }

  function CallsOf(us: seq<Update>): (t: seq<Call>)
    ensures |t| == |us| && forall i :: 0 <= i < |us| ==> t[i] == CallOf(us[i])
  {
    if us == [] then [] else CallsOf(us[..|us| - 1]) + [CallOf(us[|us| - 1])]
  }

  // A list of updates has been written, from state e0 after the calls t0, up to a refusal if there was one.
  ghost predicate Wrote(e0: Env, t0: seq<Call>, us: seq<Update>, status: Status, e1: Env, t1: seq<Call>) {
    && ApplyAll(e0, us) == (if status == Good then Done(e1) else Torn(e1, status))
    && t1 == t0 + CallsOf(Attempted(e0, us))
  }

  lemma WroteNothing(e: Env, t: seq<Call>)
    ensures Wrote(e, t, [], Good, e, t)
  {
    ApplyNone(e);
  }

  lemma WroteOne(e: Env, t: seq<Call>, u: Update)
    ensures
      var r := ApplyTo(e, u);
      Wrote(e, t, [u], if r.Done? then Good else r.status, r.env, t + [CallOf(u)])
  {
    hide ApplyAll, Attempted, Refused, Apply, CallOf;
    ApplyOne(e, u);
    assert CallsOf([u]) == [CallOf(u)];
  }

  lemma CallsAppend(us: seq<Update>, vs: seq<Update>)
    ensures CallsOf(us + vs) == CallsOf(us) + CallsOf(vs)
  {
  }

  lemma WroteMore(e0: Env, t0: seq<Call>, us: seq<Update>, e1: Env, t1: seq<Call>, vs: seq<Update>, status: Status,
                  e2: Env, t2: seq<Call>)
    requires Wrote(e0, t0, us, Good, e1, t1) && Wrote(e1, t1, vs, status, e2, t2)
    ensures Wrote(e0, t0, us + vs, status, e2, t2)
  {
    hide ApplyAll, Attempted;
    ApplyAppend(e0, us, vs);
    DoneAttemptsAll(e0, us);
    CallsAppend(Attempted(e0, us), Attempted(e1, vs));
  }

  lemma WroteLess(e0: Env, t0: seq<Call>, us: seq<Update>, status: Status, e1: Env, t1: seq<Call>, vs: seq<Update>)
    requires Wrote(e0, t0, us, status, e1, t1) && status != Good
    ensures Wrote(e0, t0, us + vs, status, e1, t1)
  {
    hide ApplyAll, Attempted;
    ApplyAppend(e0, us, vs);
  }

  lemma WroteKeepsKeys(e0: Env, t0: seq<Call>, us: seq<Update>, e1: Env, t1: seq<Call>)
    requires Wrote(e0, t0, us, Good, e1, t1)
    ensures e1.mem.Keys == e0.mem.Keys
  {
    KeysKept(e0, us);
  }

  // Steps

  // The calls of a step that comes to its writes: reads, and then these updates. Memory that is written was
  // announced as written when it was read.
  ghost predicate StepTrace(t: seq<Call>, used: set<RegId>, us: seq<Update>) {
    && |us| <= |t|
    && Reads(t[..|t| - |us|], used)
    && t[|t| - |us|..] == CallsOf(us)
    && forall u :: u in us && u.ToMem? ==> Requested(t[..|t| - |us|], u.address, u.size)
  }

  // The calls that a step from state e makes: if it is rejected, it only reads; else it makes the updates of
  // its plan, in their order, up to the first that is refused.
  ghost predicate TraceOf(m: Machine, e: Env, t: seq<Call>) {
    match PlanStep(m, e)
    case Reject(_) => NoWrites(t)
    case Write(inst, us) => StepTrace(t, {RIP} + UsedIds(inst), Attempted(e, us))
  }

  ghost predicate InOrder(us: seq<Update>) {
    forall i, j :: 0 <= i < j < |us| ==> Rank(CallOf(us[i])) <= Rank(CallOf(us[j]))
  }

  // Updates of one rank only.
  ghost predicate Ranked(us: seq<Update>, k: nat) {
    forall u :: u in us ==> Rank(CallOf(u)) == k
  }

  lemma OrderedMore(us: seq<Update>, vs: seq<Update>, k: nat)
    requires InOrder(us) && (forall u :: u in us ==> Rank(CallOf(u)) <= k) && Ranked(vs, k)
    ensures InOrder(us + vs) && forall u :: u in us + vs ==> Rank(CallOf(u)) <= k
  {
    hide Rank, CallOf;
    var r := us + vs;
    forall i, j | 0 <= i < j < |r|
      ensures Rank(CallOf(r[i])) <= Rank(CallOf(r[j]))
    {
      var u, v := r[i], r[j];
      assert i < |us| ==> u in us;
      assert i >= |us| ==> u in vs;
      assert j >= |us| ==> v in vs;
    }
  }

  lemma LateInOrder(us: seq<Update>, flagSet: set<Flag>, flags: Flags, regSet: set<RegId>, regs: Regs, pc: Word)
    requires InOrder(us) && forall u :: u in us ==> Rank(CallOf(u)) <= 2
    ensures InOrder(us + LateUpdates(flagSet, flags, regSet, regs, pc))
  {
    hide FlagUpdates, RegUpdates;
    var fs, rs := FlagUpdates(flagSet, flags, |FLAG_ORDER|), RegUpdates(regSet, regs, NUM_REGS);
    forall u | u in fs
      ensures Rank(CallOf(u)) == 3
    {
      FlagUpdatesAre(flagSet, flags, |FLAG_ORDER|, u);
    }
    forall u | u in rs
      ensures Rank(CallOf(u)) == 4
    {
      RegUpdatesAre(regSet, regs, NUM_REGS, u);
    }
    OrderedMore(us, fs, 3);
    OrderedMore(us + fs, rs, 4);
    OrderedMore(us + fs + rs, [ToReg(RIP, pc)], PC_RANK);
    assert us + LateUpdates(flagSet, flags, regSet, regs, pc) == us + fs + rs + [ToReg(RIP, pc)];
  }

  lemma EarlyInOrder(inst: Inst, e: Env, mem0: nat, mem1: nat, fpu: nat)
    ensures InOrder(EarlyUpdates(inst, e, mem0, mem1, fpu))
    ensures forall u :: u in EarlyUpdates(inst, e, mem0, mem1, fpu) ==> Rank(CallOf(u)) <= 2
  {
    hide AddressOf;
    var us, vs := MemUpdates(inst, e, 0, mem0), MemUpdates(inst, e, 1, mem1);
    OrderedMore([], us, 1);
    OrderedMore([] + us, vs, 1);
    var ws: seq<Update> := if inst.usesFpu then [ToFpu(fpu)] else [];
    OrderedMore([] + us + vs, ws, 2);
    assert [] + us + vs + ws == EarlyUpdates(inst, e, mem0, mem1, fpu);
  }

  // The program counter is written once, at the end.
  ghost predicate PcLast(us: seq<Update>) {
    us != [] && us[|us| - 1].ToReg? && us[|us| - 1].id == RIP
    && forall i :: 0 <= i < |us| - 1 ==> Rank(CallOf(us[i])) < PC_RANK
  }

  lemma LatePcLast(us: seq<Update>, flagSet: set<Flag>, flags: Flags, regSet: set<RegId>, regs: Regs, pc: Word)
    requires forall u :: u in us ==> Rank(CallOf(u)) <= 2
    ensures PcLast(us + LateUpdates(flagSet, flags, regSet, regs, pc))
  {
    hide FlagUpdates, RegUpdates;
    var fs, rs := FlagUpdates(flagSet, flags, |FLAG_ORDER|), RegUpdates(regSet, regs, NUM_REGS);
    var all := us + LateUpdates(flagSet, flags, regSet, regs, pc);
    assert all == us + fs + rs + [ToReg(RIP, pc)];
    forall i | 0 <= i < |all| - 1
      ensures Rank(CallOf(all[i])) < PC_RANK
    {
      var u := all[i];
      if u in us {
      } else if u in fs {
        FlagUpdatesAre(flagSet, flags, |FLAG_ORDER|, u);
      } else {
        assert u in rs;
        RegUpdatesAre(regSet, regs, NUM_REGS, u);
      }
    }
  }

  // Memory, the FPU, flags, registers, and the program counter, once and last.
  lemma PlanInOrder(m: Machine, e: Env)
    requires PlanStep(m, e).Write?
    ensures InOrder(PlanStep(m, e).updates) && PcLast(PlanStep(m, e).updates)
  {
    hide PlanInst, Decoded, OperandsReadable, Reference, RegsReadable, ReadSet, LateUpdates, EarlyUpdates, InOrder;
    hide PcLast;
    hide Rank, CallOf, FetchLength, NextPC, WriteBackIds;
    StepCases(m, e);
    var inst := Fetch(m, e).value;
    PlanCases(m, inst, e);
    if inst.nop {
      var late := NopUpdates(inst, e, NextPC(m, inst, e));
      NoneInOrder();
      LateInOrder([], inst.writtenFlags, e.flags, WriteBackIds(inst, e.regs), e.regs, NextPC(m, inst, e));
      LatePcLast([], inst.writtenFlags, e.flags, WriteBackIds(inst, e.regs), e.regs, NextPC(m, inst, e));
      assert [] + late == late;
    } else {
      var o := Reference(m, inst, e);
      var early := EarlyUpdates(inst, e, o.s.mem0, o.s.mem1, o.s.fpu);
      EarlyInOrder(inst, e, o.s.mem0, o.s.mem1, o.s.fpu);
      LateInOrder(early, inst.writtenFlags, o.s.flags, WriteBackIds(inst, e.regs), o.s.regs, o.pc);
      LatePcLast(early, inst.writtenFlags, o.s.flags, WriteBackIds(inst, e.regs), o.s.regs, o.pc);
    }
  }

  lemma NoneInOrder()
    ensures InOrder([])
  {
  }

  // Every successful step's calls: all reads before all writes, no register read twice, writes in the order of
  // their ranks, the program counter written once, at the end, and memory written only where that was announced.
  lemma CallsInOrder(m: Machine, e: Env, t: seq<Call>)
    requires TraceOf(m, e, t) && Step(m, e).Done?
    ensures t != [] && t[|t| - 1] == WriteRegCall(RIP)
    ensures forall i, j :: 0 <= i < j < |t| ==> Rank(t[i]) <= Rank(t[j])
    ensures forall i :: 0 <= i < |t| - 1 ==> Rank(t[i]) < PC_RANK
    ensures forall i, j :: 0 <= i < j < |t| && t[i].ReadRegCall? && t[j].ReadRegCall? ==> t[i].id != t[j].id
    ensures forall i :: 0 <= i < |t| && t[i].WriteMemCall? ==> Requested(t[..i], t[i].address, t[i].size)
  {
    hide PlanStep, ApplyAll, Rank, CallOf, Requested;
    StepIs(m, e);
    var us := PlanStep(m, e).updates;
    PlanInOrder(m, e);
    DoneAttemptsAll(e, us);
    ReadsThenWrites(t, {RIP} + UsedIds(PlanStep(m, e).inst), us);
  }

  lemma CallAt(t: seq<Call>, used: set<RegId>, us: seq<Update>, i: nat)
    requires StepTrace(t, used, us) && i < |t|
    ensures var k := |t| - |us|;
      if i < k then t[i] == t[..k][i] && Rank(t[i]) == 0 else t[i] == CallOf(us[i - k]) && Rank(t[i]) > 0
  {
    hide Requested;
    var k := |t| - |us|;
    if i < k {
      assert t[..k][i] == t[i];
    } else {
      assert t[k..][i - k] == t[i];
    }
  }

  lemma RanksInOrder(t: seq<Call>, used: set<RegId>, us: seq<Update>, i: nat, j: nat)
    requires StepTrace(t, used, us) && InOrder(us) && i < j < |t|
    ensures Rank(t[i]) <= Rank(t[j])
  {
    hide StepTrace, Rank, CallOf;
    CallAt(t, used, us, i);
    CallAt(t, used, us, j);
  }

  lemma ReadOnce(t: seq<Call>, used: set<RegId>, us: seq<Update>, i: nat, j: nat)
    requires StepTrace(t, used, us) && i < j < |t| && t[i].ReadRegCall? && t[j].ReadRegCall?
    ensures t[i].id != t[j].id
  {
    CallAt(t, used, us, i);
    CallAt(t, used, us, j);
  }

  lemma WriteRequested(t: seq<Call>, used: set<RegId>, us: seq<Update>, i: nat)
    requires StepTrace(t, used, us) && i < |t| && t[i].WriteMemCall?
    ensures Requested(t[..i], t[i].address, t[i].size)
  {
    hide Requested, Reads;
    CallAt(t, used, us, i);
    var k := |t| - |us|;
    var u := us[i - k];
    assert u in us;
    RequestedWithin(t, k, i, t[i].address, t[i].size);
  }

  lemma ReadsThenWrites(t: seq<Call>, used: set<RegId>, us: seq<Update>)
    requires StepTrace(t, used, us) && InOrder(us) && PcLast(us)
    ensures t != [] && t[|t| - 1] == WriteRegCall(RIP)
    ensures forall i, j :: 0 <= i < j < |t| ==> Rank(t[i]) <= Rank(t[j])
    ensures forall i :: 0 <= i < |t| - 1 ==> Rank(t[i]) < PC_RANK
    ensures forall i, j :: 0 <= i < j < |t| && t[i].ReadRegCall? && t[j].ReadRegCall? ==> t[i].id != t[j].id
    ensures forall i :: 0 <= i < |t| && t[i].WriteMemCall? ==> Requested(t[..i], t[i].address, t[i].size)
  {
    assert |us| <= |t|;
    hide StepTrace, Requested, Rank, InOrder;
    CallAt(t, used, us, |t| - 1);
    forall i, j | 0 <= i < j < |t|
      ensures Rank(t[i]) <= Rank(t[j])
    {
      RanksInOrder(t, used, us, i, j);
    }
    forall i | 0 <= i < |t| - 1
      ensures Rank(t[i]) < PC_RANK
    {
      CallAt(t, used, us, i);
    }
    forall i, j | 0 <= i < j < |t| && t[i].ReadRegCall? && t[j].ReadRegCall?
      ensures t[i].id != t[j].id
    {
      ReadOnce(t, used, us, i, j);
    }
    forall i | 0 <= i < |t| && t[i].WriteMemCall?
      ensures Requested(t[..i], t[i].address, t[i].size)
    {
      WriteRequested(t, used, us, i);
    }
  }

  lemma RequestedWithin(t: seq<Call>, k: nat, i: nat, address: Word, size: nat)
    requires k <= i <= |t| && Requested(t[..k], address, size)
    ensures Requested(t[..i], address, size)
  {
    var r := t[..k];
    var j :| 0 <= j < |r| && r[j].ReadMemCall? && r[j].address == address && r[j].size == size
      && ChecksWrite(r[j].hint);
    assert t[..i][j] == r[j];
  }
}
