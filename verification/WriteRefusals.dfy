/**
 Which updates a step comes to, and what it stops with when one is refused (microx/Executor.cpp:461-496, 1525-1550 and
 2217-2242): the FPU before flags, and flags before registers.
 */
module WriteRefusals {
  import opened Bits
  import opened FlatMemory
  import opened Machine
  import opened Isa
  import opened Updates
  import opened Protection
  import opened TornSteps
  import opened Trace
  import opened FetchedBytes

  // A string pointer that the instruction moves: not when a repeated one finds the count at zero.
  predicate MovesPointer(inst: Inst, e: Env, id: RegId) {
    && !inst.nop && inst.form.Str? && (inst.form.rep == NoRep || e.regs[RCX] != 0)
    && ((id == RSI && inst.form.op in {Lods, Movs, Cmps}) || (id == RDI && inst.form.op in {Stos, Scas, Movs, Cmps}))
  }

  // A register that goes back: a written operand, a moved string pointer, or the program counter.
  predicate GoesBack(inst: Inst, e: Env, id: RegId) {
    || id == RIP || MovesPointer(inst, e, id)
    || exists i :: 0 <= i < |inst.regs| && inst.regs[i].written && inst.regs[i].reg.id == id
  }

  predicate WritesFpu(inst: Inst) {
    inst.usesFpu && !inst.nop
  }

  ghost predicate FlagWriteRefused(inst: Inst, e: Env) {
    exists f :: f in inst.writtenFlags && f in e.deny.writeFlags
  }

  ghost predicate RegWriteRefused(inst: Inst, e: Env) {
    exists id :: GoesBack(inst, e, id) && id in e.deny.writeRegs
  }

  lemma {:induction false} WrittenOperandIds(ops: seq<RegOperand>, id: RegId)
    ensures id in IdsWhere(ops, true) <==> exists i :: 0 <= i < |ops| && ops[i].written && ops[i].reg.id == id
  {
    if ops != [] {
      var last := |ops| - 1;
      WrittenOperandIds(ops[..last], id);
      assert ops[last].written ==> ops[last].reg.id in IdsWhere(ops, true);
    }
  }

  lemma GoesBackIs(inst: Inst, e: Env, id: RegId)
    ensures GoesBack(inst, e, id) <==> id == RIP || id in WriteBackIds(inst, e.regs)
  {
    WrittenOperandIds(inst.regs, id);
  }

  // Some update in the list is of that flag, or register, or of the FPU.
  ghost predicate HasFlag(us: seq<Update>, f: Flag) {
    exists u :: u in us && u.ToFlag? && u.flag == f
  }

  ghost predicate HasReg(us: seq<Update>, id: RegId) {
    exists u :: u in us && u.ToReg? && u.id == id
  }

  ghost predicate HasFpu(us: seq<Update>) {
    exists u :: u in us && u.ToFpu?
  }

  // Exactly the flags written, the registers that go back, and the FPU if it is used.
  ghost predicate Contents(inst: Inst, e: Env, us: seq<Update>) {
    && (HasFpu(us) <==> WritesFpu(inst))
    && (forall f :: HasFlag(us, f) <==> f in inst.writtenFlags)
    && (forall id :: HasReg(us, id) <==> GoesBack(inst, e, id))
  }

  lemma LateHas(flagSet: set<Flag>, flags: Flags, regSet: set<RegId>, regs: Regs, pc: Word)
    ensures
      var us := LateUpdates(flagSet, flags, regSet, regs, pc);
      && !HasFpu(us)
      && (forall f :: HasFlag(us, f) <==> f in flagSet)
      && (forall id :: HasReg(us, id) <==> id == RIP || id in regSet)
  {
    hide FlagUpdates, RegUpdates;
    var us := LateUpdates(flagSet, flags, regSet, regs, pc);
    forall u | u in us
      ensures !u.ToFpu? && (u.ToFlag? ==> u.flag in flagSet) && (u.ToReg? && u.id != RIP ==> u.id in regSet)
    {
      LateUpdatesAre(flagSet, flags, regSet, regs, pc, u);
    }
    forall f | f in flagSet
      ensures HasFlag(us, f)
    {
      AllFlagsListed(f);
      FlagIsWritten(flagSet, flags, |FLAG_ORDER|, f);
      assert ToFlag(f, f in flags) in us;
    }
    forall id: RegId | id in regSet && id != RIP
      ensures HasReg(us, id)
    {
      RegIsWritten(regSet, regs, NUM_REGS, id);
      assert ToReg(id, regs[id]) in us;
    }
    assert ToReg(RIP, pc) in us;
  }

  lemma EarlyHas(inst: Inst, e: Env, mem0: nat, mem1: nat, fpu: nat)
    ensures
      var us := EarlyUpdates(inst, e, mem0, mem1, fpu);
      && (HasFpu(us) <==> inst.usesFpu) && (forall f :: !HasFlag(us, f)) && forall id :: !HasReg(us, id)
  {
    hide AddressOf;
    if inst.usesFpu {
      assert ToFpu(fpu) in EarlyUpdates(inst, e, mem0, mem1, fpu);
    }
  }

  lemma HasEither(us: seq<Update>, vs: seq<Update>)
    ensures HasFpu(us + vs) <==> HasFpu(us) || HasFpu(vs)
    ensures forall f :: HasFlag(us + vs, f) <==> HasFlag(us, f) || HasFlag(vs, f)
    ensures forall id :: HasReg(us + vs, id) <==> HasReg(us, id) || HasReg(vs, id)
  {
    forall f | HasFlag(us + vs, f)
      ensures HasFlag(us, f) || HasFlag(vs, f)
    {
    }
    forall id | HasReg(us + vs, id)
      ensures HasReg(us, id) || HasReg(vs, id)
    {
    }
  }

  lemma PlanContents(m: Machine, inst: Inst, e: Env)
    requires Decoded(inst, m.addr) && PlanInst(m, inst, e).Write?
    ensures Contents(inst, e, PlanInst(m, inst, e).updates)
  {
    hide PlanInst, Decoded, OperandsReadable, Reference, RegsReadable, ReadSet, LateUpdates, EarlyUpdates, NextPC;
    hide WriteBackIds, HasFpu, HasFlag, HasReg, GoesBack;
    PlanCases(m, inst, e);
    forall id
      ensures GoesBack(inst, e, id) <==> id == RIP || id in WriteBackIds(inst, e.regs)
    {
      GoesBackIs(inst, e, id);
    }
    if inst.nop {
      LateHas(inst.writtenFlags, e.flags, WriteBackIds(inst, e.regs), e.regs, NextPC(m, inst, e));
    } else {
      var o := Reference(m, inst, e);
      var early := EarlyUpdates(inst, e, o.s.mem0, o.s.mem1, o.s.fpu);
      EarlyHas(inst, e, o.s.mem0, o.s.mem1, o.s.fpu);
      LateHas(inst.writtenFlags, o.s.flags, WriteBackIds(inst, e.regs), o.s.regs, o.pc);
      HasEither(early, LateUpdates(inst.writtenFlags, o.s.flags, WriteBackIds(inst, e.regs), o.s.regs, o.pc));
    }
  }

  // A list in order is refused at the rank of any update of it that is refused, or before.
  lemma RefusedBy(e: Env, us: seq<Update>, k: nat, u: Update)
    requires InOrder(us) && k < |us| && ApplyAll(e, us[..k]).Done? && u in us && !u.ToMem? && Refused(e, u)
    ensures Rank(CallOf(us[k])) <= Rank(CallOf(u))
  {
    hide Refused, ApplyAll, Rank, CallOf;
    var j :| 0 <= j < |us| && us[j] == u;
    if j < k {
      assert us[..k][j] == u;
      DoneRefusesNothing(e, us[..k], u);
    }
  }

  // A step that comes to its writes is torn if and only if one of them is refused; and then its status is that of the
  // FPU, or else of a flag, or else of a register.
  lemma TornFor(m: Machine, e: Env, bytes: seq<byte>, inst: Inst)
    requires RIP !in e.deny.readRegs && Window(e.mem, e.regs[RIP], bytes) && !Step(m, e).Stop?
    requires m.decode(bytes, m.addr) == Some(inst)
    ensures Step(m, e).Torn? <==>
      (WritesFpu(inst) && e.deny.writeFpu) || FlagWriteRefused(inst, e) || RegWriteRefused(inst, e)
    ensures Step(m, e).Torn? ==>
      Step(m, e).status == (
        if WritesFpu(inst) && e.deny.writeFpu then ErrorWriteFPU
        else if FlagWriteRefused(inst, e) then ErrorWriteFlags
        else ErrorWriteReg)
  {
    hide Step, PlanStep, PlanInst, Decoded, ApplyAll, Window, GoesBack, InOrder, Attempted, WritesFpu;
    StepFetches(m, e, bytes);
    StepIs(m, e);
    PlanContents(m, inst, e);
    PlanNames(m, inst, e);
    PlanInOrder(m, e);
    StepProtects(m, e);
    var us := PlanStep(m, e).updates;
    if Step(m, e).Torn? {
      var k := TornAt(e, us);
      DenialsKept(e, us[..k]);
      FirstRefusal(e, inst, us, k, ApplyAll(e, us[..k]).env);
    } else {
      NoneRefused(e, inst, us);
    }
  }

  lemma PlanNames(m: Machine, inst: Inst, e: Env)
    requires Decoded(inst, m.addr) && PlanInst(m, inst, e).Write?
    ensures PlanInst(m, inst, e).inst == inst
  {
    hide OperandsReadable, Reference, RegsReadable, ReadSet, StepUpdates, NopUpdates, NextPC;
  }

  lemma FirstRefusal(e: Env, inst: Inst, us: seq<Update>, k: nat, now: Env)
    requires InOrder(us) && Contents(inst, e, us) && k < |us| && ApplyAll(e, us[..k]) == Done(now)
    requires Refused(now, us[k]) && now.deny == e.deny && !us[k].ToMem?
    ensures RefusalOf(us[k]) == (
      if WritesFpu(inst) && e.deny.writeFpu then ErrorWriteFPU
      else if FlagWriteRefused(inst, e) then ErrorWriteFlags
      else ErrorWriteReg)
    ensures (WritesFpu(inst) && e.deny.writeFpu) || FlagWriteRefused(inst, e) || RegWriteRefused(inst, e)
  {
    hide ApplyAll, InOrder, GoesBack, WritesFpu;
    assert us[k] in us;
    assert us[k].ToFpu? ==> HasFpu(us);
    assert us[k].ToFlag? ==> HasFlag(us, us[k].flag);
    assert us[k].ToReg? ==> HasReg(us, us[k].id);
    if WritesFpu(inst) && e.deny.writeFpu {
      var u :| u in us && u.ToFpu?;
      RefusedBy(e, us, k, u);
    } else if f :| f in inst.writtenFlags && f in e.deny.writeFlags {
      assert HasFlag(us, f);
      var u :| u in us && u.ToFlag? && u.flag == f;
      RefusedBy(e, us, k, u);
    }
  }

  lemma NoneRefused(e: Env, inst: Inst, us: seq<Update>)
    requires Contents(inst, e, us) && ApplyAll(e, us).Done?
    ensures !(WritesFpu(inst) && e.deny.writeFpu) && !FlagWriteRefused(inst, e) && !RegWriteRefused(inst, e)
  {
    hide ApplyAll, GoesBack, WritesFpu;
    if WritesFpu(inst) {
      var u :| u in us && u.ToFpu?;
      DoneRefusesNothing(e, us, u);
    }
    forall f | f in inst.writtenFlags
      ensures f !in e.deny.writeFlags
    {
      assert HasFlag(us, f);
      var u :| u in us && u.ToFlag? && u.flag == f;
      DoneRefusesNothing(e, us, u);
    }
    forall id | GoesBack(inst, e, id)
      ensures id !in e.deny.writeRegs
    {
      assert HasReg(us, id);
      var u :| u in us && u.ToReg? && u.id == id;
      DoneRefusesNothing(e, us, u);
    }
  }

  // The order among flags and among registers

  function Index(f: Flag): nat {
    match f
    case CF => 0 case PF => 1 case AF => 2 case ZF => 3 case SF => 4 case DF => 5 case OF => 6
  }

  // Flags from the lowest of EFLAGS to the highest, registers by number, each once; the program counter has the
  // highest number.
  predicate Precedes(u: Update, v: Update) {
    && (u.ToFlag? && v.ToFlag? ==> Index(u.flag) < Index(v.flag))
    && (u.ToReg? && v.ToReg? ==> u.id < v.id)
  }

  ghost predicate Sorted(us: seq<Update>) {
    forall i, j :: 0 <= i < j < |us| ==> Precedes(us[i], us[j])
  }

  ghost predicate AllPrecede(us: seq<Update>, v: Update) {
    forall u :: u in us ==> Precedes(u, v)
  }

  lemma SortedMore(us: seq<Update>, v: Update)
    requires Sorted(us) && AllPrecede(us, v)
    ensures Sorted(us + [v])
  {
    hide Precedes;
    var r := us + [v];
    forall i, j | 0 <= i < j < |r|
      ensures Precedes(r[i], r[j])
    {
      assert r[i] == us[i] && us[i] in us;
    }
  }

  lemma SortedAppend(us: seq<Update>, vs: seq<Update>)
    requires Sorted(us) && Sorted(vs) && forall v :: v in vs ==> AllPrecede(us, v)
    ensures Sorted(us + vs)
  {
    hide Precedes;
    var r := us + vs;
    forall i, j | 0 <= i < j < |r|
      ensures Precedes(r[i], r[j])
    {
      if i < |us| <= j {
        assert us[i] in us && r[j] in vs;
      }
    }
  }

  lemma {:induction false} FlagsSorted(which: set<Flag>, flags: Flags, k: nat)
    requires k <= |FLAG_ORDER|
    ensures Sorted(FlagUpdates(which, flags, k))
    ensures forall u :: u in FlagUpdates(which, flags, k) ==> u.ToFlag? && Index(u.flag) < k
  {
    if k != 0 {
      FlagsSorted(which, flags, k - 1);
      var f := FLAG_ORDER[k - 1];
      assert Index(f) == k - 1;
      SortedMore(FlagUpdates(which, flags, k - 1), ToFlag(f, f in flags));
    }
  }

  lemma {:induction false} RegsSorted(which: set<RegId>, regs: Regs, k: nat)
    requires k <= NUM_REGS
    ensures Sorted(RegUpdates(which, regs, k))
    ensures forall u :: u in RegUpdates(which, regs, k) ==> u.ToReg? && u.id < k && u.id != RIP
  {
    if k != 0 {
      RegsSorted(which, regs, k - 1);
      SortedMore(RegUpdates(which, regs, k - 1), ToReg(k - 1, regs[k - 1]));
    }
  }

  lemma LateSorted(flagSet: set<Flag>, flags: Flags, regSet: set<RegId>, regs: Regs, pc: Word)
    ensures Sorted(LateUpdates(flagSet, flags, regSet, regs, pc))
  {
    hide FlagUpdates, RegUpdates;
    FlagsSorted(flagSet, flags, |FLAG_ORDER|);
    RegsSorted(regSet, regs, NUM_REGS);
    var fs, rs := FlagUpdates(flagSet, flags, |FLAG_ORDER|), RegUpdates(regSet, regs, NUM_REGS);
    SortedAppend(fs, rs);
    SortedMore(fs + rs, ToReg(RIP, pc));
  }

  lemma EarlySorted(inst: Inst, e: Env, mem0: nat, mem1: nat, fpu: nat)
    ensures Sorted(EarlyUpdates(inst, e, mem0, mem1, fpu))
    ensures forall u :: u in EarlyUpdates(inst, e, mem0, mem1, fpu) ==> !u.ToFlag? && !u.ToReg?
  {
    hide AddressOf;
  }

  // So a torn step has written just the flags, or registers, that come before the one refused.
  lemma PlanSorted(m: Machine, e: Env)
    requires PlanStep(m, e).Write?
    ensures Sorted(PlanStep(m, e).updates)
  {
    hide PlanInst, Decoded, OperandsReadable, Reference, RegsReadable, ReadSet, LateUpdates, EarlyUpdates, NextPC;
    hide WriteBackIds, Sorted, FetchLength;
    StepCases(m, e);
    var inst := Fetch(m, e).value;
    PlanCases(m, inst, e);
    if inst.nop {
      LateSorted(inst.writtenFlags, e.flags, WriteBackIds(inst, e.regs), e.regs, NextPC(m, inst, e));
    } else {
      var o := Reference(m, inst, e);
      var early := EarlyUpdates(inst, e, o.s.mem0, o.s.mem1, o.s.fpu);
      EarlySorted(inst, e, o.s.mem0, o.s.mem1, o.s.fpu);
      LateSorted(inst.writtenFlags, o.s.flags, WriteBackIds(inst, e.regs), o.s.regs, o.pc);
      SortedAppend(early, LateUpdates(inst.writtenFlags, o.s.flags, WriteBackIds(inst, e.regs), o.s.regs, o.pc));
    }
  }
}
