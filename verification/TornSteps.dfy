/**
 Memory is written before the FPU, flags and registers, so that an instruction that fails has no effect on it;
 which takes for granted that the rest can then be written (microx/Executor.cpp:2217-2219). Here is exactly when
 it can, and what is left behind when it cannot.
 */
module TornSteps {
  import opened Bits
  import opened FlatMemory
  import opened Machine
  import opened Isa
  import opened Updates
  import opened Locality

  // A list that is refused was written up to an update that is refused, and its status is that update's.
  lemma {:induction false} TornAt(e: Env, us: seq<Update>) returns (k: nat)
    requires ApplyAll(e, us).Torn?
    ensures k < |us| && ApplyAll(e, us[..k]) == Done(ApplyAll(e, us).env) && Attempted(e, us) == us[..k + 1]
    ensures Refused(ApplyAll(e, us).env, us[k]) && ApplyAll(e, us).status == RefusalOf(us[k])
  {
    hide Refused, RefusalOf, Apply, ApplyAll, Attempted;
    if us == [] {
      ApplyNone(e);
      assert false;
    }
    var init, u := us[..|us| - 1], us[|us| - 1];
    assert us == init + [u];
    ApplyOneMore(e, init, u);
    if ApplyAll(e, init).Torn? {
      k := TornAt(e, init);
      assert us[..k] == init[..k] && us[..k + 1] == init[..k + 1];
    } else {
      k := |init|;
      DoneAttemptsAll(e, init);
      assert us[..k] == init && us[..k + 1] == us;
    }
  }

  lemma {:induction false} DoneRefusesNothing(e: Env, us: seq<Update>, u: Update)
    requires ApplyAll(e, us).Done? && u in us && !u.ToMem?
    ensures !Refused(e, u)
  {
    var init := us[..|us| - 1];
    DenialsKept(e, init);
    if u in init {
      DoneRefusesNothing(e, init, u);
    }
  }

  lemma {:induction false} LateKeepsMemory(e: Env, us: seq<Update>)
    requires forall u :: u in us ==> !u.ToMem?
    ensures ApplyAll(e, us).env.mem == e.mem
  {
    if us != [] {
      var init := us[..|us| - 1];
      assert forall u :: u in init ==> u in us;
      LateKeepsMemory(e, init);
      assert us[|us| - 1] in us;
    }
  }

  // Every flag and register that goes back is among the updates.

  lemma {:induction false} FlagIsWritten(which: set<Flag>, flags: Flags, k: nat, f: Flag)
    requires k <= |FLAG_ORDER| && f in which && f in FLAG_ORDER[..k]
    ensures ToFlag(f, f in flags) in FlagUpdates(which, flags, k)
  {
    assert FLAG_ORDER[..k] == FLAG_ORDER[..k - 1] + [FLAG_ORDER[k - 1]];
    if f != FLAG_ORDER[k - 1] {
      FlagIsWritten(which, flags, k - 1, f);
    }
  }

  lemma {:induction false} RegIsWritten(which: set<RegId>, regs: Regs, k: nat, id: RegId)
    requires k <= NUM_REGS && id in which && id < k && id != RIP
    ensures ToReg(id, regs[id]) in RegUpdates(which, regs, k)
  {
    if id != k - 1 {
      RegIsWritten(which, regs, k - 1, id);
    }
  }

  lemma LateGranted(e: Env, early: seq<Update>, flagSet: set<Flag>, flags: Flags, regSet: set<RegId>, regs: Regs,
                    pc: Word)
    requires ApplyAll(e, early + LateUpdates(flagSet, flags, regSet, regs, pc)).Done?
    ensures RIP !in e.deny.writeRegs && regSet !! e.deny.writeRegs && flagSet !! e.deny.writeFlags
  {
    hide ApplyAll, FlagUpdates, RegUpdates;
    var us := early + LateUpdates(flagSet, flags, regSet, regs, pc);
    assert us[|us| - 1] == ToReg(RIP, pc);
    DoneRefusesNothing(e, us, us[|us| - 1]);
    forall f | f in flagSet
      ensures f !in e.deny.writeFlags
    {
      AllFlagsListed(f);
      FlagIsWritten(flagSet, flags, |FLAG_ORDER|, f);
      DoneRefusesNothing(e, us, ToFlag(f, f in flags));
    }
    forall id: RegId | id in regSet && id != RIP
      ensures id !in e.deny.writeRegs
    {
      RegIsWritten(regSet, regs, NUM_REGS, id);
      DoneRefusesNothing(e, us, ToReg(id, regs[id]));
    }
  }

  // The exact condition: a step that comes to its writes is torn if and only if the user refuses one of them.
  lemma TornExactly(m: Machine, e: Env)
    ensures Step(m, e).Torn? <==> PlanStep(m, e).Write? && !WritesGranted(PlanStep(m, e).inst, e)
  {
    hide PlanInst, Decoded, OperandsReadable, Reference, RegsReadable, ReadSet, LateUpdates, WriteBackIds, ApplyAll;
    hide FetchLength, NextPC, MemUpdates, Commit;
    StepCases(m, e);
    if PlanStep(m, e).Write? {
      var inst := Fetch(m, e).value;
      PlanCases(m, inst, e);
      if inst.nop {
        NopTorn(inst, e, NextPC(m, inst, e));
      } else {
        PlannedTorn(m, inst, e);
      }
    }
  }

  lemma NopTorn(inst: Inst, e: Env, pc: Word)
    requires inst.nop
    ensures ApplyAll(e, NopUpdates(inst, e, pc)).Torn? <==> !WritesGranted(inst, e)
  {
    hide ApplyAll, LateUpdates, WriteBackIds;
    if WritesGranted(inst, e) {
      NopIsMove(inst, e, pc);
    } else if ApplyAll(e, NopUpdates(inst, e, pc)).Done? {
      assert [] + NopUpdates(inst, e, pc) == NopUpdates(inst, e, pc);
      LateGranted(e, [], inst.writtenFlags, e.flags, WriteBackIds(inst, e.regs), e.regs, pc);
    }
  }

  lemma PlannedTorn(m: Machine, inst: Inst, e: Env)
    requires Decoded(inst, m.addr) && OperandsReadable(inst, e) && !inst.nop && Reference(m, inst, e).Next?
    ensures
      var o := Reference(m, inst, e);
      ApplyAll(e, StepUpdates(inst, e, o.s, o.pc)).Torn? <==> !WritesGranted(inst, e)
  {
    hide Reference, Decoded, OperandsReadable, WriteBackIds, LateUpdates, ApplyAll, MemUpdates, Commit;
    var o := Reference(m, inst, e);
    var us := StepUpdates(inst, e, o.s, o.pc);
    if WritesGranted(inst, e) {
      WriteBackIsCommit(m, inst, e);
    } else if ApplyAll(e, us).Done? {
      LateGranted(e, EarlyUpdates(inst, e, o.s.mem0, o.s.mem1, o.s.fpu), inst.writtenFlags, o.s.flags,
                  WriteBackIds(inst, e.regs), o.s.regs, o.pc);
      if inst.usesFpu {
        assert ToFpu(o.s.fpu) in us;
        DoneRefusesNothing(e, us, ToFpu(o.s.fpu));
      }
    }
  }

  // The same state, for a user who refuses no write.
  function Allowing(e: Env): Env {
    e.(deny := e.deny.(writeRegs := {}, writeFlags := {}, writeFpu := false))
  }

  lemma OperandsAllowing(inst: Inst, e: Env)
    ensures OperandsReadable(inst, Allowing(e)) == OperandsReadable(inst, e)
  {
    hide AddressOf, Accessible;
    forall i | 0 <= i < |inst.mems|
      ensures MemReadable(inst, Allowing(e), i) == MemReadable(inst, e, i)
    {
    }
  }

  lemma MemUpdatesAllowing(inst: Inst, e: Env, i: nat, v: nat)
    ensures MemUpdates(inst, Allowing(e), i, v) == MemUpdates(inst, e, i, v)
  {
    hide AddressOf;
  }

  lemma ReferenceAllowing(m: Machine, inst: Inst, e: Env)
    requires Decoded(inst, m.addr) && OperandsReadable(inst, e) && OperandsReadable(inst, Allowing(e))
    ensures Reference(m, inst, Allowing(e)) == Reference(m, inst, e)
  {
    hide Decoded, OperandsReadable, Transform, AddressOf;
  }

  lemma PlanInstAllowing(m: Machine, inst: Inst, e: Env)
    requires Decoded(inst, m.addr)
    ensures PlanInst(m, inst, Allowing(e)) == PlanInst(m, inst, e)
  {
    hide Decoded, OperandsReadable, Reference, LateUpdates, WriteBackIds, MemUpdates, UsedIds;
    OperandsAllowing(inst, e);
    if OperandsReadable(inst, e) {
      ReferenceAllowing(m, inst, e);
      if Reference(m, inst, e).Next? {
        var s := Reference(m, inst, e).s;
        MemUpdatesAllowing(inst, e, 0, s.mem0);
        MemUpdatesAllowing(inst, e, 1, s.mem1);
      }
    }
  }

  lemma PlanAllowing(m: Machine, e: Env)
    ensures PlanStep(m, Allowing(e)) == PlanStep(m, e)
  {
    hide Decoded, PlanInst, FetchLength;
    if Fetch(m, e).Some? && Decoded(Fetch(m, e).value, m.addr) {
      PlanInstAllowing(m, Fetch(m, e).value, e);
    }
  }

  lemma EarlyMemory(m: Machine, inst: Inst, e: Env, mem0: nat, mem1: nat, rest: seq<Update>)
    requires Decoded(inst, m.addr) && OperandsReadable(inst, e) && forall u :: u in rest ==> !u.ToMem?
    ensures
      var us := MemUpdates(inst, e, 0, mem0) + MemUpdates(inst, e, 1, mem1) + rest;
      ApplyAll(e, us).env.mem == WriteBack(m.addr, inst, e, WriteBack(m.addr, inst, e, e.mem, 0, mem0), 1, mem1)
  {
    hide Decoded, OperandsReadable, MemUpdates, ApplyAll, Attempted, WriteBack;
    var us, vs := MemUpdates(inst, e, 0, mem0), MemUpdates(inst, e, 1, mem1);
    var e1 := e.(mem := WriteBack(m.addr, inst, e, e.mem, 0, mem0));
    var e2 := e1.(mem := WriteBack(m.addr, inst, e, e1.mem, 1, mem1));
    MemApplied(m, inst, e, e, 0, mem0);
    MemApplied(m, inst, e, e1, 1, mem1);
    ApplyAppend(e, us, vs);
    ApplyAppend(e, us + vs, rest);
    LateKeepsMemory(e2, rest);
  }

  lemma LateIsNoMemory(inst: Inst, e: Env, flags: Flags, regs: Regs, pc: Word, early: seq<Update>)
    requires forall u :: u in early ==> !u.ToMem?
    ensures
      forall u :: u in early + LateUpdates(inst.writtenFlags, flags, WriteBackIds(inst, e.regs), regs, pc) ==> !u.ToMem?
  {
    hide LateUpdates, WriteBackIds;
    var late := LateUpdates(inst.writtenFlags, flags, WriteBackIds(inst, e.regs), regs, pc);
    forall u | u in late
      ensures !u.ToMem?
    {
      LateUpdatesAre(inst.writtenFlags, flags, WriteBackIds(inst, e.regs), regs, pc, u);
    }
  }

  // The memory that a list of planned updates leaves does not depend on what else is refused.
  lemma PlannedMemory(m: Machine, inst: Inst, e: Env, s: State, pc: Word)
    requires Decoded(inst, m.addr) && OperandsReadable(inst, e) && OperandsReadable(inst, Allowing(e))
    ensures
      var us := StepUpdates(inst, e, s, pc);
      ApplyAll(e, us).env.mem == ApplyAll(Allowing(e), us).env.mem
  {
    hide Decoded, OperandsReadable, MemUpdates, LateUpdates, ApplyAll, WriteBackIds, AddressOf, StoreValue;
    var fpu: seq<Update> := if inst.usesFpu then [ToFpu(s.fpu)] else [];
    var late := LateUpdates(inst.writtenFlags, s.flags, WriteBackIds(inst, e.regs), s.regs, pc);
    LateIsNoMemory(inst, e, s.flags, s.regs, pc, fpu);
    EarlyMemory(m, inst, e, s.mem0, s.mem1, fpu + late);
    EarlyMemory(m, inst, Allowing(e), s.mem0, s.mem1, fpu + late);
    MemUpdatesAllowing(inst, e, 0, s.mem0);
    MemUpdatesAllowing(inst, e, 1, s.mem1);
    var us, vs := MemUpdates(inst, e, 0, s.mem0), MemUpdates(inst, e, 1, s.mem1);
    assert StepUpdates(inst, e, s, pc) == us + vs + (fpu + late);
  }

  // A torn step leaves memory just as it would have been had nothing been refused: what is written so far
  // is not undone.
  lemma TornMemory(m: Machine, e: Env)
    requires Step(m, e).Torn?
    ensures Step(m, Allowing(e)).Done? && Step(m, e).env.mem == Step(m, Allowing(e)).env.mem
  {
    hide PlanInst, Decoded, OperandsReadable, Reference, RegsReadable, ReadSet, LateUpdates, WriteBackIds, ApplyAll;
    hide FetchLength, NextPC, StepUpdates;
    PlanAllowing(m, e);
    TornExactly(m, Allowing(e));
    StepCases(m, e);
    var inst := Fetch(m, e).value;
    PlanCases(m, inst, e);
    if inst.nop {
      var us := NopUpdates(inst, e, NextPC(m, inst, e));
      LateIsNoMemory(inst, e, e.flags, e.regs, NextPC(m, inst, e), []);
      assert [] + us == us;
      LateKeepsMemory(e, us);
      LateKeepsMemory(Allowing(e), us);
    } else {
      var o := Reference(m, inst, e);
      OperandsAllowing(inst, e);
      PlannedMemory(m, inst, e, o.s, o.pc);
    }
  }
}
