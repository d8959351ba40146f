/** What the executor's phases add up to: the updates of the reference's plan, and the calls that make them. */
module StepResults {
  import opened Bits
  import opened FlatMemory
  import opened Machine
  import opened Isa
  import opened Updates
  import opened Locality
  import opened Protection
  import opened StackSteps
  import opened Trace
  import opened Requests

  // Status and state are those of a plan carried out from state e0, and the calls are some asked before and those
  // that write it.
  ghost predicate Came(e0: Env, asked: seq<Call>, plan: Plan, status: Status, e1: Env, t: seq<Call>) {
    && t == asked + WriteCalls(e0, plan)
    && match plan
       case Reject(st) => status == st && e1 == e0
       case Write(_, us) => ApplyAll(e0, us) == if status == Good then Done(e1) else Torn(e1, status)
  }

  lemma CameRejected(e: Env, status: Status, t: seq<Call>)
    ensures Came(e, t, Reject(status), status, e, t)
  {
    assert t + [] == t;
  }

  lemma CameWritten(e0: Env, inst: Inst, us: seq<Update>, status: Status, asked: seq<Call>, e1: Env, t: seq<Call>)
    requires Wrote(e0, asked, us, status, e1, t)
    ensures Came(e0, asked, Write(inst, us), status, e1, t)
  {
    hide ApplyAll, Attempted;
  }

  // A step's result, calls and frame.
  lemma CameStep(m: Machine, e0: Env, status: Status, e1: Env, t: seq<Call>)
    requires Came(e0, ReadCalls(m, e0), PlanStep(m, e0), status, e1, t) && FitsMode(e0.regs, m.addr)
    ensures t == StepCalls(m, e0)
    ensures Step(m, e0) == (
      if status == Good then Done(e1) else if PlanStep(m, e0).Reject? then Stop(status) else Torn(e1, status))
    ensures status != Good && PlanStep(m, e0).Reject? ==> e1 == e0
    ensures status != ErrorWriteMem && (DecidedEarly(status) ==> NoWrites(t))
    ensures KeepsProtected(e0.mem, e1.mem) && FitsMode(e1.regs, m.addr)
  {
    hide PlanStep, ApplyAll, KeepsProtected, FitsMode, ReadCalls, NoWrites, StepTrace;
    CallsAreTrace(m, e0);
    StepIs(m, e0);
    RejectedEarly(m, e0);
    StepProtects(m, e0);
    ProtectedReflexive(e0.mem);
    if !Step(m, e0).Stop? {
      StepFits(m, e0);
    }
  }

  // The lists that the cache writes back

  // Which registers go back is the same whether or not the program counter is counted.
  lemma LateUpdatesSkipPc(flagSet: set<Flag>, flags: Flags, which: set<RegId>, which': set<RegId>, regs: Regs, pc: Word)
    requires which - {RIP} == which' - {RIP}
    ensures LateUpdates(flagSet, flags, which, regs, pc) == LateUpdates(flagSet, flags, which', regs, pc)
  {
    RegUpdatesSkipPc(which, which', regs, regs, NUM_REGS);
  }

  lemma StepUpdatesSplit(inst: Inst, e: Env, t: State, pc: Word, which: set<RegId>, data0: nat, data1: nat, fpu: nat)
    requires which - {RIP} == WriteBackIds(inst, e.regs) - {RIP}
    requires (0 < |inst.mems| ==> t.mem0 == data0) && (1 < |inst.mems| ==> t.mem1 == data1)
    requires inst.usesFpu ==> t.fpu == fpu
    ensures StepUpdates(inst, e, t, pc) ==
      MemUpdates(inst, e, 0, data0) + MemUpdates(inst, e, 1, data1)
        + (if inst.usesFpu then [ToFpu(fpu)] else []) + LateUpdates(inst.writtenFlags, t.flags, which, t.regs, pc)
  {
    hide LateUpdates, WriteBackIds, AddressOf;
    LateUpdatesSkipPc(inst.writtenFlags, t.flags, which, WriteBackIds(inst, e.regs), t.regs, pc);
  }

  lemma NopWriteBack(inst: Inst, a: AddrSize, cached: Flags, e: Env, used: set<RegId>, modified: set<RegId>,
                     values: Regs, pc: Word)
    requires Decoded(inst, a) && inst.nop && used == {RIP} + UsedIds(inst) && modified == {RIP} + WrittenIds(inst)
    requires AgreeFlags(cached, e.flags, ReadSet(inst)) && AgreeRegs(values, e.regs, used)
    ensures LateUpdates(inst.writtenFlags, cached, used * modified, values, pc) == NopUpdates(inst, e, pc)
  {
    hide LateUpdates, UsedIds, WrittenIds;
    WrittenAreUsed(inst);
    LateUpdatesSkipPc(inst.writtenFlags, cached, used * modified, WriteBackIds(inst, e.regs), values, pc);
    LateUpdatesLocal(inst.writtenFlags, cached, e.flags, WriteBackIds(inst, e.regs), values, e.regs, pc);
  }
}
