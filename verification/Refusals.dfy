/**
 Why a step stops before it writes anything, in the order in which the executor finds out
 (microx/Executor.cpp:2047-2140): what the user refuses, in terms of operands, flags and bytes.
 */
module Refusals {
  import opened Bits
  import opened FlatMemory
  import opened Machine
  import opened Isa
  import opened Updates
  import opened Addresses
  import opened FetchedBytes

  // A flag that the instruction reads, or may or may not write.
  ghost predicate FlagRefused(inst: Inst, e: Env) {
    exists f :: f in e.deny.readFlags && (f in inst.readFlags || (f in inst.writtenFlags && inst.mayWrite))
  }

  predicate Names(r: Option<Reg>, id: RegId) {
    r.Some? && r.value.id == id
  }

  // A register operand, even one only written, or a base or index.
  ghost predicate RegRefused(inst: Inst, e: Env) {
    || (exists i :: 0 <= i < |inst.regs| && inst.regs[i].reg.id in e.deny.readRegs)
    || exists i, id :: 0 <= i < |inst.mems| && id in e.deny.readRegs
         && (Names(inst.mems[i].base, id) || Names(inst.mems[i].index, id))
  }

  // A byte of an operand is not mapped, or may not be used as the instruction uses it.
  ghost predicate ByteRefused(inst: Inst, e: Env, i: nat, at: int)
    requires i < |inst.mems|
  {
    var mo := inst.mems[i];
    var from := (Parts(inst, mo, e.regs) + Adjustment(inst, i)) % WidthBound(mo.width);
    && !mo.agen && from <= at < from + mo.size
    && (at in e.mem ==>
          || (mo.written && !e.mem[at].canWrite)
          || ((mo.read || mo.conditional || !mo.written) && !e.mem[at].canRead))
  }

  ghost predicate MemRefused(inst: Inst, e: Env) {
    exists i: nat, at :: i < |inst.mems| && ByteRefused(inst, e, i, at)
  }

  lemma FlagsAre(inst: Inst, e: Env)
    ensures FlagRefused(inst, e) <==> ReadSet(inst) * e.deny.readFlags != {}
  {
    if ReadSet(inst) * e.deny.readFlags != {} {
      var f :| f in ReadSet(inst) * e.deny.readFlags;
      assert f in e.deny.readFlags;
    }
    if f :| f in e.deny.readFlags && (f in inst.readFlags || (f in inst.writtenFlags && inst.mayWrite)) {
      assert f in ReadSet(inst) * e.deny.readFlags;
    }
  }

  lemma {:induction false} OperandIds(ops: seq<RegOperand>, id: RegId)
    ensures id in RegIds(ops) <==> exists i :: 0 <= i < |ops| && ops[i].reg.id == id
  {
    if ops != [] {
      var last := |ops| - 1;
      OperandIds(ops[..last], id);
      assert ops[last].reg.id in RegIds(ops);
    }
  }

  lemma {:induction false} AddressIds(mems: seq<MemOperand>, id: RegId)
    ensures id in MemIds(mems) <==>
      exists i :: 0 <= i < |mems| && (Names(mems[i].base, id) || Names(mems[i].index, id))
  {
    if mems != [] {
      var last := |mems| - 1;
      AddressIds(mems[..last], id);
      assert NamedBy(mems[last]) <= MemIds(mems);
    }
  }

  lemma RegistersAre(inst: Inst, e: Env)
    ensures RegRefused(inst, e) <==> !RegsReadable(inst, e)
  {
    hide MemIds, RegIds, Names;
    forall id
      ensures id in UsedIds(inst) <==>
        || (exists i :: 0 <= i < |inst.regs| && inst.regs[i].reg.id == id)
        || exists i :: 0 <= i < |inst.mems| && (Names(inst.mems[i].base, id) || Names(inst.mems[i].index, id))
    {
      OperandIds(inst.regs, id);
      AddressIds(inst.mems, id);
    }
    if !RegsReadable(inst, e) {
      var id :| id in UsedIds(inst) && id in e.deny.readRegs;
      if i :| 0 <= i < |inst.regs| && inst.regs[i].reg.id == id {
        assert inst.regs[i].reg.id in e.deny.readRegs;
      }
    }
  }

  lemma OperandRefused(inst: Inst, e: Env, i: nat)
    requires i < |inst.mems|
    ensures MemReadable(inst, e, i) <==> forall at :: !ByteRefused(inst, e, i, at)
  {
    hide Slice;
    var mo := inst.mems[i];
    var from := AddressOf(inst, i, e.regs);
    assert ValueOf(e.regs, mo.index) == OptGet(e.regs, mo.index);
    assert from == (Parts(inst, mo, e.regs) + Adjustment(inst, i)) % WidthBound(mo.width);
    hide AddressOf, Parts, Adjustment;
    forall at
      ensures ByteRefused(inst, e, i, at) <==>
        !mo.agen && from <= at < from + mo.size && !(at in e.mem && Permits(e.mem[at], HintOf(mo)))
    {
    }
    hide ByteRefused, Permits;
  }

  lemma MemoryIs(inst: Inst, e: Env)
    ensures MemRefused(inst, e) <==> !OperandsReadable(inst, e)
  {
    hide MemReadable, ByteRefused;
    forall i: nat | i < |inst.mems|
      ensures MemReadable(inst, e, i) <==> forall at :: !ByteRefused(inst, e, i, at)
    {
      OperandRefused(inst, e, i);
    }
    if MemRefused(inst, e) {
      var i: nat, at :| i < |inst.mems| && ByteRefused(inst, e, i, at);
      assert !MemReadable(inst, e, i);
    }
    if !OperandsReadable(inst, e) {
      var i: nat :| i < |inst.mems| && !MemReadable(inst, e, i);
      var at :| ByteRefused(inst, e, i, at);
    }
  }

  // The first of these that holds is why the step stops. Without any, an instruction that is not left to the host does
  // not stop.
  lemma StopsFor(m: Machine, e: Env, bytes: seq<byte>, inst: Inst)
    requires RIP !in e.deny.readRegs && Window(e.mem, e.regs[RIP], bytes) && bytes != []
    requires m.decode(bytes, m.addr) == Some(inst) && Decoded(inst, m.addr)
    ensures
      var r := Step(m, e);
      if inst.unsupported then r == Stop(UnsupportedFeatures)
      else if FlagRefused(inst, e) then r == Stop(ErrorReadFlags)
      else if RegRefused(inst, e) then r == Stop(ErrorReadReg)
      else if inst.nop then !r.Stop?
      else if inst.usesFpu && e.deny.readFpu then r == Stop(ErrorReadFPU)
      else if MemRefused(inst, e) then r == Stop(ErrorReadMem)
      else if inst.form.FarTransfer? then r == Stop(UnsupportedCFI)
      else if inst.form.WideStack? then r == Stop(UnsupportedStack)
      else !inst.form.Native? ==> !r.Stop?
  {
    hide Step, PlanInst, Decoded, FetchBytes, ApplyAll, Reference, OperandsReadable, RegsReadable, ReadSet, StepUpdates;
    hide NopUpdates, NextPC, Window, FlagRefused, RegRefused, MemRefused;
    FetchedIsWindow(e.mem, e.regs[RIP]);
    OnlyWindow(e.mem, e.regs[RIP], bytes, FetchBytes(e.mem, e.regs[RIP]));
    StepCases(m, e);
    StepIs(m, e);
    FlagsAre(inst, e);
    RegistersAre(inst, e);
    MemoryIs(inst, e);
    PlanCases(m, inst, e);
    if OperandsReadable(inst, e) && !inst.form.Native? {
      EmulationHalts(m, inst, e);
    }
  }

  lemma EmulationHalts(m: Machine, inst: Inst, e: Env)
    requires Decoded(inst, m.addr) && OperandsReadable(inst, e) && !inst.form.Native?
    ensures Reference(m, inst, e) == Halt(UnsupportedCFI) <==> inst.form.FarTransfer?
    ensures Reference(m, inst, e) == Halt(UnsupportedStack) <==> inst.form.WideStack?
    ensures Reference(m, inst, e).Halt? ==> inst.form.FarTransfer? || inst.form.WideStack?
  {
    hide AddressOf, CallOrReturn, PushOrPop, JumpTarget, LoadState, LeaveFrame, StringStep, NextPC, OperandsReadable;
    hide FormOperands;
  }
}
