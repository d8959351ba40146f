/**
 One step of the stack instructions that are neither plain pushes nor plain pops: RET with an immediate, POP into
 memory, LEAVE.
 */
module StackForms {
  import opened Bits
  import opened FlatMemory
  import opened Machine
  import opened Isa
  import opened Updates
  import opened StringWalk
  import opened Branches
  import opened Addresses

  // The low 64 bits of what an operand holds.
  function Word64At(m: Flat, a: int, n: nat): Word
    requires Mapped(m, a, n)
  {
    ValueAt(m, a, n) % B64
  }

  // RET with an immediate: to the value at the operand, with the stack pointer above it and the immediate's bytes.
  ghost predicate Returned(m: Machine, e: Env, inst: Inst, after: Env)
    requires |inst.mems| == 1
  {
    var at, n := Linear(inst, inst.mems[0], e.regs), inst.mems[0].size;
    && Mapped(e.mem, at, n)
    && after.regs[RIP] == Word64At(e.mem, at, n) % Bound(m.addr)
    && after.regs[RSP] == (e.regs[RSP] + AddrBytes(m.addr) + inst.imm % 0x1_0000) % Bound(m.addr)
    && after == e.(regs := e.regs[RSP := after.regs[RSP]][RIP := after.regs[RIP]])
  }

  lemma RetImmStep(m: Machine, e: Env, inst: Inst)
    requires Fetched(m, e, inst) && inst.form.RetImm? && !inst.nop && !inst.usesFpu && Step(m, e).Done?
    requires |inst.mems| == 1 && !inst.mems[0].written
    ensures Returned(m, e, inst, Step(m, e).env)
  {
    hide Step, OperandsReadable, AddressOf, Linear, ValueAt, Bound, AddrBytes;
    GrantedStep(m, e, inst);
    LinearAddress(inst, 0, e.regs);
    MemHolds(inst, e, 0);
    RetImmReference(m, e, inst);
    NoneWritten(m, e, inst, Reference(m, inst, e).s, Reference(m, inst, e).pc);
  }

  lemma RetImmReference(m: Machine, e: Env, inst: Inst)
    requires Decoded(inst, m.addr) && inst.form.RetImm? && OperandsReadable(inst, e) && |inst.mems| > 0
    ensures Reference(m, inst, e) ==
      Next(LoadState(inst, e).(regs := e.regs[RSP := Wrap(m.addr, e.regs[RSP] + AddrBytes(m.addr) + inst.imm % B16)]),
           Wrap(m.addr, MemValue(inst, e, 0) % B64))
  {
    hide AddressOf, MemValue, Wrap;
    assert e.regs[RSP] + (AddrBytes(m.addr) + inst.imm % B16) == e.regs[RSP] + AddrBytes(m.addr) + inst.imm % B16;
  }

  // POP into memory: the value at the stack goes to the operand, whose address has the stack pointer as it will be.
  ghost predicate PoppedInto(m: Machine, e: Env, inst: Inst, after: Env)
    requires |inst.mems| == 2 && inst.opBytes in {1, 2, 4, 8}
  {
    var moved := if inst.mems[0].base.Some? && inst.mems[0].base.value.id == RSP then inst.opBytes else 0;
    var n, to := inst.opBytes, (Parts(inst, inst.mems[0], e.regs) + moved) % WidthBound(inst.mems[0].width);
    var from := Linear(inst, inst.mems[1], e.regs);
    && Mapped(e.mem, to, n) && Mapped(e.mem, from, n)
    && after.mem == StoreValue(e.mem, to, n, ValueAt(e.mem, from, n))
    && after.regs[RSP] == (e.regs[RSP] + n) % Bound(m.addr) && after.regs[RIP] == Behind(m, e, inst)
    && after == e.(regs := e.regs[RSP := after.regs[RSP]][RIP := after.regs[RIP]], mem := after.mem)
  }

  lemma PopMemStep(m: Machine, e: Env, inst: Inst)
    requires Fetched(m, e, inst) && inst.form.PopMem? && !inst.nop && !inst.usesFpu && Step(m, e).Done?
    requires |inst.mems| == 2 && inst.mems[0].written && !inst.mems[1].written
    requires inst.mems[0].size == inst.mems[1].size == inst.opBytes
    ensures inst.opBytes in {1, 2, 4, 8} && PoppedInto(m, e, inst, Step(m, e).env)
  {
    hide Step, OperandsReadable, AddressOf, Linear, ValueAt, Bound, StoreValue, Parts, WidthBound, Behind, Pow256;
    hide Low, SetLow, MemValue;
    GrantedStep(m, e, inst);
    PoppedAddresses(inst, e.regs);
    MemHolds(inst, e, 0);
    MemHolds(inst, e, 1);
    ValueFits(inst, e, 0);
    ValueFits(inst, e, 1);
    LowIs(MemValue(inst, e, 1));
    SetLowOfWord(MemValue(inst, e, 0), MemValue(inst, e, 1));
    PopMemReference(m, e, inst);
    FirstWritten(m, e, inst, Reference(m, inst, e).s, Reference(m, inst, e).pc);
  }

  lemma PoppedAddresses(inst: Inst, regs: Regs)
    requires inst.form.PopMem? && |inst.mems| == 2
    ensures
      var moved := if inst.mems[0].base.Some? && inst.mems[0].base.value.id == RSP then inst.opBytes else 0;
      AddressOf(inst, 0, regs) == (Parts(inst, inst.mems[0], regs) + moved) % WidthBound(inst.mems[0].width)
    ensures AddressOf(inst, 1, regs) == Linear(inst, inst.mems[1], regs)
  {
    hide Slice, WidthBound;
    assert ValueOf(regs, inst.mems[0].index) == OptGet(regs, inst.mems[0].index);
    assert ValueOf(regs, inst.mems[1].index) == OptGet(regs, inst.mems[1].index);
  }

  lemma PopMemReference(m: Machine, e: Env, inst: Inst)
    requires Decoded(inst, m.addr) && inst.form.PopMem? && OperandsReadable(inst, e) && |inst.mems| == 2
    ensures Reference(m, inst, e) ==
      Next(LoadState(inst, e).(mem0 := SetLow(MemValue(inst, e, 0), Low(MemValue(inst, e, 1))),
                               regs := e.regs[RSP := Wrap(m.addr, e.regs[RSP] + inst.opBytes)]), Behind(m, e, inst))
  {
    hide AddressOf, MemValue, SetLow, Low;
  }

  // LEAVE: the frame pointer becomes the stack pointer, and is itself what lay at the operand.
  ghost predicate LeftFrame(m: Machine, e: Env, inst: Inst, after: Env)
    requires |inst.mems| == 1 && |inst.regs| == 2
  {
    var at, n := Linear(inst, inst.mems[0], e.regs), inst.mems[0].size;
    var frame, stack := inst.regs[0].reg, inst.regs[1].reg;
    && Mapped(e.mem, at, n)
    && Get(after.regs, stack) == Get(e.regs, frame) % PartBound(stack.part)
    && Get(after.regs, frame) == Word64At(e.mem, at, n) % PartBound(frame.part)
    && after.regs[RIP] == Behind(m, e, inst) && after == e.(regs := after.regs)
    && forall id: RegId :: id !in {stack.id, frame.id, RIP} ==> after.regs[id] == e.regs[id]
  }

  lemma LeaveStep(m: Machine, e: Env, inst: Inst)
    requires Fetched(m, e, inst) && inst.form.Leave? && !inst.nop && !inst.usesFpu && Step(m, e).Done?
    requires |inst.mems| == 1 && !inst.mems[0].written && |inst.regs| == 2
    requires inst.regs[0].reg.id != inst.regs[1].reg.id && RIP !in {inst.regs[0].reg.id, inst.regs[1].reg.id}
    ensures LeftFrame(m, e, inst, Step(m, e).env)
  {
    hide Step, OperandsReadable, AddressOf, Linear, ValueAt, Bound, Slice, Splice, Behind, PartBound, Wrap;
    GrantedStep(m, e, inst);
    LinearAddress(inst, 0, e.regs);
    MemHolds(inst, e, 0);
    LeaveReference(m, e, inst);
    NoneWritten(m, e, inst, Reference(m, inst, e).s, Reference(m, inst, e).pc);
    var frame, stack := inst.regs[0].reg, inst.regs[1].reg;
    PutGets(m.addr, e.regs, stack, Get(e.regs, frame));
    PutGets(m.addr, Put(m.addr, e.regs, stack, Get(e.regs, frame)), frame, MemValue(inst, e, 0) % B64);
  }

  lemma LeaveReference(m: Machine, e: Env, inst: Inst)
    requires Decoded(inst, m.addr) && inst.form.Leave? && OperandsReadable(inst, e)
    ensures |inst.regs| > 1 && |inst.mems| > 0
    ensures PartFits(inst.regs[0].reg, m.addr) && PartFits(inst.regs[1].reg, m.addr)
    ensures
      var frame, stack := inst.regs[0].reg, inst.regs[1].reg;
      Reference(m, inst, e) ==
        Next(LoadState(inst, e).(regs := Put(m.addr, Put(m.addr, e.regs, stack, Get(e.regs, frame)), frame,
                                             MemValue(inst, e, 0) % B64)), Behind(m, e, inst))
  {
    hide AddressOf, MemValue, Put, Slice;
  }
}
