/** Single steps of the instructions that push onto the stack and pop from it. */
module StackSteps {
  import opened Bits
  import opened FlatMemory
  import opened Machine
  import opened Isa
  import opened Updates
  import opened CacheArithmetic
  import opened StringWalk
  import opened SubRegisters

  function FullWidth(a: AddrSize): Width {
    if a == A32 then W32 else W64
  }

  // An operand that is the memory at the stack pointer, in the mode's address width.
  predicate AtStackPointer(mo: MemOperand, a: AddrSize, size: int) {
    && !mo.agen && mo.base == Some(WidestOf(a, RSP)) && mo.index == None && mo.disp == 0
    && mo.width == FullWidth(a) && mo.size == size
  }

  predicate Calls(f: Form) { f.CallRel? || f.CallReg? || f.CallMem? }

  // Where the stack is among the memory operands.
  function Slot(f: Form): nat {
    if f.CallMem? || f.PushMem? then 1 else 0
  }

  // The pushing forms: CALL pushes a return address, PUSH an operand. CALL works at the address size.
  predicate Pushes(inst: Inst, a: AddrSize) {
    && !inst.nop && !inst.unsupported && !inst.usesFpu && inst.opBytes in {2, 4, 8}
    && (Calls(inst.form) || inst.form.PushReg? || inst.form.PushImm? || inst.form.PushMem?)
    && (Calls(inst.form) ==> inst.opBytes == AddrBytes(a))
    && (inst.form.PushReg? ==> |inst.regs| > 0 && PartBound(inst.regs[0].reg.part) == Pow256(inst.opBytes))
    && var slot := Slot(inst.form);
    && |inst.mems| == slot + 1 && AtStackPointer(inst.mems[slot], a, inst.opBytes) && inst.mems[slot].written
    && (slot == 1 ==> !inst.mems[0].agen && !inst.mems[0].written && inst.mems[0].size == inst.opBytes)
  }

  // The popping forms: RET, and POP of a register other than the stack pointer.
  predicate Pops(inst: Inst, a: AddrSize) {
    && !inst.nop && !inst.unsupported && !inst.usesFpu && inst.opBytes in {2, 4, 8}
    && (inst.form.Ret? || inst.form.PopReg?)
    && (inst.form.Ret? ==> inst.opBytes == AddrBytes(a))
    && (inst.form.PopReg? ==>
      |inst.regs| > 0 && inst.regs[0].reg.id !in {RSP, RIP} && PartBound(inst.regs[0].reg.part) == Pow256(inst.opBytes))
    && |inst.mems| == 1 && AtStackPointer(inst.mems[0], a, inst.opBytes) && !inst.mems[0].written
  }

  function PushedValue(m: Machine, e: Env, inst: Inst): Word
    requires Pushes(inst, m.addr)
  {
    match inst.form
    case PushReg => Get(e.regs, inst.regs[0].reg)
    case PushImm => PushImmediate(inst)
    case PushMem => if OperandsReadable(inst, e) then Low(MemValue(inst, e, 0)) else 0
    case _ => NextPC(m, inst, e)
  }

  // Where a push continues: a CALL at its target, a PUSH at the next instruction.
  function PushContinues(m: Machine, e: Env, inst: Inst): Word
    requires Pushes(inst, m.addr) && (inst.form.CallReg? ==> |inst.regs| > 0)
  {
    match inst.form
    case CallRel => Target(m, inst, NextPC(m, inst, e))
    case CallReg => Wrap(m.addr, Get(e.regs, inst.regs[0].reg))
    case CallMem => if OperandsReadable(inst, e) then Wrap(m.addr, Low(MemValue(inst, e, 0))) else 0
    case _ => NextPC(m, inst, e)
  }

  // Shapes

  lemma PushSize(inst: Inst, a: AddrSize)
    requires Pushes(inst, a)
    ensures inst.opBytes in {2, 4, 8} && !inst.nop && !inst.unsupported && !inst.usesFpu
    ensures var slot := Slot(inst.form);
      |inst.mems| == slot + 1 && !inst.mems[slot].agen && inst.mems[slot].size == inst.opBytes
        && inst.mems[slot].written
  {
  }

  lemma PopSize(inst: Inst, a: AddrSize)
    requires Pops(inst, a)
    ensures inst.opBytes in {2, 4, 8} && !inst.nop && !inst.unsupported && !inst.usesFpu
    ensures |inst.mems| == 1 && !inst.mems[0].agen && inst.mems[0].size == inst.opBytes && !inst.mems[0].written
  {
  }

  lemma PushAddress(a: AddrSize, inst: Inst, regs: Regs)
    requires Pushes(inst, a) && inst.opBytes <= regs[RSP] < Bound(a)
    ensures |inst.mems| == Slot(inst.form) + 1
    ensures AddressOf(inst, Slot(inst.form), regs) == regs[RSP] - inst.opBytes
  {
    hide AddressOf, AtStackPointer;
    StackAddress(a, inst, Slot(inst.form), regs);
  }

  lemma StackAddress(a: AddrSize, inst: Inst, i: nat, regs: Regs)
    requires i < |inst.mems| && AtStackPointer(inst.mems[i], a, inst.opBytes) && regs[RSP] < Bound(a)
    requires 0 <= regs[RSP] + Adjustment(inst, i) < Bound(a)
    ensures AddressOf(inst, i, regs) == regs[RSP] + Adjustment(inst, i)
  {
    hide Adjustment;
    var mo := inst.mems[i];
    assert OptGet(regs, mo.index) * mo.scale == 0;
  }

  lemma PopAddress(a: AddrSize, inst: Inst, regs: Regs)
    requires Pops(inst, a) && regs[RSP] < Bound(a)
    ensures |inst.mems| == 1 && AddressOf(inst, 0, regs) == regs[RSP]
  {
    hide AddressOf, AtStackPointer;
    StackAddress(a, inst, 0, regs);
  }

  lemma PushedFits(m: Machine, e: Env, inst: Inst)
    requires Pushes(inst, m.addr)
    ensures PushedValue(m, e, inst) < Pow256(inst.opBytes)
  {
    hide AddressOf, MemValue, MemReadable, OperandsReadable, Pow256;
    Pow256Values();
    if inst.form.PushMem? && OperandsReadable(inst, e) {
      MemValueBound(inst, e, 0);
    }
  }

  lemma DoneWasReadable(m: Machine, e: Env, inst: Inst)
    requires Fetched(m, e, inst) && !inst.nop && !inst.unsupported && !inst.usesFpu && Step(m, e).Done?
    ensures OperandsReadable(inst, e)
  {
    hide Step, OperandsReadable, Reference, Commit;
    FetchedStep(m, e, inst);
  }

  lemma FetchedDecodes(m: Machine, e: Env, inst: Inst)
    requires Fetched(m, e, inst)
    ensures Decoded(inst, m.addr)
  {
  }

  // Operand i as the instruction leaves it.
  function Staged(s: State, i: nat): nat {
    if i == 0 then s.mem0 else s.mem1
  }

  // Pushing

  lemma PushReference(m: Machine, e: Env, inst: Inst)
    requires Decoded(inst, m.addr) && Pushes(inst, m.addr) && OperandsReadable(inst, e)
    ensures Reference(m, inst, e).Next?
    ensures
      var o, slot := Reference(m, inst, e), Slot(inst.form);
      && Staged(o.s, slot) == SetLow(MemValue(inst, e, slot), PushedValue(m, e, inst))
      && o.s.regs == Bump(m.addr, e.regs, RSP, -inst.opBytes)
      && (inst.form.CallReg? ==> |inst.regs| > 0) && o.pc == PushContinues(m, e, inst)
  {
    hide AddressOf, MemValue, SetLow, Low, Slice, Bump, Target, NextPC, Wrap, AtStackPointer, OperandsReadable;
  }

  lemma PushCommit(m: Machine, e: Env, inst: Inst, s: State, pc: Word, at: Word)
    requires Decoded(inst, m.addr) && Pushes(inst, m.addr) && OperandsReadable(inst, e)
    requires |inst.mems| == Slot(inst.form) + 1 && AddressOf(inst, Slot(inst.form), e.regs) == at
    ensures Mapped(e.mem, at, inst.opBytes)
    ensures Commit(m, inst, e, s, pc).mem == StoreValue(e.mem, at, inst.opBytes, Staged(s, Slot(inst.form)))
    ensures Commit(m, inst, e, s, pc).regs == s.regs[RIP := pc]
  {
    hide AddressOf, StoreValue, Decoded, OperandsReadable;
    PushSize(inst, m.addr);
    WrittenIsMapped(inst, e, Slot(inst.form), m.addr);
  }

  lemma SlotFits(inst: Inst, e: Env, i: nat)
    requires OperandsReadable(inst, e) && i < |inst.mems| && !inst.mems[i].agen && inst.mems[i].size in {2, 4, 8}
    ensures MemReadable(inst, e, i) && MemValue(inst, e, i) < B64
  {
    hide Pow256, AddressOf, MemValue, MemReadable;
    MemValueBound(inst, e, i);
    Pow256Values();
  }

  lemma SetLowFits(v: nat, w: Word)
    requires v < B64
    ensures SetLow(v, w) == w
  {
  }

  lemma BumpIs(a: AddrSize, regs: Regs, id: RegId, amount: int)
    requires 0 <= regs[id] + amount < Bound(a)
    ensures Bump(a, regs, id, amount) == regs[id := regs[id] + amount]
  {
  }

  // A push moves the stack pointer down by the operand's size and leaves the value there.
  lemma PushStep(m: Machine, e: Env, inst: Inst)
    requires Fetched(m, e, inst) && Pushes(inst, m.addr) && FitsMode(e.regs, m.addr) && inst.opBytes <= e.regs[RSP]
    requires Step(m, e).Done?
    ensures Mapped(e.mem, e.regs[RSP] - inst.opBytes, inst.opBytes)
    ensures
      var after := Step(m, e).env;
      && after.mem == StoreValue(e.mem, e.regs[RSP] - inst.opBytes, inst.opBytes, PushedValue(m, e, inst))
      && after.regs[RSP] == e.regs[RSP] - inst.opBytes
      && (inst.form.CallReg? ==> |inst.regs| > 0) && after.regs[RIP] == PushContinues(m, e, inst)
  {
    hide Fetched, Pushes, Pops, Step, OperandsReadable, Decoded, Reference, Commit, AddressOf, StoreValue, MemValue;
    hide SetLow;
    hide PushedValue, PushContinues, NextPC, Bump, LoadState, Bound, Slot, Staged, Calls;
    FetchedDecodes(m, e, inst);
    PushSize(inst, m.addr);
    DoneWasReadable(m, e, inst);
    FetchedStep(m, e, inst);
    PushReference(m, e, inst);
    PushAddress(m.addr, inst, e.regs);
    SlotFits(inst, e, Slot(inst.form));
    SetLowFits(MemValue(inst, e, Slot(inst.form)), PushedValue(m, e, inst));
    BumpIs(m.addr, e.regs, RSP, -inst.opBytes);
    var o := Reference(m, inst, e);
    PushCommit(m, e, inst, o.s, o.pc, e.regs[RSP] - inst.opBytes);
  }

  // Popping

  // The registers after a POP, before the stack pointer moves.
  function Popped(a: AddrSize, inst: Inst, regs: Regs, v: Word): Regs
    requires inst.form.PopReg? ==> |inst.regs| > 0
  {
    if inst.form.PopReg? then Put(a, regs, inst.regs[0].reg, v) else regs
  }

  lemma PopReference(m: Machine, e: Env, inst: Inst)
    requires Decoded(inst, m.addr) && Pops(inst, m.addr) && OperandsReadable(inst, e)
    ensures Reference(m, inst, e).Next?
    ensures
      var o, v := Reference(m, inst, e), Low(MemValue(inst, e, 0));
      && o.s.regs == Bump(m.addr, Popped(m.addr, inst, e.regs, v), RSP, inst.opBytes)
      && o.pc == if inst.form.Ret? then Wrap(m.addr, v) else NextPC(m, inst, e)
  {
    hide AddressOf, MemValue, Low, Slice, Bump, Put, NextPC, Wrap, AtStackPointer, OperandsReadable;
  }

  lemma PopCommit(m: Machine, e: Env, inst: Inst, s: State, pc: Word)
    requires Decoded(inst, m.addr) && Pops(inst, m.addr) && OperandsReadable(inst, e)
    ensures Commit(m, inst, e, s, pc).mem == e.mem
    ensures Commit(m, inst, e, s, pc).regs == s.regs[RIP := pc]
  {
    hide AddressOf, StoreValue, Decoded, OperandsReadable, Pops;
    PopSize(inst, m.addr);
  }

  lemma PopReads(m: Machine, e: Env, inst: Inst)
    requires Pops(inst, m.addr) && OperandsReadable(inst, e)
    requires |inst.mems| == 1 && AddressOf(inst, 0, e.regs) == e.regs[RSP]
    ensures Mapped(e.mem, e.regs[RSP], inst.opBytes) && MemReadable(inst, e, 0)
    ensures MemValue(inst, e, 0) == ValueAt(e.mem, e.regs[RSP], inst.opBytes) < Pow256(inst.opBytes)
  {
    hide AddressOf;
    assert MemReadable(inst, e, 0);
    FromBytesBound(BytesAt(e.mem, e.regs[RSP], inst.opBytes));
  }

  lemma PoppedStack(m: Machine, inst: Inst, regs: Regs, v: Word)
    requires Pops(inst, m.addr)
    ensures Popped(m.addr, inst, regs, v)[RSP] == regs[RSP]
  {
    hide Splice;
  }

  lemma PoppedRegister(m: Machine, inst: Inst, regs: Regs, v: Word)
    requires Pops(inst, m.addr) && Decoded(inst, m.addr) && inst.form.PopReg? && v < Pow256(inst.opBytes)
    ensures Get(Popped(m.addr, inst, regs, v), inst.regs[0].reg) == v
  {
    var r := inst.regs[0].reg;
    assert r.part in {Low16, Low32, Full64} by {
      Pow256Values();
    }
    PutGet(m.addr, regs, r, v);
  }

  // A pop takes the value at the stack pointer, which moves up by the operand's size; memory is unchanged.
  lemma PopStep(m: Machine, e: Env, inst: Inst)
    requires Fetched(m, e, inst) && Pops(inst, m.addr) && FitsMode(e.regs, m.addr)
    requires e.regs[RSP] + inst.opBytes < Bound(m.addr) && Step(m, e).Done?
    ensures Mapped(e.mem, e.regs[RSP], inst.opBytes)
    ensures Step(m, e).env.mem == e.mem && Step(m, e).env.regs[RSP] == e.regs[RSP] + inst.opBytes
    ensures
      var after, v := Step(m, e).env, Low(ValueAt(e.mem, e.regs[RSP], inst.opBytes));
      && (inst.form.Ret? ==> after.regs[RIP] == Wrap(m.addr, v))
      && (inst.form.PopReg? ==> after.regs[RIP] == NextPC(m, inst, e) && Get(after.regs, inst.regs[0].reg) == v)
  {
    hide Fetched, Step, OperandsReadable, Decoded, Reference, Commit, AddressOf, ValueAt, Low, AtStackPointer, MemValue;
    hide NextPC, Bump, LoadState, Bound, Wrap, Popped, Slice, PartBound, Pow256;
    FetchedDecodes(m, e, inst);
    PopSize(inst, m.addr);
    DoneWasReadable(m, e, inst);
    FetchedStep(m, e, inst);
    PopReference(m, e, inst);
    PopAddress(m.addr, inst, e.regs);
    PopReads(m, e, inst);
    LowFits(ValueAt(e.mem, e.regs[RSP], inst.opBytes), inst.opBytes);
    var o, v := Reference(m, inst, e), Low(MemValue(inst, e, 0));
    var popped := Popped(m.addr, inst, e.regs, v);
    PoppedStack(m, inst, e.regs, v);
    BumpIs(m.addr, popped, RSP, inst.opBytes);
    PopCommit(m, e, inst, o.s, o.pc);
    if inst.form.PopReg? {
      PoppedRegister(m, inst, e.regs, v);
      assert Step(m, e).env.regs[inst.regs[0].reg.id] == popped[inst.regs[0].reg.id];
    }
  }

  lemma LowFits(v: nat, n: nat)
    requires v < Pow256(n) && n <= 8
    ensures Low(v) == v
  {
    Pow256Monotone(n, 8);
    Pow256Values();
  }

  // Registers keep to their own width in every step.

  lemma {:induction false} ResultsFit(a: AddrSize, regs: Regs, ops: seq<RegOperand>, vs: seq<Word>)
    requires FitsMode(regs, a) && |vs| == |ops|
    ensures FitsMode(PutResults(a, regs, ops, vs), a)
  {
    hide Splice;
    if ops != [] {
      ResultsFit(a, regs, ops[..|ops| - 1], vs[..|ops| - 1]);
    }
  }

  lemma EmulateFits(m: Machine, inst: Inst, s: State, address0: Word, cur: Word, next: Word)
    requires Decoded(inst, m.addr) && Emulated(inst.form) && FitsMode(s.regs, m.addr)
    requires cur < Bound(m.addr) && next < Bound(m.addr)
    ensures
      var o := Emulate(m, inst, s, address0, cur, next);
      o.Next? ==> FitsMode(o.s.regs, m.addr) && o.pc < Bound(m.addr)
  {
    hide Splice, Slice, CompareFlags, CondHolds, Low, SetLow, Stride, Decoded;
  }

  lemma NativeFits(m: Machine, inst: Inst, s: State, next: Word)
    requires FitsMode(s.regs, m.addr) && next < Bound(m.addr)
    ensures
      var o := RunNative(m, inst, s, next);
      o.Next? ==> FitsMode(o.s.regs, m.addr) && o.pc < Bound(m.addr)
  {
    hide FitsMode, OperandValues, Encodable, PutResults;
    var o := RunNative(m, inst, s, next);
    if o.Next? {
      var out := m.native(inst, NativeIn(OperandValues(s.regs, inst.regs), s.mem0, ReadFlagValues(inst, s.flags),
                                         s.fpu));
      ResultsFit(m.addr, s.regs, inst.regs, out.regs);
    }
  }

  lemma ReferenceFits(m: Machine, inst: Inst, e: Env)
    requires Decoded(inst, m.addr) && OperandsReadable(inst, e) && FitsMode(e.regs, m.addr)
    ensures
      var o := Reference(m, inst, e);
      o.Next? ==> FitsMode(o.s.regs, m.addr) && o.pc < Bound(m.addr)
  {
    hide Emulate, RunNative, AddressOf, Decoded, OperandsReadable, MemValue;
    var s, cur, next := LoadState(inst, e), e.regs[RIP], NextPC(m, inst, e);
    if inst.form.Native? {
      NativeFits(m, inst, s, next);
    } else {
      EmulateFits(m, inst, s, if |inst.mems| > 0 then AddressOf(inst, 0, s.regs) else 0, cur, next);
    }
  }

  ghost predicate Narrowed(us: seq<Update>, a: AddrSize) {
    forall u :: u in us && u.ToReg? ==> u.value < Bound(a)
  }

  lemma {:induction false} UpdatesFit(e: Env, us: seq<Update>, a: AddrSize)
    requires FitsMode(e.regs, a) && Narrowed(us, a)
    ensures FitsMode(ApplyAll(e, us).env.regs, a)
  {
    hide Bound;
    if us != [] {
      var init, u := us[..|us| - 1], us[|us| - 1];
      assert forall v :: v in init ==> v in us;
      UpdatesFit(e, init, a);
      assert u in us;
    }
  }

  lemma LateNarrowed(flagSet: set<Flag>, flags: Flags, regSet: set<RegId>, regs: Regs, pc: Word, a: AddrSize)
    requires FitsMode(regs, a) && pc < Bound(a)
    ensures Narrowed(LateUpdates(flagSet, flags, regSet, regs, pc), a)
  {
    hide LateUpdates, Bound;
    forall u | u in LateUpdates(flagSet, flags, regSet, regs, pc) && u.ToReg?
      ensures u.value < Bound(a)
    {
      LateUpdatesAre(flagSet, flags, regSet, regs, pc, u);
    }
  }

  lemma StepNarrowed(inst: Inst, e: Env, s: State, pc: Word, a: AddrSize)
    requires FitsMode(s.regs, a) && pc < Bound(a)
    ensures Narrowed(StepUpdates(inst, e, s, pc), a)
  {
    hide LateUpdates, Bound, AddressOf;
    LateNarrowed(inst.writtenFlags, s.flags, WriteBackIds(inst, e.regs), s.regs, pc, a);
  }

  lemma NextFits(m: Machine, inst: Inst, e: Env)
    ensures NextPC(m, inst, e) < Bound(m.addr)
  {
  }

  // Registers keep to their width, also when the step is torn.
  lemma StepFits(m: Machine, e: Env)
    requires FitsMode(e.regs, m.addr) && !Step(m, e).Stop?
    ensures FitsMode(Step(m, e).env.regs, m.addr)
  {
    hide PlanInst, Decoded, OperandsReadable, Reference, RegsReadable, ReadSet, StepUpdates, LateUpdates, ApplyAll;
    hide FitsMode;
    hide Narrowed, NextPC, FetchLength, WriteBackIds, Bound;
    StepCases(m, e);
    var bytes := BytesAt(e.mem, e.regs[RIP], FetchLength(e.mem, e.regs[RIP], MAX_INST_LENGTH));
    var inst := m.decode(bytes, m.addr).value;
    PlanCases(m, inst, e);
    if inst.nop {
      NextFits(m, inst, e);
      LateNarrowed(inst.writtenFlags, e.flags, WriteBackIds(inst, e.regs), e.regs, NextPC(m, inst, e), m.addr);
    } else {
      ReferenceFits(m, inst, e);
      var o := Reference(m, inst, e);
      StepNarrowed(inst, e, o.s, o.pc, m.addr);
    }
    UpdatesFit(e, PlanInst(m, inst, e).updates, m.addr);
  }
}
