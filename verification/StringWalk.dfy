/** One iteration of a repeated string instruction, and where its operands lie after any number of them. */
module StringWalk {
  import opened Bits
  import opened FlatMemory
  import opened Machine
  import opened Isa
  import opened Updates
  import opened Locality

  function PartOfWidth(w: Width): Part {
    match w
    case W16 => Low16
    case W32 => Low32
    case W64 => Full64
  }

  // An operand that is just the memory at a string pointer.
  predicate AtPointer(mo: MemOperand, id: RegId, size: int) {
    !mo.agen && mo.base == Some(Reg(id, PartOfWidth(mo.width))) && mo.index == None && mo.disp == 0 && mo.size == size
  }

  // The operands that a decoded string instruction has.
  predicate StringShape(inst: Inst, op: StrOp) {
    && inst.opBytes in {1, 2, 4, 8}
    && inst.form.Str? && inst.form.op == op && !inst.nop && !inst.unsupported && !inst.usesFpu
    && match op
       case Movs =>
         && |inst.mems| == 2 && AtPointer(inst.mems[0], RDI, inst.opBytes) && AtPointer(inst.mems[1], RSI, inst.opBytes)
         && inst.mems[0].written && !inst.mems[1].written
       case Cmps =>
         && |inst.mems| == 2 && AtPointer(inst.mems[0], RSI, inst.opBytes) && AtPointer(inst.mems[1], RDI, inst.opBytes)
         && !inst.mems[0].written && !inst.mems[1].written
       case Stos =>
         && |inst.mems| == 1 && AtPointer(inst.mems[0], RDI, inst.opBytes) && inst.mems[0].written
         && |inst.regs| > 0 && inst.regs[0].reg == Reg(RAX, PartOf(inst.opBytes))
       case Scas =>
         && |inst.mems| == 1 && AtPointer(inst.mems[0], RDI, inst.opBytes) && !inst.mems[0].written
         && |inst.regs| > 0 && inst.regs[0].reg == Reg(RAX, PartOf(inst.opBytes))
       case Lods =>
         && |inst.mems| == 1 && AtPointer(inst.mems[0], RSI, inst.opBytes) && !inst.mems[0].written
  }

  // Everything but the memory operands is in place for the instruction to execute: the user refuses
  // nothing that it reads or writes.
  ghost predicate Fetched(m: Machine, e: Env, inst: Inst) {
    && RIP !in e.deny.readRegs && FetchLength(e.mem, e.regs[RIP], MAX_INST_LENGTH) > 0
    && Fetch(m, e) == Some(inst) && Decoded(inst, m.addr)
    && ReadSet(inst) * e.deny.readFlags == {} && RegsReadable(inst, e) && WritesGranted(inst, e)
  }

  lemma FetchedStep(m: Machine, e: Env, inst: Inst)
    requires Fetched(m, e, inst) && !inst.nop && !inst.unsupported && !inst.usesFpu
    ensures !OperandsReadable(inst, e) ==> Step(m, e) == Stop(ErrorReadMem)
    ensures OperandsReadable(inst, e) && Reference(m, inst, e).Next? ==>
      Step(m, e) == Done(Commit(m, inst, e, Reference(m, inst, e).s, Reference(m, inst, e).pc))
  {
    hide PlanInst, PlanStep, Step, Commit, Reference, OperandsReadable, RegsReadable, ReadSet, Decoded, StepUpdates;
    hide ApplyAll;
    hide WritesGranted;
    StepIs(m, e);
    StepCases(m, e);
    PlanCases(m, inst, e);
    if OperandsReadable(inst, e) && Reference(m, inst, e).Next? {
      WriteBackIsCommit(m, inst, e);
    }
  }

  // Any step that is done, of an instruction whose writes are not refused.
  lemma GrantedStep(m: Machine, e: Env, inst: Inst)
    requires Fetched(m, e, inst) && Step(m, e).Done?
    ensures inst.nop ==> Step(m, e) == Done(e.(regs := e.regs[RIP := NextPC(m, inst, e)]))
    ensures !inst.nop ==>
      && OperandsReadable(inst, e) && Reference(m, inst, e).Next?
      && Step(m, e) == Done(Commit(m, inst, e, Reference(m, inst, e).s, Reference(m, inst, e).pc))
  {
    hide PlanInst, PlanStep, Step, Commit, Reference, OperandsReadable, RegsReadable, ReadSet, Decoded, StepUpdates;
    hide ApplyAll;
    hide WritesGranted, NextPC, NopUpdates;
    StepIs(m, e);
    StepCases(m, e);
    PlanCases(m, inst, e);
    if inst.nop {
      NopIsMove(inst, e, NextPC(m, inst, e));
    } else if OperandsReadable(inst, e) && Reference(m, inst, e).Next? {
      WriteBackIsCommit(m, inst, e);
    }
  }

  function MovedTo(e: Env, pc: Word): Env {
    e.(regs := e.regs[RIP := pc])
  }

  // Addresses

  // The j-th element of a string that starts at p.
  function Elem(w: Width, p: int, inc: int, j: int): (r: Word)
    ensures r < WidthBound(w)
  {
    (p + j * inc) % WidthBound(w)
  }

  lemma AddressAtPointer(inst: Inst, i: nat, id: RegId, regs: Regs)
    requires i < |inst.mems| && AtPointer(inst.mems[i], id, inst.opBytes) && id != RIP && inst.form.Str?
    ensures AddressOf(inst, i, regs) == regs[id] % WidthBound(inst.mems[i].width)
  {
    var mo := inst.mems[i];
    assert OptGet(regs, mo.index) * mo.scale == 0;
    ModOfMod32(regs[id]);
  }

  // Moving the whole register step by step reaches the same elements as stepping the address.
  lemma ElemOfPointer(a: AddrSize, w: Width, p: int, inc: int, j: int)
    requires a == A32 ==> w != W64
    ensures Wrap(a, p + j * inc) % WidthBound(w) == Elem(w, p, inc, j)
  {
    hide Wrap, WidthBound;
    WrapNarrow(a, w, p + j * inc);
  }

  lemma WrapNarrow(a: AddrSize, w: Width, v: int)
    requires a == A32 ==> w != W64
    ensures Wrap(a, v) % WidthBound(w) == v % WidthBound(w)
  {
    ModOfMod32(v);
  }

  // The registers after k iterations.
  function WalkRegs(a: AddrSize, regs: Regs, op: StrOp, inc: int, k: nat): Regs
    requires k <= regs[RCX]
  {
    var r1 := if RSI in StringPointers(op) then regs[RSI := Wrap(a, regs[RSI] + k * inc)] else regs;
    var r2 := if RDI in StringPointers(op) then r1[RDI := Wrap(a, regs[RDI] + k * inc)] else r1;
    r2[RCX := regs[RCX] - k]
  }

  lemma WrapAdd(a: AddrSize, v: int, k: int, inc: int)
    ensures Wrap(a, Wrap(a, v + k * inc) + inc) == Wrap(a, v + (k + 1) * inc)
  {
    var b := Bound(a);
    var x := v + k * inc;
    assert v + (k + 1) * inc == x + inc;
    DivModUnique(x + inc, b, x / b + (x % b + inc) / b, (x % b + inc) % b);
  }

  lemma WalkNone(a: AddrSize, regs: Regs, op: StrOp, inc: int)
    requires FitsMode(regs, a)
    ensures WalkRegs(a, regs, op, inc, 0) == regs
  {
    var w := WalkRegs(a, regs, op, inc, 0);
    assert forall i: RegId :: w[i] == regs[i];
  }

  // The pointers moved by one more element, and the count decremented.
  function OneMore(a: AddrSize, regs: Regs, op: StrOp, inc: int): Regs
    requires regs[RCX] > 0
  {
    var r1 := if RSI in StringPointers(op) then Bump(a, regs, RSI, inc) else regs;
    var r2 := if RDI in StringPointers(op) then Bump(a, r1, RDI, inc) else r1;
    r2[RCX := regs[RCX] - 1]
  }

  lemma WalkOneMore(a: AddrSize, regs: Regs, op: StrOp, inc: int, k: nat)
    requires k < regs[RCX]
    ensures OneMore(a, WalkRegs(a, regs, op, inc, k), op, inc) == WalkRegs(a, regs, op, inc, k + 1)
  {
    hide Wrap;
    WrapAdd(a, regs[RSI], k, inc);
    WrapAdd(a, regs[RDI], k, inc);
    var x, y := OneMore(a, WalkRegs(a, regs, op, inc, k), op, inc), WalkRegs(a, regs, op, inc, k + 1);
    assert forall i: RegId :: x[i] == y[i];
  }

  // Values of a data operand fit in its width.
  lemma ValueFits(inst: Inst, e: Env, i: nat)
    requires OperandsReadable(inst, e) && i < |inst.mems| && !inst.mems[i].agen && inst.mems[i].size == inst.opBytes
    requires inst.opBytes in {1, 2, 4, 8}
    ensures MemValue(inst, e, i) < Pow256(inst.opBytes) <= B64
  {
    MemValueBound(inst, e, i);
    Pow256Values();
    Pow256Monotone(inst.opBytes, 8);
  }

  lemma SetLowOfWord(v: nat, w: Word)
    requires v < B64
    ensures SetLow(v, Low(w)) == w && Low(w) == w
  {
  }

  // The value that MOVS or STOS stores.
  function StoredValue(inst: Inst, e: Env, op: StrOp): Word
    requires StringShape(inst, op) && op in {Movs, Stos} && OperandsReadable(inst, e)
  {
    if op == Movs then ValueFits(inst, e, 1); MemValue(inst, e, 1) else Get(e.regs, inst.regs[0].reg)
  }

  lemma StoreReference(m: Machine, e: Env, inst: Inst, op: StrOp)
    requires Decoded(inst, m.addr) && StringShape(inst, op) && op in {Movs, Stos} && inst.form.rep == RepAny
    requires e.regs[RCX] > 0 && OperandsReadable(inst, e)
    ensures Reference(m, inst, e) ==
      Next(LoadState(inst, e).(mem0 := StoredValue(inst, e, op),
                               regs := OneMore(m.addr, e.regs, op, Stride(inst, e.flags))),
           if e.regs[RCX] > 1 then e.regs[RIP] else NextPC(m, inst, e))
  {
    hide AddressOf, MemValue, Decoded, Slice, Wrap, NextPC, SetLow, Low, Pow256;
    ValueFits(inst, e, 0);
    SetLowOfWord(MemValue(inst, e, 0), StoredValue(inst, e, op));
  }

  lemma StoreCommit(m: Machine, e: Env, inst: Inst, op: StrOp, s: State, pc: Word)
    requires Decoded(inst, m.addr) && StringShape(inst, op) && op in {Movs, Stos} && OperandsReadable(inst, e)
    requires s.flags == e.flags
    ensures Mapped(e.mem, e.regs[RDI] % WidthBound(inst.mems[0].width), inst.opBytes)
    ensures Commit(m, inst, e, s, pc) ==
      e.(regs := s.regs[RIP := pc],
         mem := StoreValue(e.mem, e.regs[RDI] % WidthBound(inst.mems[0].width), inst.opBytes, s.mem0))
  {
    AddressAtPointer(inst, 0, RDI, e.regs);
    WrittenIsMapped(inst, e, 0, m.addr);
    hide AddressOf, StoreValue, Decoded, OperandsReadable;
  }

  // An iteration of REP MOVS or REP STOS, on the user's state.
  lemma StoreIteration(m: Machine, e: Env, inst: Inst, op: StrOp)
    requires Fetched(m, e, inst) && StringShape(inst, op) && op in {Movs, Stos} && inst.form.rep == RepAny
    requires e.regs[RCX] > 0 && OperandsReadable(inst, e)
    ensures
      var dst := e.regs[RDI] % WidthBound(inst.mems[0].width);
      && Mapped(e.mem, dst, inst.opBytes)
      && Step(m, e) == Done(e.(
           regs := OneMore(m.addr, e.regs, op, Stride(inst, e.flags))[RIP :=
             if e.regs[RCX] > 1 then e.regs[RIP] else NextPC(m, inst, e)],
           mem := StoreValue(e.mem, dst, inst.opBytes, StoredValue(inst, e, op))))
  {
    hide OneMore, NextPC, Stride, StoredValue, Step, Commit, Reference, OperandsReadable, Get;
    StoreReference(m, e, inst, op);
    var o := Reference(m, inst, e);
    StoreCommit(m, e, inst, op, o.s, o.pc);
    FetchedStep(m, e, inst);
  }

  // Count zero

  lemma WriteBackOfRead(a: AddrSize, inst: Inst, e: Env, i: nat)
    requires Decoded(inst, a) && OperandsReadable(inst, e) && i < |inst.mems|
    ensures WriteBack(a, inst, e, e.mem, i, MemValue(inst, e, i)) == e.mem
  {
    hide AddressOf, HintOf;
    if inst.mems[i].written {
      WrittenIsMapped(inst, e, i, a);
      WriteBackUnchanged(e.mem, AddressOf(inst, i, e.regs), inst.mems[i].size);
    }
  }

  lemma ZeroReference(m: Machine, e: Env, inst: Inst, op: StrOp)
    requires Decoded(inst, m.addr) && StringShape(inst, op) && inst.form.rep != NoRep && e.regs[RCX] == 0
    requires OperandsReadable(inst, e)
    ensures Reference(m, inst, e) == Next(LoadState(inst, e), NextPC(m, inst, e))
  {
    hide AddressOf, MemValue, OperandsReadable, Decoded, NextPC, Element, AtPointer;
  }

  // A repeated string instruction with count zero only moves the program counter: flags it might have
  // written are unchanged, and so is the memory operand that is written back.
  lemma ZeroCount(m: Machine, e: Env, inst: Inst, op: StrOp)
    requires Fetched(m, e, inst) && StringShape(inst, op) && inst.form.rep != NoRep && e.regs[RCX] == 0
    requires OperandsReadable(inst, e)
    ensures Step(m, e) == Done(e.(regs := e.regs[RIP := NextPC(m, inst, e)]))
  {
    hide AddressOf, MemValue, OperandsReadable, Decoded, NextPC, AtPointer, Step, Reference, WriteBack, RegsReadable;
    ZeroReference(m, e, inst, op);
    FetchedStep(m, e, inst);
    WriteBackOfRead(m.addr, inst, e, 0);
    if |inst.mems| > 1 {
      WriteBackOfRead(m.addr, inst, e, 1);
    } else {
      NoSecondOperand(m.addr, inst, e, e.mem, MemValue(inst, e, 1));
    }
  }

  lemma NoSecondOperand(a: AddrSize, inst: Inst, e: Env, mem: Flat, v: nat)
    requires Decoded(inst, a) && OperandsReadable(inst, e) && mem.Keys == e.mem.Keys && |inst.mems| <= 1
    ensures WriteBack(a, inst, e, mem, 1, v) == mem
  {
  }

  // The run is still at the instruction.
  ghost predicate StillAt(r: RunResult, pc: Word) {
    r.Completed? && r.env.regs[RIP] == pc
  }
}
