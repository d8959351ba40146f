/**
 What one instruction does to the user's state, with no cache, staging or write-back: the reference
 that class Executor is proved to implement (module MicroExecutor), and that the run theorems are about.
 */
module Isa {
  import opened Bits
  import opened FlatMemory
  import opened Machine
  import opened Updates

  // The operand values an instruction works on.
  datatype State = State(regs: Regs, flags: Flags, mem0: nat, mem1: nat, fpu: nat)

  datatype Outcome = Next(s: State, pc: Word) | Halt(status: Status)

  function Wrap(a: AddrSize, v: int): (r: Word)
    ensures r < Bound(a)
  {
    v % Bound(a)
  }

  function Get(regs: Regs, r: Reg): Word {
    Slice(regs[r.id], r.part)
  }

  function Put(a: AddrSize, regs: Regs, r: Reg, v: Word): Regs {
    regs[r.id := Wrap(a, Splice(regs[r.id], r.part, v))]
  }

  // The executor reads and writes memory operands through their low 64 bits.
  function Low(v: nat): Word {
    v % B64
  }

  function SetLow(v: nat, w: Word): nat {
    v - v % B64 + w
  }

  // A whole register moved by some amount.
  function Bump(a: AddrSize, regs: Regs, id: RegId, amount: int): Regs {
    regs[id := Wrap(a, regs[id] + amount)]
  }

  // Addresses

  function OptGet(regs: Regs, r: Option<Reg>): Word {
    if r.Some? then Get(regs, r.value) else 0
  }

  function BaseId(mo: MemOperand): Option<RegId> {
    if mo.base.Some? then Some(mo.base.value.id) else None
  }

  // PUSH and CALL write just below the stack pointer they name; POP into memory sees it moved.
  function Adjustment(inst: Inst, i: nat): int
    requires i < |inst.mems|
  {
    var f := inst.form;
    if i == 0 && (f.CallRel? || f.CallReg? || f.PushReg? || f.PushImm?) then -inst.opBytes
    else if i == 0 && inst.form.PopMem? && BaseId(inst.mems[0]) == Some(RSP) then inst.opBytes
    else if i == 1 && (inst.form.CallMem? || inst.form.PushMem?) then -inst.opBytes
    else 0
  }

  // PC-relative operands are relative to the next instruction.
  function AddressOf(inst: Inst, i: nat, regs: Regs): (r: Word)
    requires i < |inst.mems|
    ensures r < WidthBound(inst.mems[i].width)
  {
    var mo := inst.mems[i];
    var relative := if BaseId(mo) == Some(RIP) then inst.length else 0;
    (OptGet(regs, mo.base) + relative + OptGet(regs, mo.index) * mo.scale + mo.disp + Adjustment(inst, i))
      % WidthBound(mo.width)
  }

  predicate MemReadable(inst: Inst, e: Env, i: nat)
    requires i < |inst.mems|
  {
    inst.mems[i].agen || Accessible(e.mem, AddressOf(inst, i, e.regs), inst.mems[i].size, HintOf(inst.mems[i]))
  }

  // The value of the i-th memory operand; zero when there is none, or only its address is wanted.
  function MemValue(inst: Inst, e: Env, i: nat): nat
    requires i < |inst.mems| ==> MemReadable(inst, e, i)
  {
    if i < |inst.mems| && !inst.mems[i].agen then
      ValueAt(e.mem, AddressOf(inst, i, e.regs), inst.mems[i].size)
    else 0
  }

  // Flags and branches

  // Even parity of the low eight bits: their exclusive or is the parity of their sum.
  function ParityFlag(r: byte): bool {
    (r + r / 2 + r / 4 + r / 8 + r / 16 + r / 32 + r / 64 + r / 128) % 2 == 0
  }

  // The flags of lhs - rhs. Bit 4 of res ^ lhs ^ rhs is the parity of the three bits.
  function CompareFlags(m: Machine, flags: Flags, lhs: Word, rhs: Word, opBytes: int): Flags
    requires opBytes in {1, 2, 4, 8}
  {
    var res := (lhs - rhs) % B64;
    var shift := PartBound(PartOf(opBytes)) / 2;
    var signLhs, signRhs, signRes := m.shiftBit(lhs, shift), m.shiftBit(rhs, shift), m.shiftBit(res, shift);
    var sf := SetTo(flags, SF, signRes);
    var cf := SetTo(sf, CF, lhs < rhs);
    var of := SetTo(cf, OF, signLhs != signRhs && signLhs != signRes);
    var zf := SetTo(of, ZF, res == 0);
    var af := SetTo(zf, AF, (res / 16 + lhs / 16 + rhs / 16) % 2 == 1);
    SetTo(af, PF, ParityFlag(res % B8))
  }

  function PartOf(bytes: int): Part
    requires bytes in {1, 2, 4, 8}
  {
    if bytes == 1 then Low8 else if bytes == 2 then Low16 else if bytes == 4 then Low32 else Full64
  }

  predicate CondHolds(c: Cond, f: Flags) {
    match c
    case JO => OF in f
    case JNO => OF !in f
    case JB => CF in f
    case JNB => CF !in f
    case JZ => ZF in f
    case JNZ => ZF !in f
    case JBE => CF in f || ZF in f
    case JNBE => CF !in f && ZF !in f
    case JS => SF in f
    case JNS => SF !in f
    case JP => PF in f
    case JNP => PF !in f
    case JL => (SF in f) != (OF in f)
    case JNL => (SF in f) == (OF in f)
    case JLE => ZF in f || (SF in f) != (OF in f)
    case JNLE => ZF !in f && (SF in f) == (OF in f)
  }

  function Target(m: Machine, inst: Inst, next: Word): Word {
    Wrap(m.addr, next + inst.branchDisp)
  }

  // String instructions

  // Elements are walked upwards, or downwards when DF is set.
  function Stride(inst: Inst, f: Flags): int {
    if DF in f then -inst.opBytes else inst.opBytes
  }

  function StringPointers(op: StrOp): set<RegId> {
    match op
    case Stos | Scas => {RDI}
    case Lods => {RSI}
    case Movs | Cmps => {RSI, RDI}
  }

  function Element(m: Machine, inst: Inst, op: StrOp, s: State): (r: State)
    requires Decoded(inst, m.addr) && StringOperands(inst, op)
  {
    var inc := Stride(inst, s.flags);
    match op
    case Stos =>
      s.(mem0 := SetLow(s.mem0, Get(s.regs, inst.regs[0].reg)), regs := Bump(m.addr, s.regs, RDI, inc))
    case Scas =>
      s.(flags := CompareFlags(m, s.flags, Get(s.regs, inst.regs[0].reg), Low(s.mem0), inst.opBytes),
         regs := Bump(m.addr, s.regs, RDI, inc))
    case Lods =>
      s.(regs := Bump(m.addr, Put(m.addr, s.regs, inst.regs[0].reg, Low(s.mem0)), RSI, inc))
    case Movs =>
      s.(mem0 := SetLow(s.mem0, Low(s.mem1)), regs := Bump(m.addr, Bump(m.addr, s.regs, RSI, inc), RDI, inc))
    case Cmps =>
      s.(flags := CompareFlags(m, s.flags, Low(s.mem0), Low(s.mem1), inst.opBytes),
         regs := Bump(m.addr, Bump(m.addr, s.regs, RSI, inc), RDI, inc))
  }

  predicate Repeats(rep: Rep, f: Flags) {
    match rep
    case NoRep => false
    case RepAny => true
    case Repe => ZF in f
    case Repne => ZF !in f
  }

  // One iteration per step: the PC stays while there is more to do.
  function StringStep(m: Machine, inst: Inst, op: StrOp, rep: Rep, s: State, cur: Word, next: Word): (o: Outcome)
    requires Decoded(inst, m.addr) && StringOperands(inst, op)
    ensures o.Next?
  {
    if rep == NoRep then
      Next(Element(m, inst, op, s), next)
    else if s.regs[RCX] == 0 then
      Next(s, next)
    else
      var t := Element(m, inst, op, s);
      var count := s.regs[RCX] - 1;
      Next(t.(regs := t.regs[RCX := count]), if count != 0 && Repeats(rep, t.flags) then cur else next)
  }

  // The emulated instructions

  function Immediate16(inst: Inst): Word {
    inst.imm % B16
  }

  // The low half of the immediate, whatever the operand's size.
  function PushImmediate(inst: Inst): Word
    requires inst.opBytes in {1, 2, 4, 8}
  {
    inst.imm % PartBound(PartOf(inst.opBytes)) % B32
  }

  predicate LoopHolds(w: LoopWhile, f: Flags) {
    match w
    case Counting => true
    case ZeroSet => ZF in f
    case ZeroClear => ZF !in f
  }

  // The count is looked at before it is lowered.
  predicate LoopBranches(w: LoopWhile, count: Word, f: Flags) {
    count != 0 && LoopHolds(w, f)
  }

  predicate Jumps(f: Form) { f.Jcc? || f.Jrcxz? || f.JmpRel? || f.JmpReg? || f.JmpMem? }

  function JumpTarget(m: Machine, inst: Inst, s: State, next: Word): Word
    requires Jumps(inst.form) && FormOperands(inst, m.addr)
  {
    match inst.form
    case Jcc(c) => if CondHolds(c, s.flags) then Target(m, inst, next) else next
    case Jrcxz(p) => if Slice(s.regs[RCX], p) == 0 then Target(m, inst, next) else next
    case JmpRel => Target(m, inst, next)
    case JmpReg => Wrap(m.addr, Get(s.regs, inst.regs[0].reg))
    case JmpMem => Wrap(m.addr, Low(s.mem0))
  }

  predicate Transfers(f: Form) { f.CallRel? || f.CallReg? || f.CallMem? || f.Ret? || f.RetImm? }

  predicate MovesStack(f: Form) { f.PushReg? || f.PushImm? || f.PushMem? || f.PopReg? || f.PopMem? }

  // CALL leaves the return address in the staged stack slot; RET takes its target from there.
  function CallOrReturn(m: Machine, inst: Inst, s: State, next: Word): (o: Outcome)
    requires Transfers(inst.form) && FormOperands(inst, m.addr)
    ensures o.Next?
  {
    var a := m.addr;
    match inst.form
    case CallRel => Next(s.(mem0 := SetLow(s.mem0, next), regs := Bump(a, s.regs, RSP, -AddrBytes(a))),
                         Target(m, inst, next))
    case CallReg =>
      Next(s.(mem0 := SetLow(s.mem0, next), regs := Bump(a, s.regs, RSP, -AddrBytes(a))),
           Wrap(a, Get(s.regs, inst.regs[0].reg)))
    case CallMem => Next(s.(mem1 := SetLow(s.mem1, next), regs := Bump(a, s.regs, RSP, -AddrBytes(a))),
                         Wrap(a, Low(s.mem0)))
    case Ret => Next(s.(regs := Bump(a, s.regs, RSP, AddrBytes(a))), Wrap(a, Low(s.mem0)))
    case RetImm => Next(s.(regs := Bump(a, s.regs, RSP, AddrBytes(a) + Immediate16(inst))), Wrap(a, Low(s.mem0)))
  }

  function PushOrPop(m: Machine, inst: Inst, s: State): State
    requires MovesStack(inst.form) && FormOperands(inst, m.addr) && inst.opBytes in {1, 2, 4, 8}
  {
    var a := m.addr;
    match inst.form
    case PushReg =>
      s.(mem0 := SetLow(s.mem0, Get(s.regs, inst.regs[0].reg)), regs := Bump(a, s.regs, RSP, -inst.opBytes))
    case PushImm => s.(mem0 := SetLow(s.mem0, PushImmediate(inst)), regs := Bump(a, s.regs, RSP, -inst.opBytes))
    case PushMem => s.(mem1 := SetLow(s.mem1, Low(s.mem0)), regs := Bump(a, s.regs, RSP, -inst.opBytes))
    case PopReg =>
      s.(regs := Bump(a, Put(a, s.regs, inst.regs[0].reg, Low(s.mem0)), RSP, inst.opBytes))
    case PopMem => s.(mem0 := SetLow(s.mem0, Low(s.mem1)), regs := Bump(a, s.regs, RSP, inst.opBytes))
  }

  function LeaveFrame(a: AddrSize, inst: Inst, s: State): Regs
    requires |inst.regs| > 1
  {
    Put(a, Put(a, s.regs, inst.regs[1].reg, Get(s.regs, inst.regs[0].reg)), inst.regs[0].reg, Low(s.mem0))
  }

  lemma FormGroups(f: Form)
    ensures f.PushReg? || f.PushImm? || f.PushMem? || f.PopReg? || f.PopMem? <==> MovesStack(f)
    ensures f.FarTransfer? || f.WideStack? || f.Native? || f.Lea? || f.Str? || f.Leave? || MovesStack(f)
            || Jumps(f) || Transfers(f) || f.Loop? || f.Xbegin?
  {
  }

  predicate Emulated(f: Form) { !f.Native? }

  function Emulate(m: Machine, inst: Inst, s: State, address0: Word, cur: Word, next: Word): Outcome
    requires Decoded(inst, m.addr) && Emulated(inst.form)
  {
    var a := m.addr;
    match inst.form
    case Lea => Next(s.(regs := Put(a, s.regs, inst.regs[0].reg, address0)), next)
    case Jcc(_) | Jrcxz(_) | JmpRel | JmpReg | JmpMem => Next(s, JumpTarget(m, inst, s, next))
    case CallRel | CallReg | CallMem | Ret | RetImm => CallOrReturn(m, inst, s, next)
    case Str(op, rep) => StringStep(m, inst, op, rep, s, cur, next)
    case Loop(w) =>
      Next(s.(regs := Bump(a, s.regs, RCX, -1)),
           if LoopBranches(w, s.regs[RCX], s.flags) then Target(m, inst, next) else next)
    case Xbegin => Next(s.(regs := s.regs[RAX := 8]), Target(m, inst, next))
    case Leave => Next(s.(regs := LeaveFrame(a, inst, s)), next)
    case PushReg | PushImm | PushMem | PopReg | PopMem => Next(PushOrPop(m, inst, s), next)
    case FarTransfer => Halt(UnsupportedCFI)
    case WideStack => Halt(UnsupportedStack)
  }

  // The instructions left to the host

  function OperandValues(regs: Regs, ops: seq<RegOperand>): (vs: seq<Word>)
    ensures |vs| == |ops|
    ensures forall i :: 0 <= i < |ops| ==> vs[i] == Get(regs, ops[i].reg)
  {
    if ops == [] then [] else OperandValues(regs, ops[..|ops| - 1]) + [Get(regs, ops[|ops| - 1].reg)]
  }

  // Written operands receive their results in operand order.
  function PutResults(a: AddrSize, regs: Regs, ops: seq<RegOperand>, vs: seq<Word>): Regs
    requires |vs| == |ops|
  {
    if ops == [] then regs
    else
      var last := |ops| - 1;
      var r := PutResults(a, regs, ops[..last], vs[..last]);
      if ops[last].written then Put(a, r, ops[last].reg, vs[last]) else r
  }

  function ReadFlagValues(inst: Inst, f: Flags): map<Flag, bool> {
    map g | g in ReadSet(inst) :: g in f
  }

  function MergeFlags(into: Flags, from: Flags, which: set<Flag>): Flags {
    (into - which) + (from * which)
  }

  // The stack pointer cannot be handed to the host: it is renamed to a general register that the
  // instruction leaves alone, if there is one.
  predicate MentionsStackPointer(ops: seq<RegOperand>) {
    exists i :: 0 <= i < |ops| && ops[i].explicit && ops[i].reg.id == RSP
  }

  function AliasFor(inst: Inst): (r: Option<RegId>)
    ensures r.Some? ==> r.value !in UsedIds(inst) && r.value in {RAX, RCX, RDX, RBX}
  {
    if RAX !in UsedIds(inst) then Some(RAX)
    else if RCX !in UsedIds(inst) then Some(RCX)
    else if RDX !in UsedIds(inst) then Some(RDX)
    else if RBX !in UsedIds(inst) then Some(RBX)
    else None
  }

  predicate Encodable(m: Machine, inst: Inst) {
    m.encodes(inst) && (MentionsStackPointer(inst.regs) ==> AliasFor(inst).Some?)
  }

  function RunNative(m: Machine, inst: Inst, s: State, next: Word): Outcome {
    if !Encodable(m, inst) then Halt(ErrorExecute)
    else
      match m.native(inst, NativeIn(OperandValues(s.regs, inst.regs), s.mem0, ReadFlagValues(inst, s.flags), s.fpu))
      case Raised(sig) => Halt(StatusOf(sig))
      case Finished(vs, mem0, flags, fpu) =>
        if |vs| != |inst.regs| then Halt(ErrorExecute)
        else
          Next(State(PutResults(m.addr, s.regs, inst.regs, vs), MergeFlags(s.flags, flags, inst.writtenFlags),
                     if |inst.mems| > 0 then mem0 else s.mem0, s.mem1, if inst.usesFpu then fpu else s.fpu), next)
  }

  lemma SignalsAreErrors()
    ensures forall sig :: StatusOf(sig) in {Fault, FloatingPointException, ErrorExecute}
  {
  }

  // One whole step

  predicate RegsReadable(inst: Inst, e: Env) {
    UsedIds(inst) !! e.deny.readRegs
  }

  predicate OperandsReadable(inst: Inst, e: Env) {
    forall i :: 0 <= i < |inst.mems| ==> MemReadable(inst, e, i)
  }

  lemma OperandsFit(inst: Inst, i: nat, a: AddrSize)
    requires Decoded(inst, a) && i < |inst.mems|
    ensures FitsOperand(inst.mems[i].base, a) && FitsOperand(inst.mems[i].index, a)
  {
  }

  lemma AtMostTwo(inst: Inst, a: AddrSize)
    requires Decoded(inst, a)
    ensures |inst.mems| <= 2
  {
  }

  lemma MemValueBound(inst: Inst, e: Env, i: nat)
    requires OperandsReadable(inst, e)
    ensures MemValue(inst, e, i) < if i < |inst.mems| then Pow256(inst.mems[i].size) else 1
    ensures i >= |inst.mems| || inst.mems[i].agen || inst.mems[i].size <= 8 ==> MemValue(inst, e, i) < B64
  {
    Pow256Values();
    if i < |inst.mems| && !inst.mems[i].agen {
      var mo := inst.mems[i];
      assert MemReadable(inst, e, i);
      FromBytesBound(BytesAt(e.mem, AddressOf(inst, i, e.regs), mo.size));
      if mo.size <= 8 {
        Pow256Monotone(mo.size, 8);
      }
    }
  }

  lemma WrittenIsMapped(inst: Inst, e: Env, i: nat, a: AddrSize)
    requires Decoded(inst, a) && OperandsReadable(inst, e) && i < |inst.mems| && inst.mems[i].written
    ensures Mapped(e.mem, AddressOf(inst, i, e.regs), inst.mems[i].size)
  {
    assert MemReadable(inst, e, i);
  }

  // A written memory operand is stored, as the instruction left it, where it was read.
  function WriteBack(a: AddrSize, inst: Inst, e: Env, mem: Flat, i: nat, v: nat): (r: Flat)
    requires Decoded(inst, a) && OperandsReadable(inst, e) && mem.Keys == e.mem.Keys
    ensures r.Keys == mem.Keys
  {
    if i < |inst.mems| && inst.mems[i].written then
      WrittenIsMapped(inst, e, i, a);
      StoreValue(mem, AddressOf(inst, i, e.regs), inst.mems[i].size, v)
    else mem
  }

  function Commit(m: Machine, inst: Inst, e: Env, s: State, pc: Word): Env
    requires Decoded(inst, m.addr) && OperandsReadable(inst, e)
  {
    var mem0 := WriteBack(m.addr, inst, e, e.mem, 0, s.mem0);
    var mem1 := WriteBack(m.addr, inst, e, mem0, 1, s.mem1);
    Env(s.regs[RIP := pc], s.flags, mem1, if inst.usesFpu then s.fpu else e.fpu, e.deny)
  }

  function LoadState(inst: Inst, e: Env): State
    requires OperandsReadable(inst, e)
  {
    State(e.regs, e.flags, MemValue(inst, e, 0), MemValue(inst, e, 1), if inst.usesFpu then e.fpu else 0)
  }

  function NextPC(m: Machine, inst: Inst, e: Env): Word {
    Wrap(m.addr, e.regs[RIP] + inst.length)
  }

  function Transform(m: Machine, inst: Inst, s: State, cur: Word, next: Word): Outcome
    requires Decoded(inst, m.addr)
  {
    if inst.form.Native? then RunNative(m, inst, s, next)
    else
      var address0 := if |inst.mems| > 0 then AddressOf(inst, 0, s.regs) else 0;
      Emulate(m, inst, s, address0, cur, next)
  }

  // The outcome on the user's own state.
  function Reference(m: Machine, inst: Inst, e: Env): Outcome
    requires Decoded(inst, m.addr) && OperandsReadable(inst, e)
  {
    Transform(m, inst, LoadState(inst, e), e.regs[RIP], NextPC(m, inst, e))
  }

  // What goes back

  // The string pointers that an instruction moves besides its register operands.
  function Moved(inst: Inst, regs: Regs): set<RegId> {
    if inst.form.Str? && (inst.form.rep == NoRep || regs[RCX] != 0) then StringPointers(inst.form.op) else {}
  }

  // The registers written back, besides the program counter. A NOP moves no pointer.
  function WriteBackIds(inst: Inst, regs: Regs): set<RegId> {
    WrittenIds(inst) + if inst.nop then {} else Moved(inst, regs)
  }

  function MemUpdates(inst: Inst, e: Env, i: nat, v: nat): seq<Update> {
    if i < |inst.mems| && inst.mems[i].written then [ToMem(AddressOf(inst, i, e.regs), inst.mems[i].size, v)] else []
  }

  // Memory, so that nothing is written when an instruction fails, and the FPU.
  function EarlyUpdates(inst: Inst, e: Env, mem0: nat, mem1: nat, fpu: nat): seq<Update> {
    MemUpdates(inst, e, 0, mem0) + MemUpdates(inst, e, 1, mem1) + if inst.usesFpu then [ToFpu(fpu)] else []
  }

  function StepUpdates(inst: Inst, e: Env, s: State, pc: Word): seq<Update> {
    EarlyUpdates(inst, e, s.mem0, s.mem1, s.fpu)
      + LateUpdates(inst.writtenFlags, s.flags, WriteBackIds(inst, e.regs), s.regs, pc)
  }

  // A NOP writes back what it read.
  function NopUpdates(inst: Inst, e: Env, pc: Word): seq<Update> {
    LateUpdates(inst.writtenFlags, e.flags, WriteBackIds(inst, e.regs), e.regs, pc)
  }

  // What a step comes to: it is rejected before anything is written, or has these updates to write.
  datatype Plan = Reject(status: Status) | Write(inst: Inst, updates: seq<Update>)

  function PlanInst(m: Machine, inst: Inst, e: Env): Plan
    requires Decoded(inst, m.addr)
  {
    var next := NextPC(m, inst, e);
    if inst.unsupported then Reject(UnsupportedFeatures)
    else if ReadSet(inst) * e.deny.readFlags != {} then Reject(ErrorReadFlags)
    else if !RegsReadable(inst, e) then Reject(ErrorReadReg)
    else if inst.nop then Write(inst, NopUpdates(inst, e, next))
    else if inst.usesFpu && e.deny.readFpu then Reject(ErrorReadFPU)
    else if !OperandsReadable(inst, e) then Reject(ErrorReadMem)
    else
      match Reference(m, inst, e)
      case Halt(status) => Reject(status)
      case Next(s, pc) => Write(inst, StepUpdates(inst, e, s, pc))
  }

  function Conclude(e: Env, p: Plan): StepResult {
    match p
    case Reject(status) => Stop(status)
    case Write(_, us) => ApplyAll(e, us)
  }

  // The user refuses nothing of what an instruction writes back.
  predicate WritesGranted(inst: Inst, e: Env) {
    && RIP !in e.deny.writeRegs
    && WriteBackIds(inst, e.regs) !! e.deny.writeRegs
    && inst.writtenFlags !! e.deny.writeFlags
    && (inst.usesFpu && !inst.nop ==> !e.deny.writeFpu)
  }

  // The order in which an instruction can be rejected.
  lemma PlanCases(m: Machine, inst: Inst, e: Env)
    requires Decoded(inst, m.addr)
    ensures inst.unsupported ==> PlanInst(m, inst, e) == Reject(UnsupportedFeatures)
    ensures !inst.unsupported ==>
      if ReadSet(inst) * e.deny.readFlags != {} then PlanInst(m, inst, e) == Reject(ErrorReadFlags)
      else if !RegsReadable(inst, e) then PlanInst(m, inst, e) == Reject(ErrorReadReg)
      else if inst.nop then PlanInst(m, inst, e) == Write(inst, NopUpdates(inst, e, NextPC(m, inst, e)))
      else if inst.usesFpu && e.deny.readFpu then PlanInst(m, inst, e) == Reject(ErrorReadFPU)
      else if !OperandsReadable(inst, e) then PlanInst(m, inst, e) == Reject(ErrorReadMem)
      else if Reference(m, inst, e).Halt? then
        && PlanInst(m, inst, e) == Reject(Reference(m, inst, e).status)
        && DecidedEarly(Reference(m, inst, e).status)
      else PlanInst(m, inst, e) == Write(inst, StepUpdates(inst, e, Reference(m, inst, e).s, Reference(m, inst, e).pc))
  {
    hide StepUpdates, NopUpdates, NextPC, OperandsReadable, RegsReadable, ReadSet, StringStep, CallOrReturn, PushOrPop;
    hide JumpTarget, LoadState, PutResults, AddressOf, Encodable, Decoded;
  }

  // Failures decided before anything is written.
  predicate DecidedEarly(st: Status) {
    st !in {Good, NotInitialized, ErrorWriteMem, ErrorWriteFPU, ErrorWriteFlags, ErrorWriteReg}
  }

  lemma EarlyIs()
    ensures forall st :: DecidedEarly(st) <==>
      st !in {Good, NotInitialized, ErrorWriteMem, ErrorWriteFPU, ErrorWriteFlags, ErrorWriteReg}
  {
  }

  // The longest readable and executable run of bytes at pc, of at most n.
  function FetchLength(mem: Flat, pc: Word, n: nat): (r: nat)
    ensures r <= n && Mapped(mem, pc, r)
  {
    if n == 0 || Accessible(mem, pc, n, ReadExecutable) then n else FetchLength(mem, pc, n - 1)
  }

  lemma FetchShorter(mem: Flat, pc: Word, n: nat)
    requires n > 0
    ensures FetchLength(mem, pc, n) == if Accessible(mem, pc, n, ReadExecutable) then n else FetchLength(mem, pc, n - 1)
  {
  }

  const MAX_INST_LENGTH: nat := 15

  function FetchBytes(mem: Flat, pc: Word): seq<byte> {
    BytesAt(mem, pc, FetchLength(mem, pc, MAX_INST_LENGTH))
  }

  function Fetch(m: Machine, e: Env): Option<Inst> {
    m.decode(FetchBytes(e.mem, e.regs[RIP]), m.addr)
  }

  // A trusted decoder only reports Decoded instructions.
  function PlanStep(m: Machine, e: Env): Plan {
    if RIP in e.deny.readRegs then Reject(ErrorReadReg)
    else if FetchLength(e.mem, e.regs[RIP], MAX_INST_LENGTH) == 0 then Reject(ErrorReadInstMem)
    else
      match Fetch(m, e)
      case None => Reject(ErrorDecode)
      case Some(inst) => if Decoded(inst, m.addr) then PlanInst(m, inst, e) else Reject(ErrorDecode)
  }

  // One instruction: everything that it writes, or what it writes up to a refusal, or nothing.
  function Step(m: Machine, e: Env): StepResult {
    Conclude(e, PlanStep(m, e))
  }

  datatype RunResult = Completed(env: Env) | Stopped(env: Env, steps: nat, status: Status)

  // One more step after a run of `done` steps.
  function Extend(r: RunResult, done: nat, last: StepResult): RunResult {
    match r
    case Stopped(_, _, _) => r
    case Completed(e) =>
      match last
      case Done(env) => Completed(env)
      case Stop(status) => Stopped(e, done, status)
      case Torn(env, status) => Stopped(env, done, status)
  }

  // n steps, or as many as succeed.
  function Run(m: Machine, e: Env, n: nat): RunResult {
    if n == 0 then Completed(e)
    else
      var r := Run(m, e, n - 1);
      Extend(r, n - 1, Step(m, r.env))
  }

  function Shift(r: RunResult, by_: nat): RunResult {
    match r
    case Completed(_) => r
    case Stopped(env, steps, status) => Stopped(env, by_ + steps, status)
  }

  // Running k + n instructions is running k of them and then n more.
  lemma {:induction false} RunAppend(m: Machine, e: Env, k: nat, n: nat)
    ensures Run(m, e, k).Completed? ==> Run(m, e, k + n) == Shift(Run(m, Run(m, e, k).env, n), k)
  {
    hide Step;
    if n != 0 {
      RunAppend(m, e, k, n - 1);
      var r := Run(m, Run(m, e, k).env, n - 1);
      ShiftExtend(r, k, n - 1, Step(m, r.env));
    }
  }

  lemma ShiftExtend(r: RunResult, k: nat, done: nat, last: StepResult)
    ensures Extend(Shift(r, k), k + done, last) == Shift(Extend(r, done, last), k)
  {
  }

  // A run that stopped stays stopped.
  lemma {:induction false} RunStops(m: Machine, e: Env, k: nat, n: nat)
    requires k <= n
    ensures Run(m, e, k).Stopped? ==> Run(m, e, n) == Run(m, e, k)
  {
    hide Step;
    if k < n {
      RunStops(m, e, k, n - 1);
    }
  }

  lemma RunNone(m: Machine, e: Env)
    ensures Run(m, e, 0) == Completed(e)
  {
  }

  lemma RunOneMore(m: Machine, e: Env, n: nat)
    ensures Run(m, e, n + 1) ==
      match Run(m, e, n)
      case Stopped(_, _, _) => Run(m, e, n)
      case Completed(prev) =>
        match Step(m, prev)
        case Done(env) => Completed(env)
        case Stop(status) => Stopped(prev, n, status)
        case Torn(env, status) => Stopped(env, n, status)
  {
    hide Step;
  }

  lemma StepCases(m: Machine, e: Env)
    ensures RIP in e.deny.readRegs ==> PlanStep(m, e) == Reject(ErrorReadReg)
    ensures RIP !in e.deny.readRegs ==>
      var bytes := FetchBytes(e.mem, e.regs[RIP]);
      if |bytes| == 0 then PlanStep(m, e) == Reject(ErrorReadInstMem)
      else if m.decode(bytes, m.addr) == None then PlanStep(m, e) == Reject(ErrorDecode)
      else if Decoded(m.decode(bytes, m.addr).value, m.addr) then
        PlanStep(m, e) == PlanInst(m, m.decode(bytes, m.addr).value, e)
      else PlanStep(m, e) == Reject(ErrorDecode)
  {
    hide PlanInst, Decoded;
  }

  lemma StepIs(m: Machine, e: Env)
    ensures Step(m, e) == Conclude(e, PlanStep(m, e))
  {
    hide PlanStep, Conclude;
  }

  // A rejected step is rejected before it writes anything; a torn one while it writes.
  lemma RejectedEarly(m: Machine, e: Env)
    ensures Step(m, e).Stop? ==> DecidedEarly(Step(m, e).status)
    ensures Step(m, e).Torn? ==> Step(m, e).status in {ErrorWriteMem, ErrorWriteFPU, ErrorWriteFlags, ErrorWriteReg}
  {
    hide PlanInst, Decoded, ApplyAll, FetchLength;
    StepCases(m, e);
    if PlanStep(m, e).Write? {
      TornStatus(e, PlanStep(m, e).updates);
    } else if Fetch(m, e).Some? && Decoded(Fetch(m, e).value, m.addr) {
      PlanCases(m, Fetch(m, e).value, e);
    }
  }

  lemma TrustedDecoder(m: Machine, bytes: seq<byte>)
    requires Trusted(m) && m.decode(bytes, m.addr).Some?
    ensures Decoded(m.decode(bytes, m.addr).value, m.addr)
  {
  }
}
