/**
 What the micro-executor works on: the user's machine state, and decoded instructions.

 The instruction decoder, the encoder and the host processor are parameters (Machine); Decoded says
 what the executor relies on XED to report about an instruction of each form.
 */
module Machine {
  import opened Bits
  import opened FlatMemory

  datatype AddrSize = A32 | A64

  function Bound(a: AddrSize): int {
    if a == A32 then B32 else B64
  }

  function AddrBytes(a: AddrSize): int {
    if a == A32 then 4 else 8
  }

  // Registers, numbered as XED numbers the 64-bit ones; each names the storage of all its aliases.
  type RegId = i: nat | i < 17
  const RAX: RegId := 0
  const RCX: RegId := 1
  const RDX: RegId := 2
  const RBX: RegId := 3
  const RSP: RegId := 4
  const RSI: RegId := 6
  const RDI: RegId := 7
  const RIP: RegId := 16
  const NUM_REGS: nat := 17

  type Regs = s: seq<Word> | |s| == NUM_REGS witness seq(NUM_REGS, _ => 0)

  datatype Reg = Reg(id: RegId, part: Part)

  datatype Flag = CF | PF | AF | ZF | SF | DF | OF

  const FLAG_ORDER: seq<Flag> := [CF, PF, AF, ZF, SF, DF, OF]

  const STATUS_FLAGS: set<Flag> := {CF, PF, AF, ZF, SF, OF}

  // The flags that are set.
  type Flags = set<Flag>

  function SetTo(flags: Flags, f: Flag, v: bool): Flags {
    if v then flags + {f} else flags - {f}
  }

  // Which requests the user's callbacks refuse. Memory refuses by its permissions.
  datatype Denials = Denials(readRegs: set<RegId>, writeRegs: set<RegId>,
                             readFlags: set<Flag>, writeFlags: set<Flag>, readFpu: bool, writeFpu: bool)

  // The state owned by the user. The FPU is an opaque blob.
  datatype Env = Env(regs: Regs, flags: Flags, mem: Flat, fpu: nat, deny: Denials)

  // The user's state but for memory.
  datatype Thread = Thread(regs: Regs, flags: Flags, fpu: nat, deny: Denials)

  function EnvOf(t: Thread, mem: Flat): Env {
    Env(t.regs, t.flags, mem, t.fpu, t.deny)
  }

  // Registers hold values of their own width.
  ghost predicate FitsMode(regs: Regs, a: AddrSize) {
    forall i: RegId :: regs[i] < Bound(a)
  }

  // Instructions

  datatype Cond = JO | JNO | JB | JNB | JZ | JNZ | JBE | JNBE | JS | JNS | JP | JNP | JL | JNL | JLE | JNLE

  function CondFlags(c: Cond): set<Flag> {
    match c
    case JO | JNO => {OF}
    case JB | JNB => {CF}
    case JZ | JNZ => {ZF}
    case JBE | JNBE => {CF, ZF}
    case JS | JNS => {SF}
    case JP | JNP => {PF}
    case JL | JNL => {SF, OF}
    case JLE | JNLE => {ZF, SF, OF}
  }

  datatype StrOp = Stos | Scas | Lods | Movs | Cmps

  datatype Rep = NoRep | RepAny | Repe | Repne

  // LOOP, LOOPE and LOOPNE.
  datatype LoopWhile = Counting | ZeroSet | ZeroClear

  datatype Form =
    | Lea
    | Jcc(cond: Cond)
    | Jrcxz(part: Part)
    | Loop(loopWhile: LoopWhile)
    | Xbegin  // always fails the transaction
    | JmpRel | JmpReg | JmpMem
    | CallRel | CallReg | CallMem
    | Ret | RetImm
    | Str(op: StrOp, rep: Rep)
    | PushReg | PushImm | PushMem | PopReg | PopMem
    | Leave
    | FarTransfer  // far CALL, RET, JMP, and XABORT, XEND: refused
    | WideStack    // PUSHA, POPA, ENTER: refused
    | Native       // everything the emulator leaves to the host

  datatype RegOperand = RegOperand(reg: Reg, written: bool, explicit: bool)

  datatype Width = W16 | W32 | W64

  function WidthBound(w: Width): int {
    match w
    case W16 => B16
    case W32 => B32
    case W64 => B64
  }

  datatype MemOperand = MemOperand(agen: bool, base: Option<Reg>, index: Option<Reg>, scale: Word, disp: Word,
                                   width: Width, size: nat, read: bool, conditional: bool, written: bool)

  datatype Inst = Inst(form: Form, length: nat, opBytes: int, regs: seq<RegOperand>, mems: seq<MemOperand>,
                       branchDisp: int, imm: int, readFlags: set<Flag>, writtenFlags: set<Flag>, mayWrite: bool,
                       nop: bool, unsupported: bool, usesFpu: bool)

  // Conditional writes to flags are implicit read dependencies.
  function ReadSet(inst: Inst): set<Flag> {
    if inst.mayWrite then inst.readFlags + inst.writtenFlags else inst.readFlags
  }

  // The request announced for a memory operand, so that writability is checked before anything happens.
  function HintOf(mo: MemOperand): MemHint {
    if mo.agen then AddressGeneration
    else if (mo.read || mo.conditional) && mo.written then ReadWrite
    else if mo.written then WriteOnly
    else ReadOnly
  }

  // The host executes an instruction on operand values: one per register operand, the memory
  // operand, the flags it depends on, and the FPU. It may raise a signal instead.
  datatype Status =
    | Good | NotInitialized | ErrorDecode | UnsupportedFeatures | UnsupportedCFI | UnsupportedStack
    | ErrorExecute | Fault | FloatingPointException
    | ErrorReadFlags | ErrorWriteFlags | ErrorReadReg | ErrorWriteReg
    | ErrorReadMem | ErrorReadInstMem | ErrorWriteMem | ErrorReadFPU | ErrorWriteFPU

  datatype Signal = Sigsegv | Sigbus | Sigfpe | Sigill | OtherSignal

  function StatusOf(sig: Signal): Status {
    match sig
    case Sigsegv | Sigbus => Fault
    case Sigfpe => FloatingPointException
    case Sigill | OtherSignal => ErrorExecute
  }

  datatype NativeIn = NativeIn(regs: seq<Word>, mem0: nat, flags: map<Flag, bool>, fpu: nat)

  datatype NativeOut =
    | Raised(signal: Signal)
    | Finished(regs: seq<Word>, mem0: nat, flags: Flags, fpu: nat)

  // shiftBit is the low bit of a word shifted right by 64 places or more, which C++ leaves open.
  datatype Machine = Machine(addr: AddrSize,
                             decode: (seq<byte>, AddrSize) -> Option<Inst>,
                             encodes: Inst -> bool,
                             native: (Inst, NativeIn) -> NativeOut,
                             shiftBit: (Word, nat) -> bool)

  predicate PartFits(r: Reg, a: AddrSize) {
    a == A32 ==> Narrow(r.part)
  }

  predicate FitsOperand(r: Option<Reg>, a: AddrSize) {
    r.Some? ==> PartFits(r.value, a)
  }

  // The registers that an instruction names: its register operands (all, or those it only reads, or
  // those it writes), and the bases and indices of its memory operands.
  function RegIds(ops: seq<RegOperand>): (ids: set<RegId>)
    ensures forall i :: 0 <= i < |ops| ==> ops[i].reg.id in ids
  {
    if ops == [] then {} else RegIds(ops[..|ops| - 1]) + {ops[|ops| - 1].reg.id}
  }

  function IdsWhere(ops: seq<RegOperand>, written: bool): (ids: set<RegId>)
    ensures forall i :: 0 <= i < |ops| && ops[i].written == written ==> ops[i].reg.id in ids
  {
    if ops == [] then {}
    else
      var last := ops[|ops| - 1];
      IdsWhere(ops[..|ops| - 1], written) + if last.written == written then {last.reg.id} else {}
  }

  lemma {:induction false} ReadAndWritten(ops: seq<RegOperand>)
    ensures RegIds(ops) == IdsWhere(ops, false) + IdsWhere(ops, true)
  {
    if ops != [] {
      ReadAndWritten(ops[..|ops| - 1]);
    }
  }

  function NamedBy(mo: MemOperand): set<RegId> {
    (if mo.base.Some? then {mo.base.value.id} else {}) + (if mo.index.Some? then {mo.index.value.id} else {})
  }

  function MemIds(mems: seq<MemOperand>): (ids: set<RegId>)
    ensures forall i :: 0 <= i < |mems| ==> NamedBy(mems[i]) <= ids
  {
    if mems == [] then {} else MemIds(mems[..|mems| - 1]) + NamedBy(mems[|mems| - 1])
  }

  function UsedIds(inst: Inst): set<RegId> {
    MemIds(inst.mems) + RegIds(inst.regs)
  }

  function WrittenIds(inst: Inst): set<RegId> {
    IdsWhere(inst.regs, true)
  }

  // A memory operand that carries data of at most 64 bits.
  predicate DataOperand(inst: Inst, i: nat) {
    i < |inst.mems| && !inst.mems[i].agen && inst.mems[i].size <= 8
  }

  predicate BasedOn(inst: Inst, i: nat, id: RegId) {
    DataOperand(inst, i) && inst.mems[i].base.Some? && inst.mems[i].base.value.id == id
  }

  predicate StringOperands(inst: Inst, op: StrOp) {
    match op
    case Stos => BasedOn(inst, 0, RDI) && |inst.regs| > 0
    case Scas => BasedOn(inst, 0, RDI) && |inst.regs| > 0 && inst.writtenFlags == STATUS_FLAGS
    case Lods => BasedOn(inst, 0, RSI) && |inst.regs| > 0 && inst.regs[0].written
    case Movs => BasedOn(inst, 0, RDI) && BasedOn(inst, 1, RSI)
    case Cmps => BasedOn(inst, 0, RSI) && BasedOn(inst, 1, RDI) && inst.writtenFlags == STATUS_FLAGS
  }

  predicate StringForm(op: StrOp, rep: Rep) {
    match op
    case Scas | Cmps => rep in {NoRep, Repe, Repne}
    case _ => rep in {NoRep, RepAny}
  }

  predicate ComparesStrings(f: Form) {
    f.Str? && f.op in {Scas, Cmps}
  }

  // The operands that XED reports for an instruction of a form.
  predicate FormOperands(inst: Inst, a: AddrSize) {
    match inst.form
    case Lea => |inst.mems| > 0 && inst.mems[0].agen && |inst.regs| > 0 && inst.regs[0].written
    case Jcc(c) => CondFlags(c) <= inst.readFlags
    case Jrcxz(p) => RCX in UsedIds(inst) && (a == A32 ==> Narrow(p))
    case Loop(w) => RCX in WrittenIds(inst) && (w != Counting ==> ZF in inst.readFlags)
    case Xbegin => RAX in WrittenIds(inst)
    case JmpRel => true
    case JmpReg => |inst.regs| > 0
    case JmpMem => DataOperand(inst, 0)
    case CallRel => DataOperand(inst, 0) && RSP in WrittenIds(inst)
    case CallReg => DataOperand(inst, 0) && RSP in WrittenIds(inst) && |inst.regs| > 0
    case CallMem => DataOperand(inst, 0) && DataOperand(inst, 1) && RSP in WrittenIds(inst)
    case Ret | RetImm => DataOperand(inst, 0) && RSP in WrittenIds(inst)
    case Str(op, rep) =>
      && StringForm(op, rep)
      && StringOperands(inst, op)
      && DF in inst.readFlags
      && (rep != NoRep ==> RCX in WrittenIds(inst))
      && (rep != NoRep && ComparesStrings(inst.form) ==> inst.mayWrite)
    case PushReg => DataOperand(inst, 0) && RSP in WrittenIds(inst) && |inst.regs| > 0
    case PushImm => DataOperand(inst, 0) && RSP in WrittenIds(inst)
    case PushMem => DataOperand(inst, 0) && DataOperand(inst, 1) && RSP in WrittenIds(inst)
    case PopReg => DataOperand(inst, 0) && RSP in WrittenIds(inst) && |inst.regs| > 0 && inst.regs[0].written
    case PopMem => DataOperand(inst, 0) && DataOperand(inst, 1) && RSP in WrittenIds(inst)
    case Leave => DataOperand(inst, 0) && |inst.regs| > 1 && inst.regs[0].written && inst.regs[1].written
    case FarTransfer | WideStack => true
    case Native => forall i :: 0 <= i < |inst.regs| ==>
      inst.regs[i].reg.id != RIP && (inst.regs[i].explicit || inst.regs[i].reg.id != RSP)
  }

  predicate Decoded(inst: Inst, a: AddrSize) {
    && 1 <= inst.length <= 15
    && inst.opBytes in {1, 2, 4, 8}
    && |inst.mems| <= 2
    && (forall i :: 0 <= i < |inst.regs| ==> PartFits(inst.regs[i].reg, a))
    && (forall i :: 0 <= i < |inst.mems| ==>
      && FitsOperand(inst.mems[i].base, a)
      && FitsOperand(inst.mems[i].index, a)
      && (inst.mems[i].agen ==> !inst.mems[i].written))
    && (inst.nop || !(ComparesStrings(inst.form) || inst.form.Native?) ==> inst.writtenFlags == {} || inst.mayWrite)
    && FormOperands(inst, a)
  }

  // The decoder reports only such instructions, and the host one value per register operand.
  ghost predicate Trusted(m: Machine) {
    && (forall bytes: seq<byte> :: m.decode(bytes, m.addr).Some? ==> Decoded(m.decode(bytes, m.addr).value, m.addr))
    && (forall inst, nin :: m.native(inst, nin).Finished? ==> |m.native(inst, nin).regs| == |inst.regs|)
  }
}
