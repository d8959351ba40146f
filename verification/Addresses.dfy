/**
 Where memory operands lie, in numbers: base, index times scale, displacement and, relative to the program counter,
 the length of the instruction; and with that, LEA, tables and elements of arrays.
 */
module Addresses {
  import opened Bits
  import opened FlatMemory
  import opened Machine
  import opened Isa
  import opened Updates
  import opened SubRegisters
  import opened StringWalk
  import opened Branches

  function ValueOf(regs: Regs, r: Option<Reg>): nat {
    if r == None then 0 else Get(regs, r.value)
  }

  // The parts of an operand's address (section 3.7.5 of the SDM).
  function Parts(inst: Inst, mo: MemOperand, regs: Regs): int {
    var ahead := if mo.base.Some? && mo.base.value.id == RIP then inst.length else 0;
    ValueOf(regs, mo.base) + ValueOf(regs, mo.index) * mo.scale + mo.disp + ahead
  }

  // The linear address, modulo its width.
  function Linear(inst: Inst, mo: MemOperand, regs: Regs): nat {
    Parts(inst, mo, regs) % WidthBound(mo.width)
  }

  // The forms whose operands lie where they say, and not at a stack pointer that moves.
  predicate Unadjusted(f: Form) {
    f.Native? || f.Lea? || f.JmpMem? || f.Str? || f.Leave? || f.Ret? || f.RetImm? || f.PopReg?
  }

  lemma LinearAddress(inst: Inst, i: nat, regs: Regs)
    requires i < |inst.mems| && Unadjusted(inst.form)
    ensures AddressOf(inst, i, regs) == Linear(inst, inst.mems[i], regs)
  {
    hide Slice;
    var mo := inst.mems[i];
    assert ValueOf(regs, mo.index) == OptGet(regs, mo.index);
  }

  // Element k of an array at p: base and index name them, and the scale is the element's size.
  predicate ElementOf(mo: MemOperand, regs: Regs, p: nat, k: nat) {
    && mo.base.Some? && mo.base.value.id != RIP && mo.index.Some? && mo.scale == mo.size && mo.disp == 0
    && Get(regs, mo.base.value) == p && Get(regs, mo.index.value) == k
    && p + k * mo.size + mo.size <= WidthBound(mo.width) && mo.size > 0
  }

  lemma ElementAddress(inst: Inst, mo: MemOperand, regs: Regs, p: nat, k: nat)
    requires ElementOf(mo, regs, p, k)
    ensures Linear(inst, mo, regs) == p + k * mo.size
  {
    hide Slice;
    var a := p + k * mo.size;
    assert ValueOf(regs, mo.base) + ValueOf(regs, mo.index) * mo.scale + mo.disp == a;
    DivModUnique(a, WidthBound(mo.width), 0, a);
  }

  // LEA leaves the address in its destination, and touches nothing else.
  ghost predicate AddressLoaded(m: Machine, e: Env, inst: Inst, after: Env)
    requires |inst.mems| == 1 && |inst.regs| > 0
  {
    var r := inst.regs[0].reg;
    && Get(after.regs, r) == Linear(inst, inst.mems[0], e.regs) % PartBound(r.part)
    && after.regs[RIP] == Behind(m, e, inst) && after == e.(regs := after.regs)
    && forall id: RegId :: id !in {r.id, RIP} ==> after.regs[id] == e.regs[id]
  }

  lemma LeaStep(m: Machine, e: Env, inst: Inst)
    requires Fetched(m, e, inst) && inst.form.Lea? && !inst.nop && !inst.usesFpu && |inst.mems| == 1
      && Step(m, e).Done?
    requires |inst.regs| > 0 && inst.regs[0].reg.id != RIP
    ensures AddressLoaded(m, e, inst, Step(m, e).env)
  {
    hide Step, AddressOf, Linear, OperandsReadable, Slice, Splice, NextPC, WidthBound, PartBound, Behind;
    GrantedStep(m, e, inst);
    LeaReference(m, e, inst);
    LinearAddress(inst, 0, e.regs);
    PutGets(m.addr, e.regs, inst.regs[0].reg, AddressOf(inst, 0, e.regs));
    NoneWritten(m, e, inst, Reference(m, inst, e).s, Reference(m, inst, e).pc);
  }

  lemma LeaReference(m: Machine, e: Env, inst: Inst)
    requires Decoded(inst, m.addr) && inst.form.Lea? && OperandsReadable(inst, e)
    ensures |inst.mems| > 0 && |inst.regs| > 0 && PartFits(inst.regs[0].reg, m.addr) && !inst.mems[0].written
    ensures Reference(m, inst, e) ==
      Next(LoadState(inst, e).(regs := Put(m.addr, e.regs, inst.regs[0].reg, AddressOf(inst, 0, e.regs))),
           Behind(m, e, inst))
  {
    hide AddressOf, Put, MemValue;
  }

  lemma PutGets(a: AddrSize, regs: Regs, r: Reg, v: Word)
    requires PartFits(r, a)
    ensures Get(Put(a, regs, r, v), r) == v % PartBound(r.part)
  {
    hide Slice, Splice;
    var whole := Splice(regs[r.id], r.part, v);
    SpliceTruncates(regs[r.id], r.part, v);
    SliceOfSplice(regs[r.id], r.part, v % PartBound(r.part));
    if Narrow(r.part) {
      SliceOfLowHalf(whole, r.part);
    }
  }

  lemma SpliceTruncates(v: Word, p: Part, x: Word)
    ensures Splice(v, p, x) == Splice(v, p, x % PartBound(p))
  {
    match p {
      case Low8 | High8 => ModTwice(x, B8);
      case Low16 => ModTwice(x, B16);
      case Low32 => ModTwice(x, B32);
      case Full64 =>
    }
  }

  lemma ModTwice(x: nat, b: nat)
    requires b > 0
    ensures x % b % b == x % b
  {
    DivModUnique(x % b, b, 0, x % b);
  }

  // Only the program counter has changed, to the value of n bytes in memory.
  ghost predicate WentTo(m: Machine, e: Env, at: int, n: nat, after: Env) {
    Mapped(e.mem, at, n) && after == MovedTo(e, ValueAt(e.mem, at, n) % Bound(m.addr))
  }

  // A jump through memory goes to the value there.
  lemma JmpMemStep(m: Machine, e: Env, inst: Inst)
    requires Fetched(m, e, inst) && inst.form.JmpMem? && !inst.nop && !inst.usesFpu && Step(m, e).Done?
    requires |inst.mems| == 1 && !inst.mems[0].written
    ensures WentTo(m, e, Linear(inst, inst.mems[0], e.regs), inst.mems[0].size, Step(m, e).env)
  {
    hide Step, AddressOf, Linear, NextPC, ValueAt, Bound;
    GrantedStep(m, e, inst);
    LinearAddress(inst, 0, e.regs);
    MemHolds(inst, e, 0);
    JmpMemReference(m, e, inst);
    NoneWritten(m, e, inst, Reference(m, inst, e).s, Reference(m, inst, e).pc);
  }

  lemma JmpMemReference(m: Machine, e: Env, inst: Inst)
    requires Decoded(inst, m.addr) && inst.form.JmpMem? && OperandsReadable(inst, e)
    ensures Reference(m, inst, e) == Next(LoadState(inst, e), MemValue(inst, e, 0) % Bound(m.addr))
  {
    hide AddressOf, MemValue, Pow256, Low, Behind;
    MemValueBound(inst, e, 0);
    LowIs(MemValue(inst, e, 0));
  }

  lemma LowIs(v: nat)
    requires v < B64
    ensures Low(v) == v
  {
  }

  // Without a written operand memory stays.
  lemma NoneWritten(m: Machine, e: Env, inst: Inst, s: State, pc: Word)
    requires Decoded(inst, m.addr) && OperandsReadable(inst, e) && !inst.usesFpu
    requires forall i :: 0 <= i < |inst.mems| ==> !inst.mems[i].written
    ensures Commit(m, inst, e, s, pc) == e.(regs := s.regs[RIP := pc], flags := s.flags)
  {
    hide AddressOf, Decoded, OperandsReadable;
  }

  // If only the first is written, it goes back.
  lemma FirstWritten(m: Machine, e: Env, inst: Inst, s: State, pc: Word)
    requires Decoded(inst, m.addr) && OperandsReadable(inst, e) && |inst.mems| > 0 && inst.mems[0].written
    requires (|inst.mems| > 1 ==> !inst.mems[1].written) && !inst.usesFpu
    ensures Mapped(e.mem, AddressOf(inst, 0, e.regs), inst.mems[0].size)
    ensures Commit(m, inst, e, s, pc) ==
      e.(regs := s.regs[RIP := pc], flags := s.flags,
         mem := StoreValue(e.mem, AddressOf(inst, 0, e.regs), inst.mems[0].size, s.mem0))
  {
    hide AddressOf, StoreValue, Decoded, OperandsReadable;
    WrittenIsMapped(inst, e, 0, m.addr);
  }

  // What an operand that is data holds.
  lemma MemHolds(inst: Inst, e: Env, i: nat)
    requires OperandsReadable(inst, e) && i < |inst.mems| && !inst.mems[i].agen
    ensures
      var at, n := AddressOf(inst, i, e.regs), inst.mems[i].size;
      MemReadable(inst, e, i) && Mapped(e.mem, at, n) && MemValue(inst, e, i) == ValueAt(e.mem, at, n)
  {
    hide AddressOf;
    assert MemReadable(inst, e, i);
  }

  // A jump through entry k of a table at p.
  lemma TableJump(m: Machine, e: Env, inst: Inst, p: nat, k: nat)
    requires Fetched(m, e, inst) && inst.form.JmpMem? && !inst.nop && !inst.usesFpu && Step(m, e).Done?
    requires |inst.mems| == 1 && !inst.mems[0].written && ElementOf(inst.mems[0], e.regs, p, k)
    ensures WentTo(m, e, p + k * inst.mems[0].size, inst.mems[0].size, Step(m, e).env)
  {
    hide Step, Fetched, ElementOf, Linear, ValueAt, Bound;
    ElementAddress(inst, inst.mems[0], e.regs, p, k);
    JmpMemStep(m, e, inst);
  }
}
