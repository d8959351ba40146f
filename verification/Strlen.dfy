/** The string length idiom of examples/example_rep.py: repne scasb; not ecx; dec ecx. */
module Strlen {
  import opened Bits
  import opened Machine
  import opened Isa
  import opened Updates
  import opened StringWalk
  import opened CacheArithmetic
  import opened CompareRuns
  import opened StringSearch

  // A NUL-terminated string of `length` bytes at the destination pointer, all of it readable.
  ghost predicate StringAt(inst: Inst, e: Env, length: nat)
    requires Comparing(inst, Scas)
  {
    && (forall j: nat :: j <= length ==> ReadableAt(inst, e, Scas, j))
    && (forall j: nat :: j < length ==> Right(inst, e, Scas, j) != 0)
    && Right(inst, e, Scas, length) == 0
  }

  lemma SearchEnds(inst: Inst, e: Env, length: nat)
    requires Comparing(inst, Scas) && inst.form.rep == Repne && StringAt(inst, e, length)
    requires Get(e.regs, inst.regs[0].reg) == 0 && length < e.regs[RCX]
    ensures EndsAfter(inst, e, Scas, length + 1)
    ensures ReadableAt(inst, e, Scas, length) && SameElement(inst, e, Scas, length)
  {
    hide ReadableAt, Right, Get, StringShape;
    assert ReadableUpTo(inst, e, Scas, length + 1);
    forall j | 0 <= j < length
      ensures ReadableAt(inst, e, Scas, j) && GoesOn(inst, e, Scas, j)
    {
      LeftIs(inst, e, j);
    }
    LeftIs(inst, e, length);
  }

  lemma LeftIs(inst: Inst, e: Env, j: nat)
    requires Comparing(inst, Scas) && ReadableAt(inst, e, Scas, j)
    ensures Left(inst, e, Scas, j) == Get(e.regs, inst.regs[0].reg)
  {
  }

  // Scanning for zero from a count of -1 takes one step a byte, and leaves -1 minus the number of
  // bytes scanned.
  lemma ScanForNul(m: Machine, e: Env, inst: Inst, length: nat) returns (e': Env)
    requires Fetched(m, e, inst) && Comparing(inst, Scas) && inst.form.rep == Repne && FitsMode(e.regs, m.addr)
    requires Get(e.regs, inst.regs[0].reg) == 0 && e.regs[RCX] == Bound(m.addr) - 1
    requires StringAt(inst, e, length) && length < Bound(m.addr) - 1
    ensures Run(m, e, length + 1) == Completed(e') && LeftBy(m, inst, e, Scas, length + 1, e')
    ensures ZF in e'.flags
    ensures e'.regs[RCX] == Bound(m.addr) - 1 - (length + 1)
  {
    hide Fetched, Step, Comparing, StringShape, ReadableAt, FitsMode, Left, Right, Run, NextPC, StringAt, EndsAfter;
    hide WalkRegs;
    SearchEnds(inst, e, length);
    e' := RepneScasFinds(m, e, inst, length + 1);
  }

  // A native instruction on one whole register and nothing else.
  predicate OnRegister(inst: Inst, r: Reg) {
    && inst.form.Native? && inst.regs == [RegOperand(r, true, true)] && inst.mems == [] && r.id !in {RSP, RIP}
    && !inst.nop && !inst.unsupported && !inst.usesFpu
  }

  lemma OneOperand(regs: Regs, r: Reg, a: AddrSize, v: Word)
    ensures OperandValues(regs, [RegOperand(r, true, true)]) == [Get(regs, r)]
    ensures PutResults(a, regs, [RegOperand(r, true, true)], [v]) == Put(a, regs, r, v)
  {
    var ops := [RegOperand(r, true, true)];
    assert ops[..0] == [] && [v][..0] == [];
    assert PutResults(a, regs, ops[..0], [v][..0]) == regs;
  }

  lemma OnRegisterReference(m: Machine, e: Env, inst: Inst, r: Reg, flags: Flags, fpu: nat, v: Word)
    requires Decoded(inst, m.addr) && OnRegister(inst, r) && m.encodes(inst) && OperandsReadable(inst, e)
    requires m.native(inst, NativeIn([Get(e.regs, r)], 0, ReadFlagValues(inst, e.flags), 0))
      == Finished([v], 0, flags, fpu)
    ensures Reference(m, inst, e) ==
      Next(State(Put(m.addr, e.regs, r, v), MergeFlags(e.flags, flags, inst.writtenFlags), 0, 0, 0), NextPC(m, inst, e))
  {
    hide Put, Slice, MergeFlags, Decoded, NextPC, PutResults, OperandValues, Get, ReadFlagValues;
    OneOperand(e.regs, r, m.addr, v);
  }

  lemma OnRegisterStep(m: Machine, e: Env, inst: Inst, r: Reg, flags: Flags, fpu: nat, v: Word)
    requires Fetched(m, e, inst) && OnRegister(inst, r) && m.encodes(inst)
    requires m.native(inst, NativeIn([Get(e.regs, r)], 0, ReadFlagValues(inst, e.flags), 0))
      == Finished([v], 0, flags, fpu)
    ensures Step(m, e) == Done(e.(regs := Put(m.addr, e.regs, r, v)[RIP := NextPC(m, inst, e)],
                                  flags := MergeFlags(e.flags, flags, inst.writtenFlags)))
  {
    hide Put, Step, Reference, MergeFlags, Decoded, NextPC, Get, ReadFlagValues, RegsReadable;
    assert OperandsReadable(inst, e);
    OnRegisterReference(m, e, inst, r, flags, fpu, v);
    FetchedStep(m, e, inst);
  }

  // The host computes f on the register, whatever the flags.
  ghost predicate Computes(m: Machine, inst: Inst, f: Word -> Word) {
    m.encodes(inst) && forall x: Word, fl: map<Flag, bool> ::
      m.native(inst, NativeIn([x], 0, fl, 0)).Finished? && m.native(inst, NativeIn([x], 0, fl, 0)).regs == [f(x)]
      && m.native(inst, NativeIn([x], 0, fl, 0)).mem0 == 0
  }

  function Complement(a: AddrSize): Word -> Word {
    x => Wrap(a, Bound(a) - 1 - x)
  }

  function Decrement(a: AddrSize): Word -> Word {
    x => Wrap(a, (x as int) - 1)
  }

  lemma ComplementIs(a: AddrSize, x: Word)
    requires x < Bound(a)
    ensures Complement(a)(x) == Bound(a) - 1 - x
  {
    var y := Bound(a) - 1 - x;
    DivModUnique(y, Bound(a), 0, y);
    assert Complement(a)(x) == Wrap(a, y);
  }

  lemma DecrementIs(a: AddrSize, x: Word)
    requires 0 < x < Bound(a)
    ensures Decrement(a)(x) == x - 1
  {
    DivModUnique(x - 1, Bound(a), 0, x - 1);
    assert Decrement(a)(x) == Wrap(a, x - 1);
  }

  lemma ComputesStep(m: Machine, e: Env, inst: Inst, f: Word -> Word) returns (e': Env)
    requires Fetched(m, e, inst) && OnRegister(inst, WidestOf(m.addr, RCX)) && Computes(m, inst, f)
    requires e.regs[RCX] < Bound(m.addr) && f(e.regs[RCX]) < Bound(m.addr)
    ensures Step(m, e) == Done(e') && e' == e.(regs := e'.regs, flags := e'.flags)
    ensures e'.regs == e.regs[RCX := f(e.regs[RCX])][RIP := NextPC(m, inst, e)]
  {
    hide Put, Step, MergeFlags, NextPC, Get, ReadFlagValues, Fetched, Slice, Bound;
    var r, x := WidestOf(m.addr, RCX), e.regs[RCX];
    WholeRegister(m.addr, e.regs, RCX);
    WholeRegisterWrite(m.addr, e.regs, RCX, f(x));
    var out := m.native(inst, NativeIn([x], 0, ReadFlagValues(inst, e.flags), 0));
    OnRegisterStep(m, e, inst, r, out.flags, out.fpu, f(x));
    e' := e.(regs := Put(m.addr, e.regs, r, f(x))[RIP := NextPC(m, inst, e)],
             flags := MergeFlags(e.flags, out.flags, inst.writtenFlags));
  }

  // The idiom leaves the length of the string in ECX, after length + 3 steps, for every string shorter
  // than the largest count.
  lemma StringLength(m: Machine, e: Env, scas: Inst, complement: Inst, dec: Inst, length: nat) returns (e': Env)
    requires Fetched(m, e, scas) && Comparing(scas, Scas) && scas.form.rep == Repne && FitsMode(e.regs, m.addr)
    requires Get(e.regs, scas.regs[0].reg) == 0 && e.regs[RCX] == Bound(m.addr) - 1
    requires StringAt(scas, e, length) && length < Bound(m.addr) - 1
    requires OnRegister(complement, WidestOf(m.addr, RCX)) && Computes(m, complement, Complement(m.addr))
    requires OnRegister(dec, WidestOf(m.addr, RCX)) && Computes(m, dec, Decrement(m.addr))
    requires var e1 := MovedTo(e, NextPC(m, scas, e));
      Fetched(m, e1, complement) && Fetched(m, MovedTo(e, NextPC(m, complement, e1)), dec)
    ensures Run(m, e, length + 3) == Completed(e')
    ensures e'.regs[RCX] == length && e'.mem == e.mem
  {
    hide Fetched, Step, Comparing, StringShape, FitsMode, Run, StringAt, WalkRegs, Get, Computes, NextPC, OnRegister;
    hide Complement, Decrement, Bound;
    var e1 := ScanForNul(m, e, scas, length);
    ComplementIs(m.addr, e1.regs[RCX]);
    DecrementIs(m.addr, length + 1);
    var pc1 := NextPC(m, scas, e);
    SameFetch(m, MovedTo(e, pc1), e1, complement);
    var e2 := ComputesStep(m, e1, complement, Complement(m.addr));
    RunOneMore(m, e, length + 1);
    NextPcSame(m, complement, MovedTo(e, pc1), e1);
    SameFetch(m, MovedTo(e, NextPC(m, complement, MovedTo(e, pc1))), e2, dec);
    e' := ComputesStep(m, e2, dec, Decrement(m.addr));
    RunOneMore(m, e, length + 2);
  }
}
