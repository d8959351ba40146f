/**
 What an instruction can see and change: its outcome depends only on the registers and flags it
 is reported to use, and it changes only those it is reported to write. This is what lets the
 executor work on a cache that holds arbitrary leftovers everywhere else.
 */
module Locality {
  import opened Bits
  import opened FlatMemory
  import opened Machine
  import opened Isa
  import opened Updates

  // Every register the instruction names is in u.
  ghost predicate Covers(inst: Inst, u: set<RegId>) {
    UsedIds(inst) <= u
  }

  ghost predicate AgreeRegs(s: Regs, t: Regs, u: set<RegId>) {
    forall i: RegId :: i in u ==> s[i] == t[i]
  }

  lemma AgreeReflexive(s: Regs, u: set<RegId>)
    ensures AgreeRegs(s, s, u)
  {
  }

  lemma AgreeSymmetric(s: Regs, t: Regs, u: set<RegId>)
    requires AgreeRegs(s, t, u)
    ensures AgreeRegs(t, s, u)
  {
  }

  ghost predicate Agree(s: State, t: State, u: set<RegId>, f: set<Flag>) {
    && AgreeRegs(s.regs, t.regs, u)
    && AgreeFlags(s.flags, t.flags, f)
    && s.mem0 == t.mem0 && s.mem1 == t.mem1 && s.fpu == t.fpu
  }

  ghost predicate AgreeOutcome(o: Outcome, p: Outcome, u: set<RegId>, f: set<Flag>) {
    match (o, p)
    case (Halt(st), Halt(st')) => st == st'
    case (Next(s, pc), Next(t, pc')) => pc == pc' && Agree(s, t, u, f)
    case _ => false
  }

  lemma AgreeChain(aliased: State, loaded: State, user: State, u: set<RegId>, f: set<Flag>)
    requires Agree(loaded, user, u, f) && AgreeRegs(aliased.regs, loaded.regs, u)
    requires aliased == loaded.(regs := aliased.regs)
    ensures Agree(user, aliased, u, f)
  {
  }

  lemma UsedCovers(inst: Inst, u: set<RegId>)
    requires u == {RIP} + UsedIds(inst)
    ensures Covers(inst, u)
  {
  }

  lemma HaltsTogether(m: Machine, inst: Inst, e: Env, status: Status, u: set<RegId>, f: set<Flag>)
    requires Decoded(inst, m.addr) && OperandsReadable(inst, e)
    requires AgreeOutcome(Reference(m, inst, e), Halt(status), u, f)
    ensures Reference(m, inst, e) == Halt(status) && DecidedEarly(status)
  {
    hide AddressOf, StringStep, CallOrReturn, PushOrPop, JumpTarget, PutResults, LoadState, Encodable;
  }

  lemma NextTogether(o: Outcome, p: Outcome, u: set<RegId>, f: set<Flag>)
    requires AgreeOutcome(o, p, u, f) && p.Next?
    ensures o.Next?
  {
  }

  lemma OutcomeTransitive(o: Outcome, p: Outcome, q: Outcome, u: set<RegId>, f: set<Flag>)
    requires AgreeOutcome(o, p, u, f) && AgreeOutcome(p, q, u, f)
    ensures AgreeOutcome(o, q, u, f)
  {
  }

  lemma AddressLocal(inst: Inst, i: nat, s: Regs, t: Regs, u: set<RegId>)
    requires i < |inst.mems| && Covers(inst, u) && AgreeRegs(s, t, u)
    ensures AddressOf(inst, i, s) == AddressOf(inst, i, t)
  {
    var mo := inst.mems[i];
    assert NamedBy(mo) <= u;
    assert OptGet(s, mo.base) == OptGet(t, mo.base);
    assert OptGet(s, mo.index) == OptGet(t, mo.index);
  }

  ghost predicate AgreeFlags(f: Flags, g: Flags, which: set<Flag>) {
    forall x :: x in which ==> (x in f <==> x in g)
  }

  lemma CompareLocal(m: Machine, f: Flags, g: Flags, lhs: Word, rhs: Word, opBytes: int, r: set<Flag>)
    requires opBytes in {1, 2, 4, 8} && AgreeFlags(f, g, r)
    ensures AgreeFlags(CompareFlags(m, f, lhs, rhs, opBytes), CompareFlags(m, g, lhs, rhs, opBytes), r + STATUS_FLAGS)
  {
    hide ParityFlag;
  }

  lemma BumpLocal(a: AddrSize, s: Regs, t: Regs, u: set<RegId>, id: RegId, amount: int)
    requires AgreeRegs(s, t, u) && id in u
    ensures AgreeRegs(Bump(a, s, id, amount), Bump(a, t, id, amount), u)
  {
    hide Wrap;
  }

  lemma PutLocal(a: AddrSize, s: Regs, t: Regs, u: set<RegId>, r: Reg, v: Word)
    requires AgreeRegs(s, t, u) && r.id in u
    ensures AgreeRegs(Put(a, s, r, v), Put(a, t, r, v), u)
  {
    hide Wrap, Splice;
  }

  lemma PointersUsed(inst: Inst, op: StrOp)
    requires StringOperands(inst, op)
    ensures StringPointers(op) <= UsedIds(inst)
    ensures op in {Stos, Scas, Lods} ==> inst.regs[0].reg.id in UsedIds(inst)
  {
    assert NamedBy(inst.mems[0]) <= MemIds(inst.mems);
    if op in {Movs, Cmps} {
      assert NamedBy(inst.mems[1]) <= MemIds(inst.mems);
    }
  }

  lemma PointersLocal(a: AddrSize, s: Regs, t: Regs, u: set<RegId>, inc: int)
    requires AgreeRegs(s, t, u) && RSI in u && RDI in u
    ensures AgreeRegs(Bump(a, Bump(a, s, RSI, inc), RDI, inc), Bump(a, Bump(a, t, RSI, inc), RDI, inc), u)
  {
    hide Bump;
    BumpLocal(a, s, t, u, RSI, inc);
    BumpLocal(a, Bump(a, s, RSI, inc), Bump(a, t, RSI, inc), u, RDI, inc);
  }

  lemma ElementLocal(m: Machine, inst: Inst, op: StrOp, s: State, t: State, u: set<RegId>)
    requires Decoded(inst, m.addr) && StringOperands(inst, op) && Covers(inst, u)
    requires Agree(s, t, u, ReadSet(inst)) && DF in ReadSet(inst)
    requires op in {Scas, Cmps} || inst.writtenFlags == {} || inst.mayWrite
    ensures Agree(Element(m, inst, op, s), Element(m, inst, op, t), u, ReadSet(inst) + inst.writtenFlags)
  {
    assert DF in s.flags <==> DF in t.flags;
    PointersUsed(inst, op);
    assert inst.opBytes in {1, 2, 4, 8};
    hide UsedIds, Slice, Put, Bump, CompareFlags, Decoded, AgreeRegs;
    var a, inc := m.addr, Stride(inst, s.flags);
    if op !in {Scas, Cmps} {
      assert AgreeFlags(s.flags, t.flags, ReadSet(inst) + inst.writtenFlags);
    }
    hide AgreeFlags, Stride;
    match op {
      case Stos =>
        SameRegister(s.regs, t.regs, u, inst.regs[0].reg.id);
        BumpLocal(a, s.regs, t.regs, u, RDI, inc);
      case Lods =>
        var r, v := inst.regs[0].reg, Low(s.mem0);
        PutLocal(a, s.regs, t.regs, u, r, v);
        BumpLocal(a, Put(a, s.regs, r, v), Put(a, t.regs, r, v), u, RSI, inc);
      case Movs => PointersLocal(a, s.regs, t.regs, u, inc);
      case Scas =>
        SameRegister(s.regs, t.regs, u, inst.regs[0].reg.id);
        BumpLocal(a, s.regs, t.regs, u, RDI, inc);
        CompareLocal(m, s.flags, t.flags, Get(s.regs, inst.regs[0].reg), Low(s.mem0), inst.opBytes, ReadSet(inst));
      case Cmps =>
        PointersLocal(a, s.regs, t.regs, u, inc);
        CompareLocal(m, s.flags, t.flags, Low(s.mem0), Low(s.mem1), inst.opBytes, ReadSet(inst));
    }
  }

  lemma StringLocal(m: Machine, inst: Inst, op: StrOp, rep: Rep, s: State, t: State, u: set<RegId>, cur: Word,
                    next: Word)
    requires Decoded(inst, m.addr) && inst.form == Str(op, rep) && !inst.nop && Covers(inst, u)
    requires Agree(s, t, u, ReadSet(inst))
    ensures AgreeOutcome(StringStep(m, inst, op, rep, s, cur, next), StringStep(m, inst, op, rep, t, cur, next),
                         u, ReadSet(inst) + inst.writtenFlags)
  {
    hide Element;
    ElementLocal(m, inst, op, s, t, u);
    if rep != NoRep {
      ReadAndWritten(inst.regs);
      assert RCX in u;
      if s.regs[RCX] != 0 {
        var x, y := Element(m, inst, op, s), Element(m, inst, op, t);
        if rep in {Repe, Repne} {
          assert ZF in x.flags <==> ZF in y.flags;
        }
      }
    }
  }

  lemma CondLocal(c: Cond, f: Flags, g: Flags)
    requires forall x :: x in CondFlags(c) ==> (x in f <==> x in g)
    ensures CondHolds(c, f) == CondHolds(c, g)
  {
  }

  lemma PushPopLocal(m: Machine, inst: Inst, s: State, t: State, u: set<RegId>)
    requires Decoded(inst, m.addr) && MovesStack(inst.form) && Covers(inst, u) && Agree(s, t, u, ReadSet(inst))
    ensures Agree(PushOrPop(m, inst, s), PushOrPop(m, inst, t), u, ReadSet(inst))
  {
    hide Slice, Put, Bump, Wrap, AgreeRegs;
    ReadAndWritten(inst.regs);
    var a := m.addr;
    match inst.form {
      case PushReg =>
        SameRegister(s.regs, t.regs, u, inst.regs[0].reg.id);
        BumpLocal(a, s.regs, t.regs, u, RSP, -inst.opBytes);
      case PushImm => BumpLocal(a, s.regs, t.regs, u, RSP, -inst.opBytes);
      case PushMem => BumpLocal(a, s.regs, t.regs, u, RSP, -inst.opBytes);
      case PopReg =>
        var r, v := inst.regs[0].reg, Low(s.mem0);
        PutLocal(a, s.regs, t.regs, u, r, v);
        BumpLocal(a, Put(a, s.regs, r, v), Put(a, t.regs, r, v), u, RSP, inst.opBytes);
      case PopMem => BumpLocal(a, s.regs, t.regs, u, RSP, inst.opBytes);
    }
  }

  lemma TransferLocal(m: Machine, inst: Inst, s: State, t: State, u: set<RegId>, next: Word)
    requires Decoded(inst, m.addr) && Transfers(inst.form) && Covers(inst, u) && Agree(s, t, u, ReadSet(inst))
    ensures AgreeOutcome(CallOrReturn(m, inst, s, next), CallOrReturn(m, inst, t, next), u, ReadSet(inst))
  {
    hide Slice, Put, Bump, Wrap, AgreeRegs, Target;
    ReadAndWritten(inst.regs);
    var a := m.addr;
    match inst.form {
      case CallRel | CallMem => BumpLocal(a, s.regs, t.regs, u, RSP, -AddrBytes(a));
      case CallReg =>
        SameRegister(s.regs, t.regs, u, inst.regs[0].reg.id);
        BumpLocal(a, s.regs, t.regs, u, RSP, -AddrBytes(a));
      case Ret => BumpLocal(a, s.regs, t.regs, u, RSP, AddrBytes(a));
      case RetImm => BumpLocal(a, s.regs, t.regs, u, RSP, AddrBytes(a) + Immediate16(inst));
    }
  }

  lemma WrittenFlagsRead(inst: Inst, a: AddrSize)
    requires Decoded(inst, a) && Emulated(inst.form) && !inst.nop && !ComparesStrings(inst.form)
    ensures ReadSet(inst) + inst.writtenFlags == ReadSet(inst) && inst.readFlags <= ReadSet(inst)
  {
  }

  lemma EmulateLocal(m: Machine, inst: Inst, s: State, t: State, u: set<RegId>, address0: Word, cur: Word, next: Word)
    requires Decoded(inst, m.addr) && Emulated(inst.form) && !inst.nop && Covers(inst, u)
    requires Agree(s, t, u, ReadSet(inst))
    ensures AgreeOutcome(Emulate(m, inst, s, address0, cur, next), Emulate(m, inst, t, address0, cur, next),
                         u, ReadSet(inst) + inst.writtenFlags)
  {
    hide StringStep, Slice, Put, Bump, Wrap, AgreeRegs, PushOrPop, CallOrReturn, Target, CondHolds, ReadSet;
    if !ComparesStrings(inst.form) {
      WrittenFlagsRead(inst, m.addr);
    }
    ReadAndWritten(inst.regs);
    var a := m.addr;
    match inst.form {
      case Str(op, rep) => StringLocal(m, inst, op, rep, s, t, u, cur, next);
      case Jcc(c) => CondLocal(c, s.flags, t.flags);
      case Jrcxz(_) => SameRegister(s.regs, t.regs, u, RCX);
      case JmpReg => SameRegister(s.regs, t.regs, u, inst.regs[0].reg.id);
      case CallRel | CallReg | CallMem | Ret | RetImm => TransferLocal(m, inst, s, t, u, next);
      case Loop(_) =>
        SameRegister(s.regs, t.regs, u, RCX);
        BumpLocal(a, s.regs, t.regs, u, RCX, -1);
      case Xbegin => PutWholeLocal(s.regs, t.regs, u, RAX, 8);
      case Leave =>
        var r0, r1, v := inst.regs[0].reg, inst.regs[1].reg, Low(s.mem0);
        SameRegister(s.regs, t.regs, u, r0.id);
        PutLocal(a, s.regs, t.regs, u, r1, Get(s.regs, r0));
        PutLocal(a, Put(a, s.regs, r1, Get(s.regs, r0)), Put(a, t.regs, r1, Get(s.regs, r0)), u, r0, v);
      case PushReg | PushImm | PushMem | PopReg | PopMem => PushPopLocal(m, inst, s, t, u);
      case Lea => PutLocal(a, s.regs, t.regs, u, inst.regs[0].reg, address0);
      case JmpRel | JmpMem | FarTransfer | WideStack =>
    }
  }

  lemma PutWholeLocal(s: Regs, t: Regs, u: set<RegId>, id: RegId, v: Word)
    requires AgreeRegs(s, t, u)
    ensures AgreeRegs(s[id := v], t[id := v], u)
  {
  }

  lemma SameRegister(s: Regs, t: Regs, u: set<RegId>, id: RegId)
    requires AgreeRegs(s, t, u) && id in u
    ensures s[id] == t[id]
  {
  }

  lemma {:induction false} ValuesLocal(ops: seq<RegOperand>, s: Regs, t: Regs, u: set<RegId>)
    requires forall i :: 0 <= i < |ops| ==> ops[i].reg.id in u
    requires AgreeRegs(s, t, u)
    ensures OperandValues(s, ops) == OperandValues(t, ops)
  {
    if ops != [] {
      ValuesLocal(ops[..|ops| - 1], s, t, u);
    }
  }

  lemma {:induction false} ResultsLocal(a: AddrSize, ops: seq<RegOperand>, vs: seq<Word>, s: Regs, t: Regs,
                                        u: set<RegId>)
    requires |vs| == |ops| && forall i :: 0 <= i < |ops| ==> ops[i].reg.id in u
    requires AgreeRegs(s, t, u)
    ensures AgreeRegs(PutResults(a, s, ops, vs), PutResults(a, t, ops, vs), u)
  {
    if ops != [] {
      ResultsLocal(a, ops[..|ops| - 1], vs[..|ops| - 1], s, t, u);
    }
  }

  lemma NativeLocal(m: Machine, inst: Inst, s: State, t: State, u: set<RegId>, next: Word)
    requires Decoded(inst, m.addr) && Covers(inst, u) && Agree(s, t, u, ReadSet(inst))
    ensures AgreeOutcome(RunNative(m, inst, s, next), RunNative(m, inst, t, next), u, ReadSet(inst) + inst.writtenFlags)
  {
    ValuesLocal(inst.regs, s.regs, t.regs, u);
    assert ReadFlagValues(inst, s.flags) == ReadFlagValues(inst, t.flags);
    var nin := NativeIn(OperandValues(s.regs, inst.regs), s.mem0, ReadFlagValues(inst, s.flags), s.fpu);
    var out := m.native(inst, nin);
    if Encodable(m, inst) && out.Finished? && |out.regs| == |inst.regs| {
      ResultsLocal(m.addr, inst.regs, out.regs, s.regs, t.regs, u);
    }
  }

  // Non-interference: states that agree on what the instruction uses give the same outcome there.
  lemma TransformLocal(m: Machine, inst: Inst, s: State, t: State, u: set<RegId>, cur: Word, next: Word)
    requires Decoded(inst, m.addr) && !inst.nop && Covers(inst, u)
    requires Agree(s, t, u, ReadSet(inst))
    ensures AgreeOutcome(Transform(m, inst, s, cur, next), Transform(m, inst, t, cur, next),
                         u, ReadSet(inst) + inst.writtenFlags)
  {
    hide RunNative, Emulate, AddressOf;
    if inst.form.Native? {
      NativeLocal(m, inst, s, t, u, next);
    } else {
      if |inst.mems| > 0 {
        AddressLocal(inst, 0, s.regs, t.regs, u);
      }
      var address0 := if |inst.mems| > 0 then AddressOf(inst, 0, s.regs) else 0;
      EmulateLocal(m, inst, s, t, u, address0, cur, next);
    }
  }

  lemma {:induction false} ResultsFrame(a: AddrSize, regs: Regs, ops: seq<RegOperand>, vs: seq<Word>, id: RegId)
    requires |vs| == |ops| && forall i :: 0 <= i < |ops| && ops[i].written ==> ops[i].reg.id != id
    ensures PutResults(a, regs, ops, vs)[id] == regs[id]
  {
    if ops != [] {
      ResultsFrame(a, regs, ops[..|ops| - 1], vs[..|ops| - 1], id);
    }
  }

  // Frame: a register changes only if it is a written operand or a moved string pointer.
  lemma RegsFrame(m: Machine, inst: Inst, s: State, cur: Word, next: Word, id: RegId)
    requires Decoded(inst, m.addr) && Transform(m, inst, s, cur, next).Next?
    requires id !in WrittenIds(inst) && id !in Moved(inst, s.regs)
    ensures Transform(m, inst, s, cur, next).s.regs[id] == s.regs[id]
  {
    hide AddressOf;
    if inst.form.Native? {
      var out := m.native(inst, NativeIn(OperandValues(s.regs, inst.regs), s.mem0, ReadFlagValues(inst, s.flags),
                                         s.fpu));
      ResultsFrame(m.addr, s.regs, inst.regs, out.regs, id);
    }
  }

  lemma CompareFrame(m: Machine, f: Flags, lhs: Word, rhs: Word, opBytes: int, x: Flag)
    requires opBytes in {1, 2, 4, 8} && x !in STATUS_FLAGS
    ensures x in CompareFlags(m, f, lhs, rhs, opBytes) <==> x in f
  {
    hide ParityFlag;
  }

  lemma StringFlagsFrame(m: Machine, inst: Inst, op: StrOp, rep: Rep, s: State, cur: Word, next: Word, f: Flag)
    requires Decoded(inst, m.addr) && inst.form == Str(op, rep) && f !in inst.writtenFlags
    ensures f in StringStep(m, inst, op, rep, s, cur, next).s.flags <==> f in s.flags
  {
    hide CompareFlags, Bump, Put, Slice;
    match op {
      case Scas => CompareFrame(m, s.flags, Get(s.regs, inst.regs[0].reg), Low(s.mem0), inst.opBytes, f);
      case Cmps => CompareFrame(m, s.flags, Low(s.mem0), Low(s.mem1), inst.opBytes, f);
      case Stos | Lods | Movs =>
    }
  }

  // Frame: a flag changes only if the instruction is reported to write it.
  lemma FlagsFrame(m: Machine, inst: Inst, s: State, cur: Word, next: Word, f: Flag)
    requires Decoded(inst, m.addr) && Transform(m, inst, s, cur, next).Next?
    requires f !in inst.writtenFlags
    ensures f in Transform(m, inst, s, cur, next).s.flags <==> f in s.flags
  {
    hide AddressOf, Bump, Put, PutResults, StringStep;
    if inst.form.Str? {
      StringFlagsFrame(m, inst, inst.form.op, inst.form.rep, s, cur, next, f);
    }
  }

  lemma MovedLocal(inst: Inst, s: Regs, t: Regs, u: set<RegId>, a: AddrSize)
    requires Decoded(inst, a) && Covers(inst, u) && AgreeRegs(s, t, u)
    ensures Moved(inst, s) == Moved(inst, t) && Moved(inst, s) <= u
  {
    if inst.form.Str? {
      ReadAndWritten(inst.regs);
      PointersUsed(inst, inst.form.op);
    }
  }

  // Write-back

  lemma {:induction false} FlagUpdatesLocal(which: set<Flag>, f: Flags, g: Flags, k: nat)
    requires k <= |FLAG_ORDER| && AgreeFlags(f, g, which)
    ensures FlagUpdates(which, f, k) == FlagUpdates(which, g, k)
  {
    if k != 0 {
      FlagUpdatesLocal(which, f, g, k - 1);
    }
  }

  lemma {:induction false} RegUpdatesLocal(which: set<RegId>, s: Regs, t: Regs, k: nat)
    requires k <= NUM_REGS && AgreeRegs(s, t, which)
    ensures RegUpdates(which, s, k) == RegUpdates(which, t, k)
  {
    if k != 0 {
      RegUpdatesLocal(which, s, t, k - 1);
    }
  }

  lemma LateUpdatesLocal(flagSet: set<Flag>, f: Flags, g: Flags, regSet: set<RegId>, s: Regs, t: Regs, pc: Word)
    requires AgreeFlags(f, g, flagSet) && AgreeRegs(s, t, regSet)
    ensures LateUpdates(flagSet, f, regSet, s, pc) == LateUpdates(flagSet, g, regSet, t, pc)
  {
    FlagUpdatesLocal(flagSet, f, g, |FLAG_ORDER|);
    RegUpdatesLocal(regSet, s, t, NUM_REGS);
  }

  lemma WriteBackUsed(inst: Inst, regs: Regs, u: set<RegId>, a: AddrSize)
    requires Decoded(inst, a) && Covers(inst, u)
    ensures WriteBackIds(inst, regs) <= u
  {
    hide UsedIds, FormOperands;
    ReadAndWritten(inst.regs);
    assert WrittenIds(inst) <= UsedIds(inst) by { WrittenAreUsed(inst); }
    if inst.form.Str? {
      PointersAreUsed(inst, u, a);
    }
  }

  lemma WrittenAreUsed(inst: Inst)
    ensures WrittenIds(inst) <= UsedIds(inst)
  {
    ReadAndWritten(inst.regs);
  }

  lemma PointersAreUsed(inst: Inst, u: set<RegId>, a: AddrSize)
    requires Decoded(inst, a) && Covers(inst, u) && inst.form.Str?
    ensures StringPointers(inst.form.op) <= u
  {
    PointersUsed(inst, inst.form.op);
  }

  // What is written back from a cache that agrees with the reference where it counts is what the reference
  // writes back.
  lemma WriteBackAgrees(m: Machine, inst: Inst, e: Env, t: State, u: set<RegId>, pc: Word)
    requires Decoded(inst, m.addr) && OperandsReadable(inst, e) && Covers(inst, u)
    requires AgreeOutcome(Reference(m, inst, e), Next(t, pc), u, ReadSet(inst) + inst.writtenFlags)
    ensures Reference(m, inst, e).Next? && Reference(m, inst, e).pc == pc
    ensures StepUpdates(inst, e, Reference(m, inst, e).s, pc) == StepUpdates(inst, e, t, pc)
  {
    hide Reference, Decoded, OperandsReadable, Covers, WriteBackIds, LateUpdates, EarlyUpdates;
    WriteBackUsed(inst, e.regs, u, m.addr);
    var s := Reference(m, inst, e).s;
    LateUpdatesLocal(inst.writtenFlags, s.flags, t.flags, WriteBackIds(inst, e.regs), s.regs, t.regs, pc);
  }

  lemma EarlyApplied(m: Machine, inst: Inst, e: Env, s: State)
    requires Decoded(inst, m.addr) && OperandsReadable(inst, e) && (inst.usesFpu ==> !e.deny.writeFpu)
    ensures
      ApplyAll(e, EarlyUpdates(inst, e, s.mem0, s.mem1, s.fpu)) == Done(e.(
        mem := WriteBack(m.addr, inst, e, WriteBack(m.addr, inst, e, e.mem, 0, s.mem0), 1, s.mem1),
        fpu := if inst.usesFpu then s.fpu else e.fpu))
  {
    hide AddressOf, Decoded, OperandsReadable, StoreValue, ApplyAll, Attempted, MemUpdates, WriteBack;
    var us, vs := MemUpdates(inst, e, 0, s.mem0), MemUpdates(inst, e, 1, s.mem1);
    var ws: seq<Update> := if inst.usesFpu then [ToFpu(s.fpu)] else [];
    var e1 := e.(mem := WriteBack(m.addr, inst, e, e.mem, 0, s.mem0));
    var e2 := e1.(mem := WriteBack(m.addr, inst, e, e1.mem, 1, s.mem1));
    MemApplied(m, inst, e, e, 0, s.mem0);
    MemApplied(m, inst, e, e1, 1, s.mem1);
    ApplyAppend(e, us, vs);
    ApplyAppend(e, us + vs, ws);
    if inst.usesFpu {
      ApplyOne(e2, ToFpu(s.fpu));
    } else {
      ApplyNone(e2);
    }
  }

  lemma MemApplied(m: Machine, inst: Inst, e: Env, now: Env, i: nat, v: nat)
    requires Decoded(inst, m.addr) && OperandsReadable(inst, e) && now.mem.Keys == e.mem.Keys
    ensures ApplyAll(now, MemUpdates(inst, e, i, v)) == Done(now.(mem := WriteBack(m.addr, inst, e, now.mem, i, v)))
    ensures Attempted(now, MemUpdates(inst, e, i, v)) == MemUpdates(inst, e, i, v)
  {
    hide AddressOf, Decoded, OperandsReadable, StoreValue, ApplyAll, Attempted;
    if i < |inst.mems| && inst.mems[i].written {
      WrittenIsMapped(inst, e, i, m.addr);
      ApplyOne(now, ToMem(AddressOf(inst, i, e.regs), inst.mems[i].size, v));
    } else {
      ApplyNone(now);
    }
  }

  lemma CommittedRegs(m: Machine, inst: Inst, e: Env, regs: Regs, pc: Word)
    requires Decoded(inst, m.addr) && OperandsReadable(inst, e) && !inst.nop && Reference(m, inst, e).Next?
    requires
      var s := Reference(m, inst, e).s;
      forall id: RegId ::
        regs[id] == if id == RIP then pc else if id in WriteBackIds(inst, e.regs) then s.regs[id] else e.regs[id]
    ensures regs == Reference(m, inst, e).s.regs[RIP := pc]
  {
    var s0, next := LoadState(inst, e), NextPC(m, inst, e);
    var s := Reference(m, inst, e).s;
    hide Transform, UsedIds, WrittenIds, Moved, LoadState, MemValue, NextPC, Decoded, OperandsReadable;
    assert s0.regs == e.regs by { LoadedAsIs(inst, e); }
    forall id: RegId
      ensures regs[id] == s.regs[RIP := pc][id]
    {
      if id !in WriteBackIds(inst, e.regs) {
        RegsFrame(m, inst, s0, e.regs[RIP], next, id);
      }
    }
  }

  lemma CommittedFlags(m: Machine, inst: Inst, e: Env, flags: Flags)
    requires Decoded(inst, m.addr) && OperandsReadable(inst, e) && Reference(m, inst, e).Next?
    requires forall f ::
      f in flags <==> if f in inst.writtenFlags then f in Reference(m, inst, e).s.flags else f in e.flags
    ensures flags == Reference(m, inst, e).s.flags
  {
    var s0, next := LoadState(inst, e), NextPC(m, inst, e);
    var s := Reference(m, inst, e).s;
    hide Transform, LoadState, MemValue, NextPC, Decoded, OperandsReadable;
    assert s0.flags == e.flags by { LoadedAsIs(inst, e); }
    forall f
      ensures f in flags <==> f in s.flags
    {
      if f !in inst.writtenFlags {
        FlagsFrame(m, inst, s0, e.regs[RIP], next, f);
      }
    }
  }

  // If the user refuses nothing, writing back only what may have changed commits the whole outcome.
  lemma WriteBackIsCommit(m: Machine, inst: Inst, e: Env)
    requires Decoded(inst, m.addr) && OperandsReadable(inst, e) && !inst.nop && Reference(m, inst, e).Next?
    requires WritesGranted(inst, e)
    ensures
      var o := Reference(m, inst, e);
      ApplyAll(e, StepUpdates(inst, e, o.s, o.pc)) == Done(Commit(m, inst, e, o.s, o.pc))
  {
    hide Reference, Decoded, OperandsReadable, WriteBackIds, LateUpdates, EarlyUpdates, ApplyAll, Attempted, WriteBack;
    var o := Reference(m, inst, e);
    var us := EarlyUpdates(inst, e, o.s.mem0, o.s.mem1, o.s.fpu);
    var vs := LateUpdates(inst.writtenFlags, o.s.flags, WriteBackIds(inst, e.regs), o.s.regs, o.pc);
    EarlyApplied(m, inst, e, o.s);
    var e1 := ApplyAll(e, us).env;
    ApplyAppend(e, us, vs);
    LateApplied(e1, inst.writtenFlags, o.s.flags, WriteBackIds(inst, e.regs), o.s.regs, o.pc);
    var e2 := ApplyAll(e1, vs).env;
    CommittedRegs(m, inst, e, e2.regs, o.pc);
    CommittedFlags(m, inst, e, e2.flags);
  }

  // A NOP that is allowed to write back what it read only moves the program counter.
  lemma NopIsMove(inst: Inst, e: Env, pc: Word)
    requires WritesGranted(inst, e)
    ensures ApplyAll(e, NopUpdates(inst, e, pc)) == Done(e.(regs := e.regs[RIP := pc]))
  {
    hide ApplyAll, LateUpdates, WriteBackIds;
    LateApplied(e, inst.writtenFlags, e.flags, WriteBackIds(inst, e.regs), e.regs, pc);
    var e' := ApplyAll(e, NopUpdates(inst, e, pc)).env;
    assert forall id: RegId :: e'.regs[id] == e.regs[RIP := pc][id];
    assert e'.flags == e.flags;
  }

  lemma LoadedAsIs(inst: Inst, e: Env)
    requires OperandsReadable(inst, e)
    ensures LoadState(inst, e).regs == e.regs && LoadState(inst, e).flags == e.flags
  {
  }

  lemma NotEncodable(m: Machine, inst: Inst, e: Env, u: set<RegId>)
    requires Decoded(inst, m.addr) && OperandsReadable(inst, e) && inst.form.Native? && !Encodable(m, inst)
    ensures AgreeOutcome(Reference(m, inst, e), Halt(ErrorExecute), u, ReadSet(inst) + inst.writtenFlags)
  {
  }

  // What native execution makes of the cache is what it would make of the user's state.
  lemma NativeAgrees(m: Machine, inst: Inst, e: Env, loaded: State, aliased: State, u: set<RegId>, out: Outcome)
    requires Decoded(inst, m.addr) && OperandsReadable(inst, e) && inst.form.Native? && Covers(inst, u)
    requires Agree(loaded, LoadState(inst, e), u, ReadSet(inst)) && AgreeRegs(aliased.regs, loaded.regs, u)
    requires aliased == loaded.(regs := aliased.regs)
    requires AgreeOutcome(RunNative(m, inst, aliased, NextPC(m, inst, e)), out, u, ReadSet(inst) + inst.writtenFlags)
    ensures AgreeOutcome(Reference(m, inst, e), out, u, ReadSet(inst) + inst.writtenFlags)
  {
    var user, next := LoadState(inst, e), NextPC(m, inst, e);
    assert Reference(m, inst, e) == RunNative(m, inst, user, next);
    hide RunNative, Reference, Decoded, LoadState, OperandsReadable, NextPC, Covers;
    AgreeChain(aliased, loaded, user, u, ReadSet(inst));
    NativeLocal(m, inst, user, aliased, u, next);
    OutcomeTransitive(RunNative(m, inst, user, next), RunNative(m, inst, aliased, next), out, u,
                      ReadSet(inst) + inst.writtenFlags);
  }

  // What emulation makes of the cache is what it would make of the user's state.
  lemma EmulationAgrees(m: Machine, inst: Inst, e: Env, loaded: State, u: set<RegId>, address0: Word, out: Outcome)
    requires Decoded(inst, m.addr) && OperandsReadable(inst, e) && Emulated(inst.form) && !inst.nop && Covers(inst, u)
    requires Agree(loaded, LoadState(inst, e), u, ReadSet(inst)) && RIP in u
    requires address0 == if |inst.mems| > 0 then AddressOf(inst, 0, e.regs) else 0
    requires Emulate(m, inst, loaded, address0, loaded.regs[RIP], NextPC(m, inst, e)) == out
    ensures AgreeOutcome(Reference(m, inst, e), out, u, ReadSet(inst) + inst.writtenFlags)
  {
    var user, next := LoadState(inst, e), NextPC(m, inst, e);
    LoadedAsIs(inst, e);
    assert Reference(m, inst, e) == Emulate(m, inst, user, address0, e.regs[RIP], next);
    hide Emulate, Reference, Decoded, LoadState, OperandsReadable, NextPC, Covers, AddressOf;
    AgreeChain(loaded, loaded, user, u, ReadSet(inst));
    EmulateLocal(m, inst, user, loaded, u, address0, e.regs[RIP], next);
  }
}
