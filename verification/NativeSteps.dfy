/**
 What the host's instructions come to for the user: it is given the user's own operands, flags and FPU, and its results
 are what the step leaves; a signal stops the step (microx/Executor.cpp:1827-1917 and 2152-2215).
 */
module NativeSteps {
  import opened Bits
  import opened FlatMemory
  import opened Machine
  import opened Isa
  import opened Updates
  import opened Locality
  import opened StringWalk
  import opened Branches
  import opened Addresses

  predicate OnHost(inst: Inst) {
    inst.form.Native? && !inst.nop
  }

  // What the host is given: the user's registers, the first memory operand, the flags that the instruction reads or
  // may leave alone, and the FPU.
  ghost predicate GivenToHost(inst: Inst, e: Env, nin: NativeIn) {
    && |nin.regs| == |inst.regs|
    && (forall i :: 0 <= i < |inst.regs| ==> nin.regs[i] == Get(e.regs, inst.regs[i].reg))
    && (forall f :: f in nin.flags <==> f in inst.readFlags || (inst.mayWrite && f in inst.writtenFlags))
    && (forall f :: f in nin.flags ==> (nin.flags[f] <==> f in e.flags))
    && (inst.mems == [] || inst.mems[0].agen ==> nin.mem0 == 0)
    && (inst.mems != [] && !inst.mems[0].agen ==>
          var at, n := Linear(inst, inst.mems[0], e.regs), inst.mems[0].size;
          Mapped(e.mem, at, n) && nin.mem0 == ValueAt(e.mem, at, n))
    && nin.fpu == if inst.usesFpu then e.fpu else 0
  }

  lemma HostIsGiven(inst: Inst, e: Env, nin: NativeIn)
    requires OnHost(inst) && OperandsReadable(inst, e)
    requires nin == NativeIn(OperandValues(e.regs, inst.regs), MemValue(inst, e, 0), ReadFlagValues(inst, e.flags),
                             if inst.usesFpu then e.fpu else 0)
    ensures GivenToHost(inst, e, nin)
  {
    hide AddressOf, Linear, ValueAt, Slice;
    if inst.mems != [] && !inst.mems[0].agen {
      MemHolds(inst, e, 0);
      LinearAddress(inst, 0, e.regs);
    }
  }

  // There is only one such.
  lemma OnlyGiven(inst: Inst, e: Env, nin: NativeIn, other: NativeIn)
    requires GivenToHost(inst, e, nin) && GivenToHost(inst, e, other)
    ensures nin == other
  {
    hide Linear, ValueAt, Slice;
    assert nin.regs == other.regs;
    assert forall f :: f in nin.flags ==> nin.flags[f] == other.flags[f];
    assert nin.flags == other.flags;
  }

  lemma NativeOutcome(m: Machine, inst: Inst, e: Env, nin: NativeIn)
    requires Decoded(inst, m.addr) && OnHost(inst) && OperandsReadable(inst, e) && GivenToHost(inst, e, nin)
    ensures Reference(m, inst, e) == (
      if !m.encodes(inst) || (MentionsStackPointer(inst.regs) && AliasFor(inst) == None) then Halt(ErrorExecute)
      else
        match m.native(inst, nin)
        case Raised(sig) => Halt(StatusOf(sig))
        case Finished(vs, mem0, flags, fpu) =>
          if |vs| != |inst.regs| then Halt(ErrorExecute)
          else
            Next(State(PutResults(m.addr, e.regs, inst.regs, vs), MergeFlags(e.flags, flags, inst.writtenFlags),
                       if inst.mems != [] then mem0 else MemValue(inst, e, 0), MemValue(inst, e, 1),
                       if inst.usesFpu then fpu else 0), Behind(m, e, inst)))
  {
    hide AddressOf, Linear, ValueAt, MemValue, Slice, PutResults, MergeFlags, StatusOf, GivenToHost, ReadFlagValues;
    hide MentionsStackPointer, AliasFor, OperandValues, Decoded;
    var given := NativeIn(OperandValues(e.regs, inst.regs), MemValue(inst, e, 0), ReadFlagValues(inst, e.flags),
                          if inst.usesFpu then e.fpu else 0);
    HostIsGiven(inst, e, given);
    OnlyGiven(inst, e, given, nin);
  }

  // A step that is done leaves the host's flags where the instruction writes them, and the user's elsewhere; the host's
  // FPU, if it is used; and the program counter behind the instruction.
  lemma NativeStep(m: Machine, e: Env, inst: Inst, nin: NativeIn)
    requires Fetched(m, e, inst) && OnHost(inst) && Step(m, e).Done? && GivenToHost(inst, e, nin)
    ensures m.native(inst, nin).Finished?
    ensures
      var out, after := m.native(inst, nin), Step(m, e).env;
      && |out.regs| == |inst.regs|
      && (forall f :: f in after.flags <==> if f in inst.writtenFlags then f in out.flags else f in e.flags)
      && after.fpu == (if inst.usesFpu then out.fpu else e.fpu)
      && after.regs[RIP] == Behind(m, e, inst) && after.deny == e.deny
  {
    hide Step, Decoded, OperandsReadable, GivenToHost, Linear, AddressOf, PutResults, StatusOf, Behind, WriteBack;
    hide MemValue, MentionsStackPointer, AliasFor;
    GrantedStep(m, e, inst);
    NativeOutcome(m, inst, e, nin);
  }

  // Memory: a written operand holds what the host left of it, and nothing else changes.
  lemma NativeMemory(m: Machine, e: Env, inst: Inst, nin: NativeIn)
    requires Fetched(m, e, inst) && OnHost(inst) && Step(m, e).Done? && GivenToHost(inst, e, nin) && |inst.mems| <= 1
    ensures m.native(inst, nin).Finished?
    ensures inst.mems == [] || !inst.mems[0].written ==> Step(m, e).env.mem == e.mem
    ensures inst.mems != [] && inst.mems[0].written ==>
      var at, n := Linear(inst, inst.mems[0], e.regs), inst.mems[0].size;
      Mapped(e.mem, at, n) && Step(m, e).env.mem == StoreValue(e.mem, at, n, m.native(inst, nin).mem0)
  {
    hide Step, Decoded, OperandsReadable, GivenToHost, Linear, AddressOf, PutResults, StatusOf, Behind, StoreValue;
    hide MemValue, MentionsStackPointer, AliasFor, MergeFlags;
    GrantedStep(m, e, inst);
    NativeOutcome(m, inst, e, nin);
    if inst.mems != [] {
      LinearAddress(inst, 0, e.regs);
      if inst.mems[0].written {
        WrittenIsMapped(inst, e, 0, m.addr);
      }
    }
  }

  // Registers: a written operand reads as the host's result, if no later one is of the same register.
  lemma NativeRegister(m: Machine, e: Env, inst: Inst, nin: NativeIn, i: nat)
    requires Fetched(m, e, inst) && OnHost(inst) && Step(m, e).Done? && GivenToHost(inst, e, nin)
    requires i < |inst.regs| && inst.regs[i].written
    requires forall j :: i < j < |inst.regs| && inst.regs[j].written ==> inst.regs[j].reg.id != inst.regs[i].reg.id
    ensures m.native(inst, nin).Finished? && |m.native(inst, nin).regs| == |inst.regs|
    ensures
      var r := inst.regs[i].reg;
      Get(Step(m, e).env.regs, r) == m.native(inst, nin).regs[i] % PartBound(r.part)
  {
    hide Step, OperandsReadable, GivenToHost, Linear, AddressOf, PutResults, StatusOf, Behind, WriteBack, Slice;
    hide MemValue, MentionsStackPointer, AliasFor, MergeFlags, PartBound;
    GrantedStep(m, e, inst);
    NativeOutcome(m, inst, e, nin);
    LastResult(m.addr, e.regs, inst.regs, m.native(inst, nin).regs, i);
  }

  lemma {:induction false} LastResult(a: AddrSize, regs: Regs, ops: seq<RegOperand>, vs: seq<Word>, i: nat)
    requires |vs| == |ops| && i < |ops| && ops[i].written && PartFits(ops[i].reg, a)
    requires forall j :: i < j < |ops| && ops[j].written ==> ops[j].reg.id != ops[i].reg.id
    ensures Get(PutResults(a, regs, ops, vs), ops[i].reg) == vs[i] % PartBound(ops[i].reg.part)
  {
    hide Slice, Splice, PartBound, Wrap;
    var last := |ops| - 1;
    var r := PutResults(a, regs, ops[..last], vs[..last]);
    if i == last {
      PutGets(a, r, ops[i].reg, vs[i]);
    } else {
      LastResult(a, regs, ops[..last], vs[..last], i);
    }
  }

  // When it stops instead: the instruction cannot be encoded, or has no register to stand in for the stack pointer, or
  // the host raises a signal.
  lemma NativeStops(m: Machine, e: Env, inst: Inst, nin: NativeIn)
    requires Fetched(m, e, inst) && OnHost(inst) && !inst.unsupported && !(inst.usesFpu && e.deny.readFpu)
    requires OperandsReadable(inst, e) && GivenToHost(inst, e, nin)
    ensures !m.encodes(inst) ==> Step(m, e) == Stop(ErrorExecute)
    ensures MentionsStackPointer(inst.regs) && {RAX, RCX, RDX, RBX} <= UsedIds(inst) ==>
      Step(m, e) == Stop(ErrorExecute)
    ensures m.encodes(inst) && !MentionsStackPointer(inst.regs) && m.native(inst, nin).Raised? ==>
      Step(m, e) == Stop(match m.native(inst, nin).signal
                         case Sigsegv => Fault
                         case Sigbus => Fault
                         case Sigfpe => FloatingPointException
                         case Sigill => ErrorExecute
                         case OtherSignal => ErrorExecute)
    ensures
      var out := m.native(inst, nin);
      m.encodes(inst) && !MentionsStackPointer(inst.regs) && out.Finished? && |out.regs| == |inst.regs| ==>
        Step(m, e).Done?
  {
    hide Decoded, OperandsReadable, GivenToHost, Linear, AddressOf, PutResults, Behind, MentionsStackPointer;
    hide MergeFlags, UsedIds, PlanInst, StepUpdates, ApplyAll, WritesGranted, Commit;
    NativeOutcome(m, inst, e, nin);
    StepIs(m, e);
    StepCases(m, e);
    PlanCases(m, inst, e);
    if Reference(m, inst, e).Next? {
      WriteBackIsCommit(m, inst, e);
    }
  }

  // Element k of an array at p, handed to the host and taken back from it.
  ghost predicate ElementPassed(m: Machine, e: Env, inst: Inst, nin: NativeIn, p: nat, k: nat, after: Env)
    requires |inst.mems| == 1
  {
    var mo, out := inst.mems[0], m.native(inst, nin);
    var at := p + k * mo.size;
    && Mapped(e.mem, at, mo.size) && nin.mem0 == ValueAt(e.mem, at, mo.size)
    && out.Finished?
    && after.mem == if mo.written then StoreValue(e.mem, at, mo.size, out.mem0) else e.mem
  }

  lemma ArrayElement(m: Machine, e: Env, inst: Inst, nin: NativeIn, p: nat, k: nat)
    requires Fetched(m, e, inst) && OnHost(inst) && Step(m, e).Done? && GivenToHost(inst, e, nin)
    requires |inst.mems| == 1 && !inst.mems[0].agen && ElementOf(inst.mems[0], e.regs, p, k)
    ensures ElementPassed(m, e, inst, nin, p, k, Step(m, e).env)
  {
    hide Step, Fetched, ElementOf, Linear, ValueAt, StoreValue;
    ElementAddress(inst, inst.mems[0], e.regs, p, k);
    NativeMemory(m, e, inst, nin);
  }
}
