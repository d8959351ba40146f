/**
 Whole runs of REPE and REPNE with CMPS and SCAS: comparing strings, and searching one. Where a run
 stops, and what count, pointers and flags it leaves.
 */
module CompareRuns {
  import opened Bits
  import opened FlatMemory
  import opened Machine
  import opened Isa
  import opened Updates
  import opened StringWalk
  import opened StoreRuns
  import opened Compare

  predicate Comparing(inst: Inst, op: StrOp) {
    StringShape(inst, op) && op in {Scas, Cmps} && inst.form.rep in {Repe, Repne}
  }

  lemma ComparingIs(inst: Inst, op: StrOp)
    requires Comparing(inst, op)
    ensures StringShape(inst, op) && op in {Scas, Cmps} && inst.form.Str? && inst.form.op == op
    ensures !inst.nop && !inst.unsupported && !inst.usesFpu && inst.opBytes in {1, 2, 4, 8}
    ensures op == Scas ==> |inst.regs| > 0 && inst.regs[0].reg.id == RAX
    ensures |inst.mems| == if op == Cmps then 2 else 1
  {
  }

  // The pointer of the i-th memory operand: CMPS compares the source with the destination.
  function PointerOf(op: StrOp, i: nat): RegId {
    if op == Cmps && i == 0 then RSI else RDI
  }

  // The address of the j-th element of operand i.
  function At(inst: Inst, e: Env, op: StrOp, i: nat, j: int): Word
    requires Comparing(inst, op) && i < |inst.mems|
  {
    Elem(inst.mems[i].width, e.regs[PointerOf(op, i)], Stride(inst, e.flags), j)
  }

  ghost predicate ReadableAt(inst: Inst, e: Env, op: StrOp, j: int)
    requires Comparing(inst, op)
  {
    forall i :: 0 <= i < |inst.mems| ==> Accessible(e.mem, At(inst, e, op, i, j), inst.opBytes, HintOf(inst.mems[i]))
  }

  lemma ElementFits(m: Flat, a: int, n: int)
    requires n in {1, 2, 4, 8} && Mapped(m, a, n)
    ensures ValueAt(m, a, n) < B64
  {
    hide FromBytes, Pow256;
    FromBytesBound(BytesAt(m, a, n));
    Pow256Values();
    Pow256Monotone(n, 8);
  }

  // What the j-th comparison compares.
  function Operand(inst: Inst, e: Env, op: StrOp, i: nat, j: int): Word
    requires Comparing(inst, op) && i < |inst.mems|
    requires Mapped(e.mem, At(inst, e, op, i, j), inst.opBytes)
  {
    ElementFits(e.mem, At(inst, e, op, i, j), inst.opBytes);
    ValueAt(e.mem, At(inst, e, op, i, j), inst.opBytes)
  }

  function Left(inst: Inst, e: Env, op: StrOp, j: int): Word
    requires Comparing(inst, op) && ReadableAt(inst, e, op, j)
  {
    ComparingIs(inst, op);
    if op == Scas then Get(e.regs, inst.regs[0].reg) else Operand(inst, e, op, 0, j)
  }

  function Right(inst: Inst, e: Env, op: StrOp, j: int): Word
    requires Comparing(inst, op) && ReadableAt(inst, e, op, j)
  {
    ComparingIs(inst, op);
    Operand(inst, e, op, if op == Scas then 0 else 1, j)
  }

  // One iteration, on the user's state

  function LeftNow(inst: Inst, e: Env, op: StrOp): Word
    requires Comparing(inst, op) && OperandsReadable(inst, e)
  {
    if op == Scas then Get(e.regs, inst.regs[0].reg) else ValueFits(inst, e, 0); MemValue(inst, e, 0)
  }

  function RightNow(inst: Inst, e: Env, op: StrOp): Word
    requires Comparing(inst, op) && OperandsReadable(inst, e)
  {
    if op == Scas then ValueFits(inst, e, 0); MemValue(inst, e, 0) else ValueFits(inst, e, 1); MemValue(inst, e, 1)
  }

  lemma LowOfWord(w: Word)
    ensures Low(w) == w
  {
  }

  lemma CompareReference(m: Machine, e: Env, inst: Inst, op: StrOp)
    requires Decoded(inst, m.addr) && Comparing(inst, op) && e.regs[RCX] > 0 && OperandsReadable(inst, e)
    ensures
      var f := CompareFlags(m, e.flags, LeftNow(inst, e, op), RightNow(inst, e, op), inst.opBytes);
      Reference(m, inst, e) ==
        Next(LoadState(inst, e).(flags := f, regs := OneMore(m.addr, e.regs, op, Stride(inst, e.flags))),
             if e.regs[RCX] > 1 && Repeats(inst.form.rep, f) then e.regs[RIP] else NextPC(m, inst, e))
  {
    hide AddressOf, MemValue, Decoded, Slice, Wrap, NextPC, Low, Pow256, CompareFlags;
    ValueFits(inst, e, 0);
    LowOfWord(MemValue(inst, e, 0));
    if op == Cmps {
      ValueFits(inst, e, 1);
      LowOfWord(MemValue(inst, e, 1));
    }
  }

  lemma CompareCommit(m: Machine, e: Env, inst: Inst, op: StrOp, s: State, pc: Word)
    requires Decoded(inst, m.addr) && Comparing(inst, op) && OperandsReadable(inst, e)
    ensures Commit(m, inst, e, s, pc) == e.(regs := s.regs[RIP := pc], flags := s.flags)
  {
    hide AddressOf, StoreValue, Decoded, OperandsReadable, PartOf, AtPointer;
  }

  lemma CompareIteration(m: Machine, e: Env, inst: Inst, op: StrOp)
    requires Fetched(m, e, inst) && Comparing(inst, op) && e.regs[RCX] > 0 && OperandsReadable(inst, e)
    ensures
      var f := CompareFlags(m, e.flags, LeftNow(inst, e, op), RightNow(inst, e, op), inst.opBytes);
      Step(m, e) == Done(e.(
        regs := OneMore(m.addr, e.regs, op, Stride(inst, e.flags))[RIP :=
          if e.regs[RCX] > 1 && Repeats(inst.form.rep, f) then e.regs[RIP] else NextPC(m, inst, e)],
        flags := f))
  {
    hide OneMore, NextPC, Stride, LeftNow, RightNow, Step, Commit, Reference, OperandsReadable, CompareFlags;
    hide Repeats, Decoded, RegsReadable;
    ComparingIs(inst, op);
    CompareReference(m, e, inst, op);
    var o := Reference(m, inst, e);
    CompareCommit(m, e, inst, op, o.s, o.pc);
    FetchedStep(m, e, inst);
  }

  // Runs

  ghost predicate ReadableUpTo(inst: Inst, e: Env, op: StrOp, k: nat)
    requires Comparing(inst, op)
  {
    forall j :: 0 <= j < k ==> ReadableAt(inst, e, op, j)
  }

  // The comparison of element j lets the instruction go on.
  ghost predicate GoesOn(inst: Inst, e: Env, op: StrOp, j: nat)
    requires Comparing(inst, op) && ReadableAt(inst, e, op, j)
  {
    if inst.form.rep == Repe then Left(inst, e, op, j) == Right(inst, e, op, j)
    else Left(inst, e, op, j) != Right(inst, e, op, j)
  }

  // The state after k comparisons.
  ghost function CompareEnv(m: Machine, inst: Inst, e: Env, op: StrOp, k: nat, pc: Word): Env
    requires Comparing(inst, op) && ReadableUpTo(inst, e, op, k) && k <= e.regs[RCX]
  {
    e.(regs := WalkRegs(m.addr, e.regs, op, Stride(inst, e.flags), k)[RIP := pc],
       flags := if k == 0 then e.flags else
         assert ReadableAt(inst, e, op, k - 1);
         ComparingIs(inst, op);
         CompareFlags(m, e.flags, Left(inst, e, op, k - 1), Right(inst, e, op, k - 1), inst.opBytes))
  }

  // After k comparisons the operands are the k-th elements.
  lemma ComparedAt(m: Machine, e: Env, e': Env, inst: Inst, op: StrOp, k: nat)
    requires Comparing(inst, op) && Decoded(inst, m.addr) && k <= e.regs[RCX] && e'.mem == e.mem
    requires e'.regs == WalkRegs(m.addr, e.regs, op, Stride(inst, e.flags), k)
    ensures OperandsReadable(inst, e') <==> ReadableAt(inst, e, op, k)
    ensures ReadableAt(inst, e, op, k) ==>
      LeftNow(inst, e', op) == Left(inst, e, op, k) && RightNow(inst, e', op) == Right(inst, e, op, k)
  {
    hide Elem, Decoded, WidthBound, Slice, Stride, FromBytes;
    ComparingIs(inst, op);
    WalkLeaves(m.addr, e.regs, op, Stride(inst, e.flags), k, RAX);
    OperandAt(m, e, e'.regs, inst, op, 0, k);
    if op == Cmps {
      OperandAt(m, e, e'.regs, inst, op, 1, k);
    }
    assert forall i | 0 <= i < |inst.mems| ::
      MemReadable(inst, e', i) == Accessible(e.mem, At(inst, e, op, i, k), inst.opBytes, HintOf(inst.mems[i]));
  }

  lemma OperandAt(m: Machine, e: Env, regs: Regs, inst: Inst, op: StrOp, i: nat, k: nat)
    requires Comparing(inst, op) && Decoded(inst, m.addr) && k <= e.regs[RCX] && i < |inst.mems|
    requires regs == WalkRegs(m.addr, e.regs, op, Stride(inst, e.flags), k)
    ensures AddressOf(inst, i, regs) == At(inst, e, op, i, k) && !inst.mems[i].agen && inst.mems[i].size == inst.opBytes
  {
    hide Elem, Wrap, Decoded, Stride, WidthBound, AddressOf, PartOf;
    var id := PointerOf(op, i);
    PointersFit(inst, m.addr, i, id);
    AddressAtPointer(inst, i, id, regs);
    ElemOfPointer(m.addr, inst.mems[i].width, e.regs[id], Stride(inst, e.flags), k);
  }

  lemma CompareEnvIs(m: Machine, inst: Inst, e: Env, op: StrOp, k: nat, pc: Word)
    requires Comparing(inst, op) && ReadableUpTo(inst, e, op, k) && k <= e.regs[RCX]
    ensures CompareEnv(m, inst, e, op, k, pc) ==
      e.(regs := CompareEnv(m, inst, e, op, k, pc).regs, flags := CompareEnv(m, inst, e, op, k, pc).flags)
    ensures CompareEnv(m, inst, e, op, k, pc).regs == WalkRegs(m.addr, e.regs, op, Stride(inst, e.flags), k)[RIP := pc]
    ensures Stride(inst, CompareEnv(m, inst, e, op, k, pc).flags) == Stride(inst, e.flags)
  {
    hide CompareFlags, Elem, StringShape, WalkRegs, Left, Right, ReadableAt;
    ComparingIs(inst, op);
    if k > 0 {
      assert ReadableAt(inst, e, op, k - 1);
      CompareMeans(m, e.flags, Left(inst, e, op, k - 1), Right(inst, e, op, k - 1), inst.opBytes);
    }
  }

  lemma FlagsNext(m: Machine, inst: Inst, e: Env, op: StrOp, k: nat, pc: Word, pc': Word)
    requires Comparing(inst, op) && ReadableUpTo(inst, e, op, k) && ReadableAt(inst, e, op, k) && k < e.regs[RCX]
    ensures ReadableUpTo(inst, e, op, k + 1) && inst.opBytes in {1, 2, 4, 8}
    ensures CompareFlags(m, CompareEnv(m, inst, e, op, k, pc).flags, Left(inst, e, op, k), Right(inst, e, op, k),
                         inst.opBytes)
      == CompareEnv(m, inst, e, op, k + 1, pc').flags
  {
    hide CompareFlags, Elem, StringShape, WalkRegs, Left, Right, ReadableAt;
    ComparingIs(inst, op);
    var l, r := Left(inst, e, op, k), Right(inst, e, op, k);
    if k > 0 {
      assert ReadableAt(inst, e, op, k - 1);
      LastCompareCounts(m, e.flags, Left(inst, e, op, k - 1), Right(inst, e, op, k - 1), l, r, inst.opBytes);
    }
  }

  lemma RepeatsIs(m: Machine, inst: Inst, e: Env, op: StrOp, k: nat, flags: Flags)
    requires Comparing(inst, op) && ReadableAt(inst, e, op, k) && inst.opBytes in {1, 2, 4, 8}
    ensures Repeats(inst.form.rep, CompareFlags(m, flags, Left(inst, e, op, k), Right(inst, e, op, k), inst.opBytes))
      <==> GoesOn(inst, e, op, k)
  {
    hide CompareFlags, StringShape, Left, Right, ReadableAt;
    CompareMeans(m, flags, Left(inst, e, op, k), Right(inst, e, op, k), inst.opBytes);
  }

  // One more step of the run, from the state after k comparisons.
  lemma CompareStep(m: Machine, e: Env, inst: Inst, op: StrOp, k: nat)
    requires Fetched(m, e, inst) && Comparing(inst, op) && k < e.regs[RCX] && ReadableUpTo(inst, e, op, k)
    ensures !ReadableAt(inst, e, op, k) ==> Step(m, CompareEnv(m, inst, e, op, k, e.regs[RIP])) == Stop(ErrorReadMem)
    ensures ReadableAt(inst, e, op, k) ==> ReadableUpTo(inst, e, op, k + 1)
    ensures ReadableAt(inst, e, op, k) ==>
      Step(m, CompareEnv(m, inst, e, op, k, e.regs[RIP])) ==
        Done(CompareEnv(m, inst, e, op, k + 1,
               if k + 1 < e.regs[RCX] && GoesOn(inst, e, op, k) then e.regs[RIP] else NextPC(m, inst, e)))
  {
    hide Fetched, Step, Comparing, StringShape, WalkRegs, OneMore, CompareFlags, Left, Right, LeftNow, RightNow;
    hide ReadableAt, ReadableUpTo, GoesOn, CompareEnv, OperandsReadable, Decoded, Stride, NextPC, Repeats;
    hide SamePermissions;
    var pc := e.regs[RIP];
    var e' := CompareEnv(m, inst, e, op, k, pc);
    ComparingIs(inst, op);
    CompareEnvIs(m, inst, e, op, k, pc);
    WalkLeaves(m.addr, e.regs, op, Stride(inst, e.flags), k, RIP);
    SameFetch(m, e, e', inst);
    FetchedIsDecoded(m, e, inst);
    ComparedAt(m, e, e', inst, op, k);
    if ReadableAt(inst, e, op, k) {
      CompareIteration(m, e', inst, op);
      RepeatsIs(m, inst, e, op, k, e'.flags);
      var pc' := if k + 1 < e.regs[RCX] && GoesOn(inst, e, op, k) then pc else NextPC(m, inst, e);
      FlagsNext(m, inst, e, op, k, pc, pc');
      CompareEnvIs(m, inst, e, op, k + 1, pc');
      WalkOneMore(m.addr, e.regs, op, Stride(inst, e.flags), k);
      NextPcSame(m, inst, e, e');
    } else {
      FetchedStep(m, e', inst);
    }
  }

  lemma SameFetch(m: Machine, e: Env, e': Env, inst: Inst)
    requires Fetched(m, e, inst) && e'.mem == e.mem && e'.regs[RIP] == e.regs[RIP] && e'.deny == e.deny
    requires inst.form.Str? ==> e.regs[RCX] != 0 || e'.regs[RCX] == 0
    ensures Fetched(m, e', inst)
  {
    hide Decoded, UsedIds, WrittenIds;
  }

  lemma NextPcSame(m: Machine, inst: Inst, e: Env, e': Env)
    requires e'.regs[RIP] == e.regs[RIP]
    ensures NextPC(m, inst, e') == NextPC(m, inst, e)
  {
  }

  ghost predicate AllGoOn(inst: Inst, e: Env, op: StrOp, k: nat)
    requires Comparing(inst, op) && ReadableUpTo(inst, e, op, k)
  {
    forall j :: 0 <= j < k ==> ReadableAt(inst, e, op, j) && GoesOn(inst, e, op, j)
  }

  // While every comparison lets it, the run goes on, one comparison a step.
  lemma {:induction false} CompareRun(m: Machine, e: Env, inst: Inst, op: StrOp, k: nat)
    requires Fetched(m, e, inst) && Comparing(inst, op) && FitsMode(e.regs, m.addr) && k < e.regs[RCX]
    requires ReadableUpTo(inst, e, op, k) && AllGoOn(inst, e, op, k)
    ensures Run(m, e, k) == Completed(CompareEnv(m, inst, e, op, k, e.regs[RIP]))
    ensures !ReadableAt(inst, e, op, k) ==>
      Run(m, e, k + 1) == Stopped(CompareEnv(m, inst, e, op, k, e.regs[RIP]), k, ErrorReadMem)
  {
    hide Fetched, Step, Comparing, StringShape, ReadableAt, GoesOn, CompareEnv, FitsMode, WalkRegs, Stride;
    if k == 0 {
      RunNone(m, e);
      CompareNone(m, e, inst, op);
    } else {
      assert ReadableAt(inst, e, op, k - 1);
      CompareRun(m, e, inst, op, k - 1);
      CompareStep(m, e, inst, op, k - 1);
      RunOneMore(m, e, k - 1);
    }
    CompareStep(m, e, inst, op, k);
    RunOneMore(m, e, k);
  }

  lemma CompareNone(m: Machine, e: Env, inst: Inst, op: StrOp)
    requires Comparing(inst, op) && FitsMode(e.regs, m.addr)
    ensures ReadableUpTo(inst, e, op, 0) && CompareEnv(m, inst, e, op, 0, e.regs[RIP]) == e
  {
    hide WalkRegs, Stride, StringShape, FitsMode;
    WalkNone(m.addr, e.regs, op, Stride(inst, e.flags));
  }
}
