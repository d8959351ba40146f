/**
 Whole runs of REP MOVS and REP STOS. Each step executes one iteration, so copying a string is a
 property of a run: what memory holds after any number of steps, and that the run is a memmove
 when the ranges allow it.
 */
module StoreRuns {
  import opened Bits
  import opened FlatMemory
  import opened Machine
  import opened Isa
  import opened Updates
  import opened StringWalk

  predicate Storing(inst: Inst, op: StrOp) {
    StringShape(inst, op) && op in {Movs, Stos} && inst.form.rep == RepAny
  }

  // Addresses of the j-th elements.
  function Dst(inst: Inst, e: Env, op: StrOp, j: int): Word
    requires Storing(inst, op)
  {
    Elem(inst.mems[0].width, e.regs[RDI], Stride(inst, e.flags), j)
  }

  function Src(inst: Inst, e: Env, j: int): Word
    requires Storing(inst, Movs)
  {
    Elem(inst.mems[1].width, e.regs[RSI], Stride(inst, e.flags), j)
  }

  // The user allows the j-th element to be written, and to be read from its source.
  ghost predicate AllowedAt(inst: Inst, e: Env, op: StrOp, j: int)
    requires Storing(inst, op)
  {
    && Accessible(e.mem, Dst(inst, e, op, j), inst.opBytes, HintOf(inst.mems[0]))
    && (op == Movs ==> Accessible(e.mem, Src(inst, e, j), inst.opBytes, HintOf(inst.mems[1])))
  }

  ghost predicate Allowed(inst: Inst, e: Env, op: StrOp, k: nat)
    requires Storing(inst, op)
  {
    forall j :: 0 <= j < k ==> AllowedAt(inst, e, op, j)
  }

  ghost predicate Touches(inst: Inst, e: Env, op: StrOp, k: nat, a: int)
    requires Storing(inst, op)
  {
    exists j :: 0 <= j < k && Dst(inst, e, op, j) <= a < Dst(inst, e, op, j) + inst.opBytes
  }

  // Memory after k elements, stored one after another.
  ghost function StoreElems(inst: Inst, e: Env, op: StrOp, k: nat): (r: Flat)
    requires Storing(inst, op) && Allowed(inst, e, op, k)
    ensures SamePermissions(e.mem, r)
    ensures forall a :: a in e.mem && !Touches(inst, e, op, k, a) ==> r[a] == e.mem[a]
  {
    if k == 0 then e.mem
    else
      var r := StoreElems(inst, e, op, k - 1);
      assert AllowedAt(inst, e, op, k - 1);
      StoreValue(r, Dst(inst, e, op, k - 1), inst.opBytes,
                 if op == Movs then ValueAt(r, Src(inst, e, k - 1), inst.opBytes) else Get(e.regs, inst.regs[0].reg))
  }

  // The user's state after k of the iterations.
  ghost function StoreEnv(m: Machine, inst: Inst, e: Env, op: StrOp, k: nat): Env
    requires Storing(inst, op) && Allowed(inst, e, op, k) && k <= e.regs[RCX]
  {
    var regs := WalkRegs(m.addr, e.regs, op, Stride(inst, e.flags), k);
    e.(regs := if k < e.regs[RCX] then regs else regs[RIP := NextPC(m, inst, e)],
       mem := StoreElems(inst, e, op, k))
  }

  // The first k elements are not stored over the instruction itself.
  ghost predicate LeavesCode(inst: Inst, e: Env, op: StrOp, k: nat)
    requires Storing(inst, op)
  {
    forall a :: e.regs[RIP] <= a < e.regs[RIP] + MAX_INST_LENGTH ==> !Touches(inst, e, op, k, a)
  }

  lemma {:induction false} FetchLengthStable(mem: Flat, mem': Flat, pc: Word, n: nat)
    requires SamePermissions(mem, mem')
    ensures FetchLength(mem, pc, n) == FetchLength(mem', pc, n)
  {
    if n != 0 {
      FetchLengthStable(mem, mem', pc, n - 1);
      assert Accessible(mem, pc, n, ReadExecutable) == Accessible(mem', pc, n, ReadExecutable);
    }
  }

  // The same instruction is fetched as long as its bytes and the permissions stay.
  lemma FetchedStable(m: Machine, e: Env, e': Env, inst: Inst)
    requires Fetched(m, e, inst) && SamePermissions(e.mem, e'.mem) && e'.regs[RIP] == e.regs[RIP] && e'.deny == e.deny
    requires forall a :: e.regs[RIP] <= a < e.regs[RIP] + MAX_INST_LENGTH && a in e.mem ==> e'.mem[a] == e.mem[a]
    requires inst.form.Str? ==> e.regs[RCX] != 0 || e'.regs[RCX] == 0
    ensures Fetched(m, e', inst)
  {
    hide Decoded, UsedIds, WrittenIds;
    var pc := e.regs[RIP];
    FetchLengthStable(e.mem, e'.mem, pc, MAX_INST_LENGTH);
    var n := FetchLength(e.mem, pc, MAX_INST_LENGTH);
    assert BytesAt(e.mem, pc, n) == BytesAt(e'.mem, pc, n);
  }

  lemma PointersFit(inst: Inst, a: AddrSize, i: nat, id: RegId)
    requires Decoded(inst, a) && i < |inst.mems| && AtPointer(inst.mems[i], id, inst.opBytes)
    ensures a == A32 ==> inst.mems[i].width != W64
  {
  }

  // After k iterations the operands are the k-th elements.
  lemma OperandsAt(m: Machine, e: Env, e': Env, inst: Inst, op: StrOp, k: nat)
    requires Storing(inst, op) && Decoded(inst, m.addr) && k <= e.regs[RCX]
    requires e'.regs == WalkRegs(m.addr, e.regs, op, Stride(inst, e.flags), k) && SamePermissions(e.mem, e'.mem)
    ensures AddressOf(inst, 0, e'.regs) == Dst(inst, e, op, k)
    ensures e'.regs[RDI] % WidthBound(inst.mems[0].width) == Dst(inst, e, op, k)
    ensures op == Movs ==> AddressOf(inst, 1, e'.regs) == Src(inst, e, k)
    ensures OperandsReadable(inst, e') <==> AllowedAt(inst, e, op, k)
  {
    PointerAt(m, e, e'.regs, inst, op, 0, RDI, k);
    if op == Movs {
      PointerAt(m, e, e'.regs, inst, op, 1, RSI, k);
    }
    hide AddressOf, Elem, Wrap, Decoded, HintOf, WidthBound, WalkRegs;
    assert MemReadable(inst, e', 0) ==
      Accessible(e.mem, Dst(inst, e, op, k), inst.opBytes, HintOf(inst.mems[0]));
    if op == Movs {
      assert MemReadable(inst, e', 1) ==
        Accessible(e.mem, Src(inst, e, k), inst.opBytes, HintOf(inst.mems[1]));
    }
  }

  lemma PointerAt(m: Machine, e: Env, regs: Regs, inst: Inst, op: StrOp, i: nat, id: RegId, k: nat)
    requires Storing(inst, op) && Decoded(inst, m.addr) && k <= e.regs[RCX] && i < |inst.mems|
    requires AtPointer(inst.mems[i], id, inst.opBytes) && id in StringPointers(op)
    requires regs == WalkRegs(m.addr, e.regs, op, Stride(inst, e.flags), k)
    ensures AddressOf(inst, i, regs) == Elem(inst.mems[i].width, e.regs[id], Stride(inst, e.flags), k)
    ensures regs[id] % WidthBound(inst.mems[i].width) == Elem(inst.mems[i].width, e.regs[id], Stride(inst, e.flags), k)
  {
    PointersFit(inst, m.addr, i, id);
    AddressAtPointer(inst, i, id, regs);
    ElemOfPointer(m.addr, inst.mems[i].width, e.regs[id], Stride(inst, e.flags), k);
    hide AddressOf, Elem, Wrap, Decoded, Stride, WidthBound;
  }

  lemma WalkLeaves(a: AddrSize, regs: Regs, op: StrOp, inc: int, k: nat, id: RegId)
    requires k <= regs[RCX] && id !in {RCX, RSI, RDI}
    ensures WalkRegs(a, regs, op, inc, k)[id] == regs[id] && WalkRegs(a, regs, op, inc, k)[RCX] == regs[RCX] - k
  {
  }

  lemma FetchedIsDecoded(m: Machine, e: Env, inst: Inst)
    requires Fetched(m, e, inst)
    ensures Decoded(inst, m.addr)
  {
  }

  lemma StoreElemsNext(inst: Inst, e: Env, op: StrOp, k: nat)
    requires Storing(inst, op) && Allowed(inst, e, op, k) && AllowedAt(inst, e, op, k)
    ensures Allowed(inst, e, op, k + 1)
    ensures
      var r := StoreElems(inst, e, op, k);
      && Mapped(r, Dst(inst, e, op, k), inst.opBytes) && (op == Movs ==> Mapped(r, Src(inst, e, k), inst.opBytes))
      && StoreElems(inst, e, op, k + 1) == StoreValue(r, Dst(inst, e, op, k), inst.opBytes,
           if op == Movs then ValueAt(r, Src(inst, e, k), inst.opBytes) else Get(e.regs, inst.regs[0].reg))
  {
    hide Dst, Src, HintOf, ToBytes, FromBytes, StringShape, Storing, StoreValue, ValueAt, Get;
  }

  lemma StoredIs(e: Env, e': Env, inst: Inst, op: StrOp, src: Word)
    requires Storing(inst, op) && OperandsReadable(inst, e') && e'.regs[RAX] == e.regs[RAX]
    requires op == Movs ==> AddressOf(inst, 1, e'.regs) == src && Mapped(e'.mem, src, inst.opBytes)
    ensures StoredValue(inst, e', op) ==
      if op == Movs then ValueAt(e'.mem, src, inst.opBytes) else Get(e.regs, inst.regs[0].reg)
  {
    hide AddressOf, OperandsReadable, Slice;
  }

  // What is stored next, after k iterations.
  lemma StoredNext(m: Machine, e: Env, e': Env, inst: Inst, op: StrOp, k: nat)
    requires Storing(inst, op) && Decoded(inst, m.addr) && k < e.regs[RCX]
    requires Allowed(inst, e, op, k) && AllowedAt(inst, e, op, k)
    requires SamePermissions(e.mem, e'.mem) && e'.mem == StoreElems(inst, e, op, k)
    requires e'.regs == WalkRegs(m.addr, e.regs, op, Stride(inst, e.flags), k)
    ensures OperandsReadable(inst, e') && Allowed(inst, e, op, k + 1)
    ensures Mapped(e'.mem, Dst(inst, e, op, k), inst.opBytes)
    ensures StoreValue(e'.mem, Dst(inst, e, op, k), inst.opBytes, StoredValue(inst, e', op))
      == StoreElems(inst, e, op, k + 1)
  {
    StoringIs(inst, op);
    hide WalkRegs, Elem, Decoded, HintOf, Stride, WidthBound, AddressOf, Wrap, Slice, PartOf, OperandsReadable;
    hide AllowedAt;
    hide Allowed, StoreElems, StoredValue, Storing, StringShape, SamePermissions, Mapped, Dst, Src, StoreEnv, Fetched;
    hide LeavesCode, FitsMode, Step, Touches;
    WalkLeaves(m.addr, e.regs, op, Stride(inst, e.flags), k, RAX);
    OperandsAt(m, e, e', inst, op, k);
    StoreElemsNext(inst, e, op, k);
    if op == Movs {
      StoredIs(e, e', inst, op, Src(inst, e, k));
    } else {
      StoredIs(e, e', inst, op, 0);
    }
  }

  lemma RegsNext(m: Machine, e: Env, e': Env, inst: Inst, op: StrOp, k: nat)
    requires Storing(inst, op) && k < e.regs[RCX]
    requires e'.regs == WalkRegs(m.addr, e.regs, op, Stride(inst, e.flags), k) && e'.flags == e.flags
    ensures e'.regs[RCX] == e.regs[RCX] - k
    ensures OneMore(m.addr, e'.regs, op, Stride(inst, e'.flags))[RIP :=
              if e'.regs[RCX] > 1 then e'.regs[RIP] else NextPC(m, inst, e')]
      == var regs := WalkRegs(m.addr, e.regs, op, Stride(inst, e.flags), k + 1);
         if k + 1 < e.regs[RCX] then regs else regs[RIP := NextPC(m, inst, e)]
  {
    var inc := Stride(inst, e.flags);
    WalkLeaves(m.addr, e.regs, op, inc, k, RIP);
    WalkLeaves(m.addr, e.regs, op, inc, k + 1, RIP);
    WalkOneMore(m.addr, e.regs, op, inc, k);
    hide WalkRegs, OneMore, Wrap, Stride, StringShape;
  }

  // One more step of the run, from the state after k iterations.
  lemma StoreStep(m: Machine, e: Env, inst: Inst, op: StrOp, k: nat)
    requires Fetched(m, e, inst) && Storing(inst, op) && k < e.regs[RCX]
    requires Allowed(inst, e, op, k) && LeavesCode(inst, e, op, k)
    ensures AllowedAt(inst, e, op, k) ==> Allowed(inst, e, op, k + 1)
    ensures AllowedAt(inst, e, op, k) ==> Step(m, StoreEnv(m, inst, e, op, k)) == Done(StoreEnv(m, inst, e, op, k + 1))
    ensures !AllowedAt(inst, e, op, k) ==> Step(m, StoreEnv(m, inst, e, op, k)) == Stop(ErrorReadMem)
  {
    var e' := StoreEnv(m, inst, e, op, k);
    StoreEnvFetches(m, e, e', inst, op, k);
    FetchedIsDecoded(m, e, inst);
    StoringIs(inst, op);
    hide Fetched, Step, OperandsReadable, Decoded, AllowedAt, Allowed, LeavesCode, WalkRegs, Stride, Storing;
    hide StringShape, Dst, Src, StoreElems, WidthBound, NextPC, OneMore, StoredValue, SamePermissions, StoreEnv;
    OperandsAt(m, e, e', inst, op, k);
    RegsNext(m, e, e', inst, op, k);
    if AllowedAt(inst, e, op, k) {
      StoreEnvIs(m, e, inst, op, k);
      StoredNext(m, e, e', inst, op, k);
      StoreEnvIs(m, e, inst, op, k + 1);
      StoreIteration(m, e', inst, op);
    } else {
      FetchedStep(m, e', inst);
    }
  }

  lemma StoreEnvIs(m: Machine, e: Env, inst: Inst, op: StrOp, k: nat)
    requires Storing(inst, op) && Allowed(inst, e, op, k) && k <= e.regs[RCX]
    ensures
      var regs := WalkRegs(m.addr, e.regs, op, Stride(inst, e.flags), k);
      StoreEnv(m, inst, e, op, k) ==
        e.(regs := if k < e.regs[RCX] then regs else regs[RIP := NextPC(m, inst, e)],
           mem := StoreElems(inst, e, op, k))
  {
  }

  lemma StoringIs(inst: Inst, op: StrOp)
    requires Storing(inst, op)
    ensures StringShape(inst, op) && op in {Movs, Stos} && inst.form.Str? && inst.form.rep == RepAny
    ensures !inst.nop && !inst.unsupported && !inst.usesFpu && inst.opBytes in {1, 2, 4, 8}
    ensures op == Stos ==> |inst.regs| > 0 && inst.regs[0].reg == Reg(RAX, PartOf(inst.opBytes))
    ensures |inst.mems| == if op == Movs then 2 else 1
  {
  }

  lemma StoreEnvFetches(m: Machine, e: Env, e': Env, inst: Inst, op: StrOp, k: nat)
    requires Fetched(m, e, inst) && Storing(inst, op) && k < e.regs[RCX]
    requires Allowed(inst, e, op, k) && LeavesCode(inst, e, op, k) && e' == StoreEnv(m, inst, e, op, k)
    ensures Fetched(m, e', inst) && SamePermissions(e.mem, e'.mem) && e'.mem == StoreElems(inst, e, op, k)
    ensures e'.regs == WalkRegs(m.addr, e.regs, op, Stride(inst, e.flags), k)
    ensures e'.regs[RCX] == e.regs[RCX] - k && e'.flags == e.flags && e'.deny == e.deny
  {
    hide WalkRegs, Elem, Decoded, HintOf, Stride, WidthBound, AddressOf, Wrap, Slice, PartOf, OperandsReadable;
    hide AllowedAt;
    hide Allowed, StoreElems, StoredValue, Storing, StringShape, SamePermissions, Mapped, Dst, Src, StoreEnv, Fetched;
    hide LeavesCode, FitsMode, Step, Touches;
    StoreEnvIs(m, e, inst, op, k);
    WalkLeaves(m.addr, e.regs, op, Stride(inst, e.flags), k, RIP);
    CodeKept(e, inst, op, k);
    assert e.regs[RCX] != 0;
    FetchedStable(m, e, e', inst);
  }

  lemma CodeKept(e: Env, inst: Inst, op: StrOp, k: nat)
    requires Storing(inst, op) && Allowed(inst, e, op, k) && LeavesCode(inst, e, op, k)
    ensures SamePermissions(e.mem, StoreElems(inst, e, op, k))
    ensures forall a :: e.regs[RIP] <= a < e.regs[RIP] + MAX_INST_LENGTH && a in e.mem ==>
      StoreElems(inst, e, op, k)[a] == e.mem[a]
  {
    hide Touches, AllowedAt, Storing;
  }

  // Restartable copying: k iterations take k steps, each leaving the state in between on the user's
  // side, and an element that the user refuses stops the run there with nothing of it done.
  lemma {:induction false} StoreRun(m: Machine, e: Env, inst: Inst, op: StrOp, k: nat)
    requires Fetched(m, e, inst) && Storing(inst, op) && FitsMode(e.regs, m.addr) && k <= e.regs[RCX] && e.regs[RCX] > 0
    requires Allowed(inst, e, op, k) && LeavesCode(inst, e, op, k)
    ensures Run(m, e, k) == Completed(StoreEnv(m, inst, e, op, k))
    ensures k < e.regs[RCX] && !AllowedAt(inst, e, op, k) ==>
      Run(m, e, k + 1) == Stopped(StoreEnv(m, inst, e, op, k), k, ErrorReadMem)
  {
    hide WalkRegs, Elem, Decoded, HintOf, Stride, WidthBound, AddressOf, Wrap, Slice, PartOf, OperandsReadable;
    hide AllowedAt;
    hide Allowed, StoreElems, StoredValue, Storing, StringShape, SamePermissions, Mapped, Dst, Src, StoreEnv, Fetched;
    hide LeavesCode, FitsMode, Step, Touches;
    if k == 0 {
      RunNone(m, e);
      WalkNone(m.addr, e.regs, op, Stride(inst, e.flags));
      StoreNone(m, e, inst, op);
    } else {
      FewerStored(inst, e, op, k - 1, k);
      StoreRun(m, e, inst, op, k - 1);
      StoreStep(m, e, inst, op, k - 1);
      RunOneMore(m, e, k - 1);
    }
    if k < e.regs[RCX] {
      StoreStep(m, e, inst, op, k);
      RunOneMore(m, e, k);
    }
  }

  lemma FewerStored(inst: Inst, e: Env, op: StrOp, j: nat, k: nat)
    requires Storing(inst, op) && Allowed(inst, e, op, k) && LeavesCode(inst, e, op, k) && k == j + 1
    ensures Allowed(inst, e, op, j) && AllowedAt(inst, e, op, j) && LeavesCode(inst, e, op, j)
  {
    hide AllowedAt, Storing, Dst;
    assert forall a :: Touches(inst, e, op, j, a) ==> Touches(inst, e, op, k, a);
  }

  lemma StoreNone(m: Machine, e: Env, inst: Inst, op: StrOp)
    requires Storing(inst, op) && e.regs[RCX] > 0
    requires WalkRegs(m.addr, e.regs, op, Stride(inst, e.flags), 0) == e.regs
    ensures Allowed(inst, e, op, 0) && StoreEnv(m, inst, e, op, 0) == e
  {
    hide WalkRegs, Stride;
  }
}
