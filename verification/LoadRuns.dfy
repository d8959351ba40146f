/** REP LODS: every element is loaded into the accumulator, where the last one stays. */
module LoadRuns {
  import opened Bits
  import opened FlatMemory
  import opened Machine
  import opened Isa
  import opened Updates
  import opened StringWalk
  import opened StoreRuns
  import opened CompareRuns
  import opened Branches
  import opened Addresses
  import opened PlainStrings

  predicate Repeated(inst: Inst) {
    StringShape(inst, Lods) && inst.form.rep == RepAny && Loads(inst)
  }

  // Where element j is.
  function ElementAt(inst: Inst, e: Env, j: int): Word
    requires |inst.mems| == 1
  {
    Elem(inst.mems[0].width, e.regs[RSI], Stride(inst, e.flags), j)
  }

  ghost predicate ElementsReadable(inst: Inst, e: Env, k: nat)
    requires |inst.mems| == 1 && inst.opBytes >= 0
  {
    forall j: nat :: j < k ==> Accessible(e.mem, ElementAt(inst, e, j), inst.opBytes, HintOf(inst.mems[0]))
  }

  lemma RepeatReference(m: Machine, e: Env, inst: Inst)
    requires Decoded(inst, m.addr) && Repeated(inst) && OperandsReadable(inst, e) && e.regs[RCX] > 0
    ensures StringOperands(inst, Lods)
    ensures
      var s := Element(m, inst, Lods, LoadState(inst, e));
      Reference(m, inst, e) == Next(s.(regs := s.regs[RCX := e.regs[RCX] - 1]),
                                    if e.regs[RCX] > 1 then e.regs[RIP] else Behind(m, e, inst))
  {
    hide Element, MemValue, AddressOf, StringOperands, StringShape;
    ShapeIs(inst);
  }

  lemma ShapeIs(inst: Inst)
    requires StringShape(inst, Lods)
    ensures inst.form.Str? && inst.form.op == Lods && !inst.nop && !inst.unsupported && !inst.usesFpu
    ensures inst.opBytes in {1, 2, 4, 8} && |inst.mems| == 1 && !inst.mems[0].written && !inst.mems[0].agen
    ensures AtPointer(inst.mems[0], RSI, inst.opBytes)
  {
  }

  // One element of a run.
  lemma LoadIteration(m: Machine, e: Env, inst: Inst)
    requires Fetched(m, e, inst) && Repeated(inst) && OperandsReadable(inst, e) && e.regs[RCX] > 0
    ensures |inst.mems| == 1 && inst.opBytes in {1, 2, 4, 8} && Step(m, e).Done?
    ensures
      var after := Step(m, e).env;
      && Loaded1(m, e, inst, after, {RCX, RIP}) && after.regs[RCX] == e.regs[RCX] - 1
      && after.regs[RIP] == if e.regs[RCX] > 1 then e.regs[RIP] else Behind(m, e, inst)
  {
    hide Step, OperandsReadable, Decoded, Behind, MemValue, AddressOf, Element, Get, Pointed, ValueAt, Loaded, Moved1;
    hide StringShape, RegsReadable, Reference, Loaded1;
    ShapeIs(inst);
    FetchedIs(m, e, inst);
    RepeatReference(m, e, inst);
    FetchedStep(m, e, inst);
    LodsElement(m, e, inst);
    var o := Reference(m, inst, e);
    NoneWritten(m, e, inst, o.s, o.pc);
    LoadedIs(m, e, inst, Step(m, e).env.regs, {RCX, RIP});
  }

  // The state after k elements of a count of c.
  ghost predicate LoadedUpTo(m: Machine, inst: Inst, e: Env, k: nat, e': Env)
    requires inst.opBytes in {1, 2, 4, 8} && |inst.mems| == 1 && k <= e.regs[RCX]
  {
    && e' == e.(regs := e'.regs)
    && (forall id: RegId :: id !in {RAX, RSI, RCX, RIP} ==> e'.regs[id] == e.regs[id])
    && e'.regs[RCX] == e.regs[RCX] - k
    && e'.regs[RSI] == Wrap(m.addr, e.regs[RSI] + k * Stride(inst, e.flags))
    && e'.regs[RIP] == (if 0 < k == e.regs[RCX] then Behind(m, e, inst) else e.regs[RIP])
    && (k > 0 ==>
         var at := ElementAt(inst, e, k - 1);
         Mapped(e.mem, at, inst.opBytes)
         && Get(e'.regs, Reg(RAX, PartOf(inst.opBytes))) == ValueAt(e.mem, at, inst.opBytes))
  }

  lemma NextElement(m: Machine, inst: Inst, e: Env, k: nat, e': Env)
    requires Decoded(inst, m.addr) && StringShape(inst, Lods) && k < e.regs[RCX] && LoadedUpTo(m, inst, e, k, e')
    requires ElementsReadable(inst, e, k + 1)
    ensures Pointed(e', inst, 0, RSI) == ElementAt(inst, e, k) && OperandsReadable(inst, e')
    ensures Moved1(m, e', inst, RSI) == Wrap(m.addr, e.regs[RSI] + (k + 1) * Stride(inst, e.flags))
  {
    hide Elem, Wrap, AddressOf, Decoded, StringShape, ValueAt, Get, WidthBound;
    ShapeIs(inst);
    PointersFit(inst, m.addr, 0, RSI);
    ElemOfPointer(m.addr, inst.mems[0].width, e.regs[RSI], Stride(inst, e.flags), k);
    WrapAdd(m.addr, e.regs[RSI], k, Stride(inst, e.flags));
    AddressAtPointer(inst, 0, RSI, e'.regs);
    MovedIs(m, e', inst, RSI);
  }

  lemma MovedIs(m: Machine, e: Env, inst: Inst, id: RegId)
    ensures Moved1(m, e, inst, id) == Wrap(m.addr, e.regs[id] + Stride(inst, e.flags))
  {
  }

  lemma {:induction false} LoadRun(m: Machine, e: Env, inst: Inst, k: nat)
    requires Fetched(m, e, inst) && Repeated(inst) && FitsMode(e.regs, m.addr) && k <= e.regs[RCX]
    requires |inst.mems| == 1 && inst.opBytes in {1, 2, 4, 8} && ElementsReadable(inst, e, k)
    ensures Run(m, e, k).Completed? && LoadedUpTo(m, inst, e, k, Run(m, e, k).env)
  {
    hide Fetched, Step, Run, StringShape, Get, ValueAt, Elem, Wrap, Behind, Moved1, Pointed, OperandsReadable;
    if k == 0 {
      RunNone(m, e);
      WholePointer(m.addr, e.regs[RSI], Stride(inst, e.flags), e.regs);
    } else {
      LoadRun(m, e, inst, k - 1);
      var now := Run(m, e, k - 1).env;
      ShapeIs(inst);
      FetchedIs(m, e, inst);
      NextElement(m, inst, e, k - 1, now);
      SameFetch(m, e, now, inst);
      LoadIteration(m, now, inst);
      RunOneMore(m, e, k - 1);
      BehindSame(m, e, now, inst);
    }
  }

  lemma WholePointer(a: AddrSize, p: Word, inc: int, regs: Regs)
    requires FitsMode(regs, a) && regs[RSI] == p
    ensures Wrap(a, p + 0 * inc) == p
  {
  }

  // From a count c > 0: c steps, count zero, the pointer moved by c elements, the program counter behind the
  // instruction for the first time, and the last element in the accumulator's part.
  lemma StringLoaded(m: Machine, e: Env, inst: Inst)
    requires Fetched(m, e, inst) && Repeated(inst) && FitsMode(e.regs, m.addr) && e.regs[RCX] > 0
    requires |inst.mems| == 1 && inst.opBytes in {1, 2, 4, 8} && ElementsReadable(inst, e, e.regs[RCX])
    ensures
      var c, r := e.regs[RCX], Run(m, e, e.regs[RCX]);
      && r.Completed? && LoadedUpTo(m, inst, e, c, r.env)
      && forall k: nat :: k < c ==> StillAt(Run(m, e, k), e.regs[RIP])
  {
    hide Fetched, Step, Run, StringShape, Get, ValueAt, Elem, Wrap, Behind;
    LoadRun(m, e, inst, e.regs[RCX]);
    forall k: nat | k < e.regs[RCX]
      ensures StillAt(Run(m, e, k), e.regs[RIP])
    {
      LoadRun(m, e, inst, k);
    }
  }
}
