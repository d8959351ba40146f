/**
 String instructions without a REP prefix, one element a step (microx/Executor.cpp:815-871 and 1238-1271); and LODS with
 one, which leaves the last element in the accumulator.
 */
module PlainStrings {
  import opened Bits
  import opened FlatMemory
  import opened Machine
  import opened Isa
  import opened Updates
  import opened Compare
  import opened StringWalk
  import opened Branches
  import opened Addresses

  predicate Once(inst: Inst, op: StrOp) {
    StringShape(inst, op) && inst.form.rep == NoRep
  }

  // A string pointer one element further, or one back when DF is set.
  function Moved1(m: Machine, e: Env, inst: Inst, id: RegId): Word {
    (e.regs[id] + if DF in e.flags then -inst.opBytes else inst.opBytes) % Bound(m.addr)
  }

  // Where a string is, by its pointer and the operand's address width.
  function Pointed(e: Env, inst: Inst, i: nat, id: RegId): Word
    requires i < |inst.mems|
  {
    e.regs[id] % WidthBound(inst.mems[i].width)
  }

  lemma OnceReference(m: Machine, e: Env, inst: Inst, op: StrOp)
    requires Decoded(inst, m.addr) && Once(inst, op) && OperandsReadable(inst, e)
    ensures StringOperands(inst, op)
    ensures Reference(m, inst, e) == Next(Element(m, inst, op, LoadState(inst, e)), Behind(m, e, inst))
  {
    hide Element, MemValue, AddressOf, StringOperands;
  }

  lemma OnceStep(m: Machine, e: Env, inst: Inst, op: StrOp)
    requires Fetched(m, e, inst) && Once(inst, op) && OperandsReadable(inst, e)
    ensures Decoded(inst, m.addr) && StringOperands(inst, op)
    ensures Step(m, e) ==
      Done(Commit(m, inst, e, Element(m, inst, op, LoadState(inst, e)), Behind(m, e, inst)))
  {
    hide Step, Element, Commit, OperandsReadable, Decoded, Behind, StringOperands, LoadState, RegsReadable, Reference;
    FetchedStep(m, e, inst);
    FetchedIs(m, e, inst);
    OnceReference(m, e, inst, op);
  }

  // The operand at a pointer, and its value.
  lemma PointedValue(inst: Inst, e: Env, i: nat, id: RegId)
    requires OperandsReadable(inst, e) && i < |inst.mems| && AtPointer(inst.mems[i], id, inst.opBytes)
    requires id != RIP && inst.form.Str? && inst.opBytes in {1, 2, 4, 8}
    ensures AddressOf(inst, i, e.regs) == Pointed(e, inst, i, id)
    ensures Mapped(e.mem, Pointed(e, inst, i, id), inst.opBytes) && MemReadable(inst, e, i)
    ensures MemValue(inst, e, i) == ValueAt(e.mem, Pointed(e, inst, i, id), inst.opBytes) < B64
    ensures Low(MemValue(inst, e, i)) == MemValue(inst, e, i) < Pow256(inst.opBytes)
  {
    hide AddressOf, Pow256, ValueAt, Low;
    assert MemReadable(inst, e, i);
    AddressAtPointer(inst, i, id, e.regs);
    MemHolds(inst, e, i);
    ValueFits(inst, e, i);
    LowIs(MemValue(inst, e, i));
  }

  // Both pointers of a string instruction moved.
  function BothMoved(m: Machine, e: Env, inst: Inst): Regs {
    e.regs[RSI := Moved1(m, e, inst, RSI)][RDI := Moved1(m, e, inst, RDI)]
  }

  lemma PointersMove(m: Machine, e: Env, inst: Inst, id: RegId)
    ensures Bump(m.addr, e.regs, id, Stride(inst, e.flags)) == e.regs[id := Moved1(m, e, inst, id)]
    ensures Bump(m.addr, e.regs[RSI := Moved1(m, e, inst, RSI)], RDI, Stride(inst, e.flags)) == BothMoved(m, e, inst)
  {
  }

  // MOVS copies one element.
  ghost predicate CopiedOne(m: Machine, e: Env, inst: Inst, after: Env)
    requires inst.opBytes in {1, 2, 4, 8} && |inst.mems| == 2
  {
    var n, dst, src := inst.opBytes, Pointed(e, inst, 0, RDI), Pointed(e, inst, 1, RSI);
    && Mapped(e.mem, dst, n) && Mapped(e.mem, src, n)
    && after == e.(
         regs := BothMoved(m, e, inst)[RIP := Behind(m, e, inst)],
         mem := StoreValue(e.mem, dst, n, ValueAt(e.mem, src, n)))
  }

  lemma MovsOnce(m: Machine, e: Env, inst: Inst)
    requires Fetched(m, e, inst) && Once(inst, Movs) && OperandsReadable(inst, e)
    ensures Step(m, e).Done? && CopiedOne(m, e, inst, Step(m, e).env)
  {
    hide Step, OperandsReadable, Decoded, Behind, ValueAt, StoreValue, MemValue, AddressOf, Low, Pointed, Pow256;
    hide Bump, Stride, Moved1, BothMoved;
    PointersMove(m, e, inst, RSI);
    OnceStep(m, e, inst, Movs);
    PointedValue(inst, e, 0, RDI);
    PointedValue(inst, e, 1, RSI);
    SetLowOfWord(MemValue(inst, e, 0), MemValue(inst, e, 1));
    FirstWritten(m, e, inst, Element(m, inst, Movs, LoadState(inst, e)), Behind(m, e, inst));
  }

  // STOS stores the accumulator's part.
  ghost predicate FilledOne(m: Machine, e: Env, inst: Inst, after: Env)
    requires inst.opBytes in {1, 2, 4, 8} && |inst.mems| == 1
  {
    var n, dst := inst.opBytes, Pointed(e, inst, 0, RDI);
    && Mapped(e.mem, dst, n)
    && after == e.(
         regs := e.regs[RDI := Moved1(m, e, inst, RDI)][RIP := Behind(m, e, inst)],
         mem := StoreValue(e.mem, dst, n, e.regs[RAX] % PartBound(PartOf(n))))
  }

  lemma StosOnce(m: Machine, e: Env, inst: Inst)
    requires Fetched(m, e, inst) && Once(inst, Stos) && OperandsReadable(inst, e)
    ensures Step(m, e).Done? && FilledOne(m, e, inst, Step(m, e).env)
  {
    hide Step, OperandsReadable, Decoded, Behind, StoreValue, MemValue, AddressOf, Low, Pointed, Pow256, ValueAt;
    hide Bump, Stride, Moved1;
    PointersMove(m, e, inst, RDI);
    OnceStep(m, e, inst, Stos);
    PointedValue(inst, e, 0, RDI);
    AccumulatorIs(e.regs, inst.opBytes);
    SetLowOfWord(MemValue(inst, e, 0), Get(e.regs, inst.regs[0].reg));
    FirstWritten(m, e, inst, Element(m, inst, Stos, LoadState(inst, e)), Behind(m, e, inst));
  }

  lemma AccumulatorIs(regs: Regs, n: int)
    requires n in {1, 2, 4, 8}
    ensures Get(regs, Reg(RAX, PartOf(n))) == regs[RAX] % PartBound(PartOf(n))
    ensures PartBound(PartOf(n)) == Pow256(n)
  {
    hide Pow256;
    Pow256Values();
  }

  // LODS, of the accumulator's part.
  predicate Loads(inst: Inst) {
    inst.opBytes in {1, 2, 4, 8} && |inst.regs| > 0 && inst.regs[0].reg == Reg(RAX, PartOf(inst.opBytes))
  }

  // The accumulator holds the element, RSI has moved, and nothing else but some of `others` has changed.
  ghost predicate Loaded1(m: Machine, e: Env, inst: Inst, after: Env, others: set<RegId>)
    requires inst.opBytes in {1, 2, 4, 8} && |inst.mems| == 1
  {
    var src := Pointed(e, inst, 0, RSI);
    && Mapped(e.mem, src, inst.opBytes)
    && Get(after.regs, Reg(RAX, PartOf(inst.opBytes))) == ValueAt(e.mem, src, inst.opBytes)
    && after.regs[RSI] == Moved1(m, e, inst, RSI)
    && (forall id: RegId :: id !in {RAX, RSI} + others ==> after.regs[id] == e.regs[id])
    && after == e.(regs := after.regs)
  }

  // The registers after one element.
  function Loaded(m: Machine, e: Env, inst: Inst, v: Word): Regs
    requires Loads(inst)
  {
    var regs := Put(m.addr, e.regs, inst.regs[0].reg, v);
    regs[RSI := Moved1(m, e, inst, RSI)]
  }

  lemma LodsElement(m: Machine, e: Env, inst: Inst)
    requires Decoded(inst, m.addr) && OperandsReadable(inst, e) && StringShape(inst, Lods) && Loads(inst)
    requires StringOperands(inst, Lods)
    ensures
      var src := Pointed(e, inst, 0, RSI);
      && Mapped(e.mem, src, inst.opBytes) && ValueAt(e.mem, src, inst.opBytes) < B64
      && Element(m, inst, Lods, LoadState(inst, e)) ==
           LoadState(inst, e).(regs := Loaded(m, e, inst, ValueAt(e.mem, src, inst.opBytes)))
  {
    hide ValueAt, AddressOf, Low, Pointed, Pow256, Slice, Splice, OperandsReadable, MemValue, Wrap;
    PointedValue(inst, e, 0, RSI);
    MovesOne(m, e, inst, Put(m.addr, e.regs, inst.regs[0].reg, MemValue(inst, e, 0)));
  }

  lemma MovesOne(m: Machine, e: Env, inst: Inst, regs: Regs)
    requires regs[RSI] == e.regs[RSI]
    ensures Bump(m.addr, regs, RSI, Stride(inst, e.flags)) == regs[RSI := Moved1(m, e, inst, RSI)]
  {
  }

  lemma LoadedIs(m: Machine, e: Env, inst: Inst, regs: Regs, others: set<RegId>)
    requires Decoded(inst, m.addr) && Loads(inst) && |inst.mems| == 1 && others !! {RAX, RSI}
    requires OperandsReadable(inst, e) && StringShape(inst, Lods)
    requires
      var src := Pointed(e, inst, 0, RSI);
      && Mapped(e.mem, src, inst.opBytes) && ValueAt(e.mem, src, inst.opBytes) < B64
      && forall id: RegId :: id !in others ==> regs[id] == Loaded(m, e, inst, ValueAt(e.mem, src, inst.opBytes))[id]
    ensures Loaded1(m, e, inst, e.(regs := regs), others)
  {
    hide ValueAt, AddressOf, Low, Pointed, Pow256, Slice, Splice, OperandsReadable, MemValue, Wrap, Moved1;
    PointedValue(inst, e, 0, RSI);
    AccumulatorIs(e.regs, inst.opBytes);
    PutGets(m.addr, e.regs, inst.regs[0].reg, ValueAt(e.mem, Pointed(e, inst, 0, RSI), inst.opBytes));
    SmallMod(ValueAt(e.mem, Pointed(e, inst, 0, RSI), inst.opBytes), PartBound(PartOf(inst.opBytes)));
  }

  lemma SmallMod(v: nat, b: nat)
    requires v < b
    ensures v % b == v
  {
  }

  lemma LodsOnce(m: Machine, e: Env, inst: Inst)
    requires Fetched(m, e, inst) && Once(inst, Lods) && Loads(inst) && OperandsReadable(inst, e)
    ensures Step(m, e).Done?
    ensures Loaded1(m, e, inst, Step(m, e).env, {RIP}) && Step(m, e).env.regs[RIP] == Behind(m, e, inst)
  {
    hide Step, OperandsReadable, Decoded, Behind, MemValue, AddressOf, Element, Get, Pointed, ValueAt, Loaded, Moved1;
    OnceStep(m, e, inst, Lods);
    LodsElement(m, e, inst);
    NoneWritten(m, e, inst, Element(m, inst, Lods, LoadState(inst, e)), Behind(m, e, inst));
    LoadedIs(m, e, inst, Step(m, e).env.regs, {RIP});
  }

  // The flags of a comparison of two elements (section 3.4.3.1 of the SDM); SF and OF are left open.
  ghost predicate ComparedFlags(f: Flags, before: Flags, l: nat, r: nat) {
    && (ZF in f <==> l == r) && (CF in f <==> l < r) && (AF in f <==> l % 16 < r % 16)
    && (PF in f <==> Ones((l - r) % 0x100, 8) % 2 == 0)
    && (DF in f <==> DF in before)
  }

  // SCAS compares the accumulator's part with an element.
  ghost predicate ScannedOne(m: Machine, e: Env, inst: Inst, after: Env)
    requires inst.opBytes in {1, 2, 4, 8} && |inst.mems| == 1
  {
    var n, at := inst.opBytes, Pointed(e, inst, 0, RDI);
    && Mapped(e.mem, at, n)
    && ComparedFlags(after.flags, e.flags, e.regs[RAX] % PartBound(PartOf(n)), ValueAt(e.mem, at, n))
    && after == e.(regs := e.regs[RDI := Moved1(m, e, inst, RDI)][RIP := Behind(m, e, inst)], flags := after.flags)
  }

  lemma ScasOnce(m: Machine, e: Env, inst: Inst)
    requires Fetched(m, e, inst) && Once(inst, Scas) && OperandsReadable(inst, e)
    ensures Step(m, e).Done? && ScannedOne(m, e, inst, Step(m, e).env)
  {
    hide Step, OperandsReadable, Decoded, Behind, MemValue, AddressOf, Low, Pointed, Pow256, ValueAt, CompareFlags;
    hide Bump, Stride, Moved1, Slice, Ones;
    PointersMove(m, e, inst, RDI);
    OnceStep(m, e, inst, Scas);
    PointedValue(inst, e, 0, RDI);
    AccumulatorIs(e.regs, inst.opBytes);
    CompareMeans(m, e.flags, Get(e.regs, inst.regs[0].reg), MemValue(inst, e, 0), inst.opBytes);
    NoneWritten(m, e, inst, Element(m, inst, Scas, LoadState(inst, e)), Behind(m, e, inst));
  }

  // CMPS compares the element at RSI with the one at RDI.
  ghost predicate ComparedOne(m: Machine, e: Env, inst: Inst, after: Env)
    requires inst.opBytes in {1, 2, 4, 8} && |inst.mems| == 2
  {
    var n, l, r := inst.opBytes, Pointed(e, inst, 0, RSI), Pointed(e, inst, 1, RDI);
    && Mapped(e.mem, l, n) && Mapped(e.mem, r, n)
    && ComparedFlags(after.flags, e.flags, ValueAt(e.mem, l, n), ValueAt(e.mem, r, n))
    && after == e.(
         regs := BothMoved(m, e, inst)[RIP := Behind(m, e, inst)],
         flags := after.flags)
  }

  lemma CmpsOnce(m: Machine, e: Env, inst: Inst)
    requires Fetched(m, e, inst) && Once(inst, Cmps) && OperandsReadable(inst, e)
    ensures Step(m, e).Done? && ComparedOne(m, e, inst, Step(m, e).env)
  {
    hide Step, OperandsReadable, Decoded, Behind, MemValue, AddressOf, Low, Pointed, Pow256, ValueAt, CompareFlags;
    hide Bump, Stride, Moved1, BothMoved, Ones;
    PointersMove(m, e, inst, RSI);
    OnceStep(m, e, inst, Cmps);
    PointedValue(inst, e, 0, RSI);
    PointedValue(inst, e, 1, RDI);
    CompareMeans(m, e.flags, MemValue(inst, e, 0), MemValue(inst, e, 1), inst.opBytes);
    NoneWritten(m, e, inst, Element(m, inst, Cmps, LoadState(inst, e)), Behind(m, e, inst));
  }
}
