/** Comparisons that the host executes, and the jumps behind them: the branch is taken in the relation it stands for. */
module HostCompare {
  import opened Bits
  import opened Machine
  import opened Isa
  import opened Updates
  import opened StringWalk
  import opened CompareRuns
  import opened Branches
  import opened NativeSteps

  // A comparison of two registers of a width, neither of them the stack pointer.
  predicate ComparesRegisters(inst: Inst, a: Reg, b: Reg, p: Part) {
    && OnHost(inst) && !inst.unsupported && !inst.usesFpu && inst.mems == []
    && inst.regs == [RegOperand(a, false, true), RegOperand(b, false, true)]
    && a.part == b.part == p && RSP !in {a.id, b.id} && inst.writtenFlags == STATUS_FLAGS
  }

  // The host's flags are those of the difference of its operands.
  ghost predicate HostSubtracts(m: Machine, inst: Inst, p: Part) {
    && m.encodes(inst)
    && forall nin: NativeIn :: |nin.regs| == 2 && nin.regs[0] < PartBound(p) && nin.regs[1] < PartBound(p) ==>
         var out := m.native(inst, nin);
         out.Finished? && |out.regs| == 2 && DifferenceFlags(out.flags, nin.regs[0], nin.regs[1], p)
  }

  lemma PartsFit(regs: Regs, r: Reg)
    ensures Get(regs, r) < PartBound(r.part)
  {
  }

  lemma GivenRegisters(inst: Inst, e: Env, a: Reg, b: Reg, p: Part) returns (nin: NativeIn)
    requires ComparesRegisters(inst, a, b, p)
    ensures GivenToHost(inst, e, nin) && nin.regs == [Get(e.regs, a), Get(e.regs, b)]
    ensures OperandsReadable(inst, e) && !MentionsStackPointer(inst.regs)
  {
    hide Slice;
    var flags := map f | f in ReadSet(inst) :: f in e.flags;
    nin := NativeIn([Get(e.regs, a), Get(e.regs, b)], 0, flags, 0);
  }

  // The step leaves the flags of the difference of the user's registers, and everything else but the program counter.
  lemma CompareStep(m: Machine, e: Env, inst: Inst, a: Reg, b: Reg, p: Part)
    requires Fetched(m, e, inst) && ComparesRegisters(inst, a, b, p) && HostSubtracts(m, inst, p)
    ensures Step(m, e).Done?
    ensures
      var after := Step(m, e).env;
      && DifferenceFlags(after.flags, Get(e.regs, a), Get(e.regs, b), p)
      && after == e.(regs := e.regs[RIP := Behind(m, e, inst)], flags := after.flags)
  {
    hide Step, Fetched, GivenToHost, DifferenceFlags, Slice, Behind, MentionsStackPointer, OperandsReadable, PartBound;
    var nin := GivenRegisters(inst, e, a, b, p);
    PartsFit(e.regs, a);
    PartsFit(e.regs, b);
    NativeStops(m, e, inst, nin);
    NativeStep(m, e, inst, nin);
    NativeMemory(m, e, inst, nin);
    NoRegisterWritten(m, e, inst, nin);
    var out := m.native(inst, nin);
    SameStatusFlags(out.flags, Step(m, e).env.flags, Get(e.regs, a), Get(e.regs, b), p);
  }

  lemma SameStatusFlags(f: Flags, g: Flags, l: nat, r: nat, p: Part)
    requires DifferenceFlags(f, l, r, p) && forall x :: x in STATUS_FLAGS ==> (x in g <==> x in f)
    ensures DifferenceFlags(g, l, r, p)
  {
    hide Signed, Difference, InRange, PartBound;
  }

  lemma NoRegisterWritten(m: Machine, e: Env, inst: Inst, nin: NativeIn)
    requires Fetched(m, e, inst) && OnHost(inst) && Step(m, e).Done? && GivenToHost(inst, e, nin)
    requires forall i :: 0 <= i < |inst.regs| ==> !inst.regs[i].written
    ensures Step(m, e).env.regs == e.regs[RIP := Step(m, e).env.regs[RIP]]
  {
    hide Step, Decoded, OperandsReadable, GivenToHost, WriteBack, MemValue, MergeFlags, MentionsStackPointer, AliasFor;
    hide StatusOf, PutResults, Behind;
    GrantedStep(m, e, inst);
    NativeOutcome(m, inst, e, nin);
    NoResults(m.addr, e.regs, inst.regs, m.native(inst, nin).regs);
    var after := Step(m, e).env.regs;
    assert forall id: RegId :: after[id] == e.regs[RIP := after[RIP]][id];
  }

  lemma {:induction false} NoResults(a: AddrSize, regs: Regs, ops: seq<RegOperand>, vs: seq<Word>)
    requires |vs| == |ops| && forall i :: 0 <= i < |ops| ==> !ops[i].written
    ensures PutResults(a, regs, ops, vs) == regs
  {
    if ops != [] {
      NoResults(a, regs, ops[..|ops| - 1], vs[..|ops| - 1]);
    }
  }

  // A comparison and a conditional jump, for all sixteen and at every width.
  lemma CompareAndJump(m: Machine, e: Env, cmp: Inst, jump: Inst, c: Cond, a: Reg, b: Reg, p: Part)
    requires Fetched(m, e, cmp) && ComparesRegisters(cmp, a, b, p) && HostSubtracts(m, cmp, p)
    requires Fetched(m, MovedTo(e, Behind(m, e, cmp)), jump) && Plain(jump) && jump.form == Jcc(c)
    ensures
      var r, mid := Run(m, e, 2), MovedTo(e, Behind(m, e, cmp));
      && r.Completed? && r.env.mem == e.mem
      && r.env.regs == e.regs[RIP :=
           if Stands(c, Get(e.regs, a), Get(e.regs, b), p) then Branched(m, mid, jump) else Behind(m, mid, jump)]
  {
    hide Step, Fetched, DifferenceFlags, Slice, Behind, Branched, Stands, ComparesRegisters, HostSubtracts, Run;
    var mid := MovedTo(e, Behind(m, e, cmp));
    CompareStep(m, e, cmp, a, b, p);
    var compared := Step(m, e).env;
    SameFetch(m, mid, compared, jump);
    BranchStep(m, compared, jump, c, Get(e.regs, a), Get(e.regs, b), p);
    BehindSame(m, mid, compared, jump);
    RunNone(m, e);
    RunOneMore(m, e, 0);
    RunOneMore(m, e, 1);
  }
}
