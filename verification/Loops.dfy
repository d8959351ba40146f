/**
 LOOP, LOOPE and LOOPNE look at the count before they lower it (microx/Executor.cpp:1079-1098), where the SDM lowers
 it first; and a PUSH of an immediate keeps its low half (microx/Executor.cpp:1288-1292), where the SDM extends its
 sign (LOOP and PUSH in the Intel 64 and IA-32 SDM, Volume 2). Here is exactly when these come to the same, and what
 a loop does in the source.
 */
module Loops {
  import opened Bits
  import opened Machine
  import opened Isa
  import opened Updates
  import opened StringWalk
  import opened CompareRuns
  import opened StackSteps

  // Whether ZF lets a loop go on: always for LOOP, when set for LOOPE, and when clear for LOOPNE.
  predicate GoesOn(w: LoopWhile, f: Flags) {
    w == Counting || (w == ZeroSet && ZF in f) || (w == ZeroClear && ZF !in f)
  }

  lemma HoldsIs(w: LoopWhile, f: Flags)
    ensures LoopHolds(w, f) == GoesOn(w, f)
  {
  }

  // The SDM's branch, on the lowered count.
  predicate LowersFirst(w: LoopWhile, a: AddrSize, count: Word, f: Flags) {
    Wrap(a, count - 1) != 0 && GoesOn(w, f)
  }

  // Where ZF lets a loop go on, the two decide alike exactly for counts other than zero and one.
  lemma LoopAgrees(w: LoopWhile, a: AddrSize, count: Word, f: Flags)
    requires count < Bound(a)
    ensures (LoopBranches(w, count, f) <==> LowersFirst(w, a, count, f)) <==> count !in {0, 1} || !GoesOn(w, f)
    ensures Wrap(a, -1) == Bound(a) - 1
  {
    HoldsIs(w, f);
    if count == 0 {
      assert Wrap(a, -1) == Bound(a) - 1;
    } else {
      assert Wrap(a, count - 1) == count - 1;
    }
  }

  predicate IsLoop(inst: Inst) {
    inst.form.Loop? && inst.mems == [] && !inst.nop && !inst.unsupported && !inst.usesFpu
  }

  lemma LoopReference(m: Machine, e: Env, inst: Inst)
    requires Decoded(inst, m.addr) && IsLoop(inst)
    ensures OperandsReadable(inst, e)
    ensures
      var s, next := LoadState(inst, e), NextPC(m, inst, e);
      Reference(m, inst, e) ==
        Next(s.(regs := Bump(m.addr, e.regs, RCX, -1)),
             if LoopBranches(inst.form.loopWhile, e.regs[RCX], e.flags) then Target(m, inst, next) else next)
  {
    hide Bump, LoopBranches, Target, NextPC;
  }

  lemma LoopMoves(m: Machine, e: Env, inst: Inst)
    requires Fetched(m, e, inst) && IsLoop(inst)
    ensures
      var next := NextPC(m, inst, e);
      var pc := if e.regs[RCX] != 0 && GoesOn(inst.form.loopWhile, e.flags) then Target(m, inst, next) else next;
      Step(m, e) == Done(e.(regs := Bump(m.addr, e.regs, RCX, -1)[RIP := pc]))
  {
    hide Bump, Target, NextPC, Step, Reference, RegsReadable;
    HoldsIs(inst.form.loopWhile, e.flags);
    LoopReference(m, e, inst);
    FetchedStep(m, e, inst);
  }

  // One step lowers the count, around the address width from zero, and branches by the count before.
  lemma LoopStep(m: Machine, e: Env, inst: Inst)
    requires Fetched(m, e, inst) && IsLoop(inst)
    ensures
      var next := (e.regs[RIP] + inst.length) % Bound(m.addr);
      var pc := if e.regs[RCX] != 0 && GoesOn(inst.form.loopWhile, e.flags)
                then (next + inst.branchDisp) % Bound(m.addr) else next;
      Step(m, e) == Done(e.(regs := e.regs[RCX := (e.regs[RCX] - 1) % Bound(m.addr)][RIP := pc]))
  {
    hide Step, Fetched, GoesOn;
    LoopMoves(m, e, inst);
  }

  // A loop to itself stays while the count is above zero.
  lemma {:induction false} LoopGoesOn(m: Machine, e: Env, inst: Inst, k: nat)
    requires Fetched(m, e, inst) && IsLoop(inst) && FitsMode(e.regs, m.addr) && GoesOn(inst.form.loopWhile, e.flags)
    requires Target(m, inst, NextPC(m, inst, e)) == e.regs[RIP] && k <= e.regs[RCX]
    ensures Run(m, e, k) == Completed(e.(regs := e.regs[RCX := e.regs[RCX] - k]))
  {
    hide Fetched, Step, Run, Target, NextPC, Bump;
    if k == 0 {
      RunNone(m, e);
      assert e.regs[RCX := e.regs[RCX]] == e.regs;
    } else {
      LoopGoesOn(m, e, inst, k - 1);
      var now := e.(regs := e.regs[RCX := e.regs[RCX] - (k - 1)]);
      SameFetch(m, e, now, inst);
      NextPcSame(m, inst, e, now);
      LoopMoves(m, now, inst);
      BumpIs(m.addr, now.regs, RCX, -1);
      RunOneMore(m, e, k - 1);
      assert now.regs[RCX := e.regs[RCX] - k][RIP := e.regs[RIP]] == e.regs[RCX := e.regs[RCX] - k];
    }
  }

  // Behind the loop, with a count of all ones.
  function LoopedOut(m: Machine, e: Env, inst: Inst): Env {
    e.(regs := e.regs[RCX := Wrap(m.addr, -1)][RIP := NextPC(m, inst, e)])
  }

  // From any count c it is executed c + 1 times, and leaves a count of all ones behind it, not zero.
  lemma LoopRun(m: Machine, e: Env, inst: Inst)
    requires Fetched(m, e, inst) && IsLoop(inst) && FitsMode(e.regs, m.addr) && GoesOn(inst.form.loopWhile, e.flags)
    requires Target(m, inst, NextPC(m, inst, e)) == e.regs[RIP]
    ensures
      var c: nat := e.regs[RCX];
      && (forall k: nat :: k <= c ==> StillAt(Run(m, e, k), e.regs[RIP]))
      && Run(m, e, c + 1) == Completed(LoopedOut(m, e, inst))
  {
    hide Fetched, Step, Run, Target, NextPC, Bump, Wrap;
    var c: nat := e.regs[RCX];
    forall k: nat | k <= c
      ensures StillAt(Run(m, e, k), e.regs[RIP])
    {
      LoopGoesOn(m, e, inst, k);
    }
    LoopGoesOn(m, e, inst, c);
    var now := e.(regs := e.regs[RCX := 0]);
    SameFetch(m, e, now, inst);
    NextPcSame(m, inst, e, now);
    LoopMoves(m, now, inst);
    LowerZero(m.addr, now.regs);
    RunOneMore(m, e, c);
    assert e.regs[RCX := 0][RCX := Wrap(m.addr, -1)] == e.regs[RCX := Wrap(m.addr, -1)];
  }

  lemma LowerZero(a: AddrSize, regs: Regs)
    requires regs[RCX] == 0
    ensures Bump(a, regs, RCX, -1) == regs[RCX := Wrap(a, -1)]
  {
  }

  // What the SDM pushes: the immediate, in two's complement of the operand's size.
  function SignExtended(inst: Inst): Word
    requires inst.opBytes in {1, 2, 4, 8}
  {
    inst.imm % PartBound(PartOf(inst.opBytes))
  }

  // The source pushes that exactly when the operand has at most four bytes or nothing is lost above them, which
  // for 32-bit immediates is when they are not negative.
  lemma PushImmediateAgrees(inst: Inst)
    requires inst.opBytes in {1, 2, 4, 8}
    ensures PushImmediate(inst) == SignExtended(inst) <==> inst.opBytes <= 4 || SignExtended(inst) < B32
    ensures inst.opBytes == 8 && -0x8000_0000 <= inst.imm < 0x8000_0000 ==>
      (SignExtended(inst) < B32 <==> inst.imm >= 0)
  {
  }
}
