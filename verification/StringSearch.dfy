/** What REPE CMPS and REPNE SCAS compute, once they stop: a lexicographic comparison, and a search. */
module StringSearch {
  import opened Machine
  import opened Isa
  import opened StringWalk
  import opened StoreRuns
  import opened Compare
  import opened CompareRuns

  // The n-th comparison is the last: it is the first that does not go on, or the count is used up.
  ghost predicate EndsAfter(inst: Inst, e: Env, op: StrOp, n: nat)
    requires Comparing(inst, op)
  {
    && 1 <= n <= e.regs[RCX] && ReadableUpTo(inst, e, op, n)
    && AllGoOn(inst, e, op, n - 1)
    && (n == e.regs[RCX] || (ReadableAt(inst, e, op, n - 1) && !GoesOn(inst, e, op, n - 1)))
  }

  // There is one, whatever the strings hold.
  lemma LastComparison(inst: Inst, e: Env, op: StrOp) returns (n: nat)
    requires Comparing(inst, op) && e.regs[RCX] > 0 && ReadableUpTo(inst, e, op, e.regs[RCX])
    ensures EndsAfter(inst, e, op, n)
  {
    hide Comparing, StringShape, ReadableAt, GoesOn;
    n := 1;
    while n < e.regs[RCX] && ReadableAt(inst, e, op, n - 1) && GoesOn(inst, e, op, n - 1)
      invariant 1 <= n <= e.regs[RCX] && AllGoOn(inst, e, op, n - 1)
    {
      n := n + 1;
    }
  }

  // The whole run: it stays at the instruction until the last comparison, and then moves on.
  lemma CompareEnds(m: Machine, e: Env, inst: Inst, op: StrOp, n: nat)
    requires Fetched(m, e, inst) && Comparing(inst, op) && FitsMode(e.regs, m.addr) && EndsAfter(inst, e, op, n)
    ensures Run(m, e, n) == Completed(CompareEnv(m, inst, e, op, n, NextPC(m, inst, e)))
    ensures forall k: nat :: k < n ==> StillAt(Run(m, e, k), e.regs[RIP])
  {
    hide Fetched, Step, Comparing, StringShape, ReadableAt, GoesOn, CompareEnv, FitsMode, WalkRegs, Stride, Run;
    assert ReadableAt(inst, e, op, n - 1);
    CompareRun(m, e, inst, op, n - 1);
    CompareStep(m, e, inst, op, n - 1);
    RunOneMore(m, e, n - 1);
    forall k: nat | k < n
      ensures StillAt(Run(m, e, k), e.regs[RIP])
    {
      CompareRun(m, e, inst, op, k);
      CompareEnvIs(m, inst, e, op, k, e.regs[RIP]);
    }
  }

  // What a stopped comparison leaves: the count lowered and the pointers moved by n, memory untouched.
  ghost predicate LeftBy(m: Machine, inst: Inst, e: Env, op: StrOp, n: nat, e': Env) {
    && n <= e.regs[RCX]
    && e' == e.(regs := e'.regs, flags := e'.flags)
    && e'.regs == WalkRegs(m.addr, e.regs, op, Stride(inst, e.flags), n)[RIP := NextPC(m, inst, e)]
    && e'.regs[RCX] == e.regs[RCX] - n
  }

  lemma EndState(m: Machine, inst: Inst, e: Env, op: StrOp, n: nat)
    requires Comparing(inst, op) && EndsAfter(inst, e, op, n)
    ensures
      var e' := CompareEnv(m, inst, e, op, n, NextPC(m, inst, e));
      && LeftBy(m, inst, e, op, n, e') && ReadableAt(inst, e, op, n - 1)
      && (ZF in e'.flags <==> Left(inst, e, op, n - 1) == Right(inst, e, op, n - 1))
      && (CF in e'.flags <==> Left(inst, e, op, n - 1) < Right(inst, e, op, n - 1))
  {
    hide WalkRegs, StringShape, Stride, NextPC, ReadableAt, Left, Right, GoesOn, CompareFlags;
    ComparingIs(inst, op);
    CompareEnvIs(m, inst, e, op, n, NextPC(m, inst, e));
    WalkLeaves(m.addr, e.regs, op, Stride(inst, e.flags), n, RAX);
    assert ReadableAt(inst, e, op, n - 1);
    CompareMeans(m, e.flags, Left(inst, e, op, n - 1), Right(inst, e, op, n - 1), inst.opBytes);
  }

  ghost predicate SameElement(inst: Inst, e: Env, op: StrOp, j: nat)
    requires Comparing(inst, op) && ReadableAt(inst, e, op, j)
  {
    Left(inst, e, op, j) == Right(inst, e, op, j)
  }

  // REPE CMPS is a lexicographic comparison in the direction of DF: ZF says whether all elements
  // are equal; if not, it stops just past the first that differ, and CF says which string is less.
  lemma RepeCmpsCompares(m: Machine, e: Env, inst: Inst, n: nat) returns (e': Env)
    requires Fetched(m, e, inst) && Comparing(inst, Cmps) && inst.form.rep == Repe && FitsMode(e.regs, m.addr)
    requires EndsAfter(inst, e, Cmps, n)
    ensures Run(m, e, n) == Completed(e') && LeftBy(m, inst, e, Cmps, n, e')
    ensures forall k: nat :: k < n ==> StillAt(Run(m, e, k), e.regs[RIP])
    ensures forall j: nat :: j < n ==> ReadableAt(inst, e, Cmps, j)
    ensures ZF in e'.flags <==> n == e.regs[RCX] && forall j: nat :: j < n ==> SameElement(inst, e, Cmps, j)
    ensures ZF !in e'.flags ==>
      && (forall j: nat :: j < n - 1 ==> SameElement(inst, e, Cmps, j))
      && !SameElement(inst, e, Cmps, n - 1)
      && (CF in e'.flags <==> Left(inst, e, Cmps, n - 1) < Right(inst, e, Cmps, n - 1))
  {
    hide Fetched, Step, Comparing, StringShape, ReadableAt, CompareEnv, FitsMode, Left, Right, Run, LeftBy, NextPC;
    CompareEnds(m, e, inst, Cmps, n);
    EndState(m, inst, e, Cmps, n);
    e' := CompareEnv(m, inst, e, Cmps, n, NextPC(m, inst, e));
    forall j: nat | j < n - 1
      ensures ReadableAt(inst, e, Cmps, j) && SameElement(inst, e, Cmps, j)
    {
      assert ReadableAt(inst, e, Cmps, j) && GoesOn(inst, e, Cmps, j);
    }
    assert n == e.regs[RCX] || !SameElement(inst, e, Cmps, n - 1);
    assert ZF in e'.flags <==> SameElement(inst, e, Cmps, n - 1);
  }

  // REPNE SCAS finds the first element equal to the accumulator, and stops just past it; or it
  // exhausts the count without finding one, and ZF says which.
  lemma RepneScasFinds(m: Machine, e: Env, inst: Inst, n: nat) returns (e': Env)
    requires Fetched(m, e, inst) && Comparing(inst, Scas) && inst.form.rep == Repne && FitsMode(e.regs, m.addr)
    requires EndsAfter(inst, e, Scas, n)
    ensures Run(m, e, n) == Completed(e') && LeftBy(m, inst, e, Scas, n, e')
    ensures forall k: nat :: k < n ==> StillAt(Run(m, e, k), e.regs[RIP])
    ensures forall j: nat :: j < n ==> ReadableAt(inst, e, Scas, j)
    ensures forall j: nat :: j < n - 1 ==> !SameElement(inst, e, Scas, j)
    ensures ZF in e'.flags <==> SameElement(inst, e, Scas, n - 1)
    ensures ZF !in e'.flags ==> n == e.regs[RCX] && forall j: nat :: j < n ==> !SameElement(inst, e, Scas, j)
  {
    hide Fetched, Step, Comparing, StringShape, ReadableAt, CompareEnv, FitsMode, Left, Right, Run, LeftBy, NextPC;
    CompareEnds(m, e, inst, Scas, n);
    EndState(m, inst, e, Scas, n);
    e' := CompareEnv(m, inst, e, Scas, n, NextPC(m, inst, e));
    forall j: nat | j < n - 1
      ensures ReadableAt(inst, e, Scas, j) && !SameElement(inst, e, Scas, j)
    {
      assert ReadableAt(inst, e, Scas, j) && GoesOn(inst, e, Scas, j);
    }
  }
}
