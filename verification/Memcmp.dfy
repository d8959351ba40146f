/** Comparing strings and branching on the outcome: repe cmps followed by a conditional jump. */
module Memcmp {
  import opened Bits
  import opened Machine
  import opened Isa
  import opened Updates
  import opened StringWalk
  import opened Branches
  import opened CompareRuns
  import opened StringSearch

  // Lexicographic order

  predicate LexLess(l: seq<Word>, r: seq<Word>)
    requires |l| == |r|
  {
    l != [] && (l[0] < r[0] || (l[0] == r[0] && LexLess(l[1..], r[1..])))
  }

  lemma {:induction false} FirstDifference(l: seq<Word>, r: seq<Word>, i: nat)
    requires |l| == |r| && i < |l| && l[..i] == r[..i] && l[i] != r[i]
    ensures LexLess(l, r) <==> l[i] < r[i]
    ensures LexLess(r, l) <==> r[i] < l[i]
  {
    if i > 0 {
      assert l[0] == l[..i][0] && r[0] == r[..i][0];
      assert l[1..][..i - 1] == l[..i][1..] && r[1..][..i - 1] == r[..i][1..];
      FirstDifference(l[1..], r[1..], i - 1);
    }
  }

  lemma {:induction false} NotLessItself(l: seq<Word>)
    ensures !LexLess(l, l)
  {
    if l != [] {
      NotLessItself(l[1..]);
    }
  }

  predicate Order(c: Cond, l: seq<Word>, r: seq<Word>)
    requires c in {JZ, JNZ, JB, JNB, JBE, JNBE} && |l| == |r|
  {
    match c
    case JZ => l == r
    case JNZ => l != r
    case JB => LexLess(l, r)
    case JNB => !LexLess(l, r)
    case JBE => l == r || LexLess(l, r)
    case JNBE => LexLess(r, l)
  }

  // The first k elements of the two strings.

  function Lefts(inst: Inst, e: Env, k: nat): (s: seq<Word>)
    requires Comparing(inst, Cmps) && ReadableUpTo(inst, e, Cmps, k)
    ensures |s| == k && forall j: nat :: j < k ==> ReadableAt(inst, e, Cmps, j) && s[j] == Left(inst, e, Cmps, j)
  {
    if k == 0 then [] else Lefts(inst, e, k - 1) + [Left(inst, e, Cmps, k - 1)]
  }

  function Rights(inst: Inst, e: Env, k: nat): (s: seq<Word>)
    requires Comparing(inst, Cmps) && ReadableUpTo(inst, e, Cmps, k)
    ensures |s| == k && forall j: nat :: j < k ==> ReadableAt(inst, e, Cmps, j) && s[j] == Right(inst, e, Cmps, j)
  {
    if k == 0 then [] else Rights(inst, e, k - 1) + [Right(inst, e, Cmps, k - 1)]
  }

  // A conditional jump has no memory operands.
  predicate IsJump(inst: Inst, c: Cond) {
    inst.form == Jcc(c) && Plain(inst)
  }

  lemma JumpReference(m: Machine, e: Env, inst: Inst, c: Cond)
    requires Decoded(inst, m.addr) && IsJump(inst, c)
    ensures OperandsReadable(inst, e)
    ensures
      var next := NextPC(m, inst, e);
      Reference(m, inst, e) == Next(LoadState(inst, e), if CondHolds(c, e.flags) then Target(m, inst, next) else next)
  {
    hide CondHolds, Target, NextPC;
  }

  lemma JumpStep(m: Machine, e: Env, inst: Inst, c: Cond)
    requires Fetched(m, e, inst) && IsJump(inst, c)
    ensures
      var next := NextPC(m, inst, e);
      Step(m, e) == Done(e.(regs := e.regs[RIP := if CondHolds(c, e.flags) then Target(m, inst, next) else next]))
  {
    hide CondHolds, Target, NextPC, Step, Reference, RegsReadable;
    JumpReference(m, e, inst, c);
    FetchedStep(m, e, inst);
  }

  // The flags that a finished comparison leaves decide the lexicographic order of the whole strings.
  lemma FlagsDecideOrder(l: seq<Word>, r: seq<Word>, n: nat, flags: Flags, c: Cond)
    requires c in {JZ, JNZ, JB, JNB, JBE, JNBE} && |l| == |r| && 1 <= n <= |l| && l[..n - 1] == r[..n - 1]
    requires ZF in flags <==> l[n - 1] == r[n - 1]
    requires CF in flags <==> l[n - 1] < r[n - 1]
    requires ZF in flags ==> n == |l|
    ensures CondHolds(c, flags) <==> Order(c, l, r)
  {
    hide LexLess;
    if l[n - 1] == r[n - 1] {
      assert l == r;
      NotLessItself(l);
    } else {
      FirstDifference(l, r, n - 1);
    }
  }

  // REPE CMPS and an unsigned conditional jump take the branch exactly when the two whole strings are in the
  // order that the jump stands for.
  lemma CompareThenBranch(m: Machine, e: Env, cmps: Inst, jump: Inst, c: Cond) returns (n: nat, e': Env)
    requires Fetched(m, e, cmps) && Comparing(cmps, Cmps) && cmps.form.rep == Repe && FitsMode(e.regs, m.addr)
    requires e.regs[RCX] > 0 && ReadableUpTo(cmps, e, Cmps, e.regs[RCX])
    requires c in {JZ, JNZ, JB, JNB, JBE, JNBE} && IsJump(jump, c)
    requires Fetched(m, MovedTo(e, NextPC(m, cmps, e)), jump)
    ensures n <= e.regs[RCX] && Run(m, e, n + 1) == Completed(e') && e'.mem == e.mem
    ensures
      var next := NextPC(m, jump, MovedTo(e, NextPC(m, cmps, e)));
      e'.regs[RIP] ==
        if Order(c, Lefts(cmps, e, e.regs[RCX]), Rights(cmps, e, e.regs[RCX])) then Target(m, jump, next) else next
  {
    hide Fetched, Step, Comparing, StringShape, ReadableAt, CompareEnv, FitsMode, Left, Right, Run, NextPC, Order;
    hide EndsAfter;
    hide CondHolds, Target, WalkRegs;
    n := LastComparison(cmps, e, Cmps);
    EndsWithin(cmps, e, n);
    var e1 := CompareEnv(m, cmps, e, Cmps, n, NextPC(m, cmps, e));
    CompareEnds(m, e, cmps, Cmps, n);
    EndState(m, cmps, e, Cmps, n);
    var moved := MovedTo(e, NextPC(m, cmps, e));
    SameFetch(m, moved, e1, jump);
    NextPcSame(m, jump, moved, e1);
    JumpStep(m, e1, jump, c);
    RunOneMore(m, e, n);
    e' := Step(m, e1).env;
    FlagsDecideOrder(Lefts(cmps, e, e.regs[RCX]), Rights(cmps, e, e.regs[RCX]), n, e1.flags, c);
  }

  lemma EndsWithin(inst: Inst, e: Env, n: nat)
    requires Comparing(inst, Cmps) && inst.form.rep == Repe && EndsAfter(inst, e, Cmps, n)
    requires ReadableUpTo(inst, e, Cmps, e.regs[RCX])
    ensures 1 <= n <= e.regs[RCX]
    ensures Lefts(inst, e, e.regs[RCX])[..n - 1] == Rights(inst, e, e.regs[RCX])[..n - 1]
    ensures n < e.regs[RCX] ==> Lefts(inst, e, e.regs[RCX])[n - 1] != Rights(inst, e, e.regs[RCX])[n - 1]
    ensures ReadableAt(inst, e, Cmps, n - 1)
    ensures Lefts(inst, e, e.regs[RCX])[n - 1] == Left(inst, e, Cmps, n - 1)
    ensures Rights(inst, e, e.regs[RCX])[n - 1] == Right(inst, e, Cmps, n - 1)
  {
    hide Comparing, StringShape, ReadableAt, Left, Right;
    forall j: nat | j < n - 1
      ensures Lefts(inst, e, e.regs[RCX])[j] == Rights(inst, e, e.regs[RCX])[j]
    {
      assert ReadableAt(inst, e, Cmps, j) && GoesOn(inst, e, Cmps, j);
    }
  }
}
