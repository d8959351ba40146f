/**
 The stack over whole runs (chapter 6 of the Intel 64 and IA-32 SDM, Volume 1): pushes and pops nest, so
 that every RET returns behind its CALL and every POP takes its PUSH's value.
 */
module StackRuns {
  import opened Bits
  import opened FlatMemory
  import opened Machine
  import opened Isa
  import opened Updates
  import opened StringWalk
  import opened StackSteps
  import opened Locality

  // Runs, as the states passed through and the instructions that led from each to the next

  ghost predicate Link(m: Machine, before: Env, inst: Inst, after: Env) {
    Fetched(m, before, inst) && Step(m, before) == Done(after)
  }

  ghost predicate Path(m: Machine, es: seq<Env>, insts: seq<Inst>) {
    && |es| == |insts| + 1
    && forall k {:trigger insts[k]} :: 0 <= k < |insts| ==> Link(m, es[k], insts[k], es[k + 1])
  }

  lemma {:induction false} PathIsRun(m: Machine, es: seq<Env>, insts: seq<Inst>, k: nat)
    requires Path(m, es, insts) && k <= |insts|
    ensures Run(m, es[0], k) == Completed(es[k])
  {
    hide Step, Fetched;
    if k != 0 {
      PathIsRun(m, es, insts, k - 1);
      assert Link(m, es[k - 1], insts[k - 1], es[k]);
      RunOneMore(m, es[0], k - 1);
    }
  }

  // Nesting, by counting alone

  function Effect(inst: Inst, a: AddrSize): int {
    if Pushes(inst, a) then 1 else if Pops(inst, a) then -1 else 0
  }

  // How many of the first k instructions' pushes are not popped again.
  function Depth(insts: seq<Inst>, a: AddrSize, k: nat): int
    requires k <= |insts|
  {
    if k == 0 then 0
    else Depth(insts, a, k - 1) + Effect(insts[k - 1], a)
  }

  // Instruction k pops what instruction j pushed: the depth in between stays above what it was before j.
  ghost predicate Matches(insts: seq<Inst>, a: AddrSize, j: nat, k: nat) {
    && j < k < |insts| && Pushes(insts[j], a) && Pops(insts[k], a)
    && Depth(insts, a, k + 1) == Depth(insts, a, j)
    && forall i :: j < i <= k ==> Depth(insts, a, i) > Depth(insts, a, j)
  }

  // The bytes from lo up to hi, and their permissions, are the same.
  ghost predicate Kept(mem: Flat, mem': Flat, lo: int, hi: int) {
    forall i :: lo <= i < hi && i in mem ==> i in mem' && mem'[i] == mem[i]
  }

  lemma KeptWithin(mem: Flat, mem': Flat, lo: int, hi: int, lo': int, hi': int)
    requires Kept(mem, mem', lo, hi) && lo <= lo' && hi' <= hi
    ensures Kept(mem, mem', lo', hi')
  {
  }

  lemma KeptSelf(mem: Flat, lo: int, hi: int)
    ensures Kept(mem, mem, lo, hi)
  {
  }

  lemma KeptOn(m0: Flat, m1: Flat, m2: Flat, lo: int, hi: int)
    requires Kept(m0, m1, lo, hi) && Kept(m1, m2, lo, hi)
    ensures Kept(m0, m2, lo, hi)
  {
  }

  // Other instructions leave the stack pointer alone, and the stack up to base.
  ghost predicate Quiet(before: Env, after: Env, base: int) {
    && after.regs[RSP] == before.regs[RSP]
    && Kept(before.mem, after.mem, before.regs[RSP], base)
  }

  ghost predicate NeverBelow(insts: seq<Inst>, a: AddrSize) {
    forall k :: 0 <= k <= |insts| ==> Depth(insts, a, k) >= 0
  }

  ghost predicate WidthsMatch(insts: seq<Inst>, a: AddrSize) {
    forall j: nat, k: nat :: Matches(insts, a, j, k) ==> insts[j].opBytes == insts[k].opBytes
  }

  ghost predicate PushesFit(es: seq<Env>, insts: seq<Inst>, a: AddrSize)
    requires |es| == |insts| + 1
  {
    forall k :: 0 <= k < |insts| && Pushes(insts[k], a) ==> insts[k].opBytes <= es[k].regs[RSP]
  }

  ghost predicate OthersQuiet(es: seq<Env>, insts: seq<Inst>, a: AddrSize)
    requires |es| == |insts| + 1
  {
    forall k {:trigger insts[k]} :: 0 <= k < |insts| && !Pushes(insts[k], a) && !Pops(insts[k], a) ==>
      Quiet(es[k], es[k + 1], es[0].regs[RSP])
  }

  // No step pops more than was pushed, matching instructions have the same width, pushes do not wrap
  // around, and all other instructions are quiet.
  ghost predicate Disciplined(m: Machine, es: seq<Env>, insts: seq<Inst>) {
    && Path(m, es, insts)
    && FitsMode(es[0].regs, m.addr)
    && NeverBelow(insts, m.addr)
    && WidthsMatch(insts, m.addr)
    && PushesFit(es, insts, m.addr)
    && OthersQuiet(es, insts, m.addr)
  }

  // The pushes still open before instruction k, the most recent last.
  function Open(insts: seq<Inst>, a: AddrSize, k: nat): seq<nat>
    requires k <= |insts|
  {
    if k == 0 then []
    else
      var s := Open(insts, a, k - 1);
      if Pushes(insts[k - 1], a) then s + [k - 1]
      else if Pops(insts[k - 1], a) && s != [] then s[..|s| - 1]
      else s
  }

  lemma NotBoth(inst: Inst, a: AddrSize)
    ensures !(Pushes(inst, a) && Pops(inst, a))
  {
  }

  lemma DepthNext(insts: seq<Inst>, a: AddrSize, k: nat)
    requires k < |insts|
    ensures Depth(insts, a, k + 1) == Depth(insts, a, k) + Effect(insts[k], a)
  {
  }

  ghost predicate OpenInvariant(insts: seq<Inst>, a: AddrSize, k: nat, s: seq<nat>)
    requires k <= |insts|
  {
    && |s| == Depth(insts, a, k)
    && (forall p :: 0 <= p < |s| ==> s[p] < k && Pushes(insts[s[p]], a) && Depth(insts, a, s[p]) == p)
    && forall p, i :: 0 <= p < |s| && s[p] < i <= k ==> Depth(insts, a, i) > p
  }

  lemma {:induction false} OpenAtDepth(insts: seq<Inst>, a: AddrSize, k: nat)
    requires k <= |insts| && NeverBelow(insts, a)
    ensures OpenInvariant(insts, a, k, Open(insts, a, k))
  {
    hide Pushes, Pops, Depth;
    if k == 0 {
      assert Depth(insts, a, 0) == 0 by { DepthZero(insts, a); }
    } else {
      OpenAtDepth(insts, a, k - 1);
      NotBoth(insts[k - 1], a);
      DepthNext(insts, a, k - 1);
    }
  }

  lemma DepthZero(insts: seq<Inst>, a: AddrSize)
    ensures Depth(insts, a, 0) == 0
  {
  }

  // Every pop has exactly one matching push.
  lemma MatchExists(insts: seq<Inst>, a: AddrSize, k: nat) returns (j: nat)
    requires k < |insts| && Pops(insts[k], a) && NeverBelow(insts, a)
    ensures Matches(insts, a, j, k)
    ensures var s := Open(insts, a, k); s != [] && s[|s| - 1] == j
  {
    hide Pushes, Pops, Depth;
    OpenAtDepth(insts, a, k);
    NotBoth(insts[k], a);
    DepthNext(insts, a, k);
    var s := Open(insts, a, k);
    j := s[|s| - 1];
  }

  lemma MatchUnique(insts: seq<Inst>, a: AddrSize, i: nat, j: nat, k: nat)
    requires Matches(insts, a, i, k) && Matches(insts, a, j, k)
    ensures i == j
  {
    hide Pushes, Pops, Depth;
    assert Depth(insts, a, i) == Depth(insts, a, j);
  }

  // Memory agrees with the open pushes: their values lie one above the other, from the stack pointer up
  // to where it was at the start.
  ghost predicate Holds(m: Machine, es: seq<Env>, insts: seq<Inst>, mem: Flat, sp: int, open: seq<nat>)
    requires |es| == |insts| + 1
    decreases |open|
  {
    if open == [] then sp == es[0].regs[RSP]
    else
      var j := open[|open| - 1];
      && j < |insts| && Pushes(insts[j], m.addr)
      && sp + insts[j].opBytes == es[j].regs[RSP]
      && Mapped(mem, sp, insts[j].opBytes)
      && ValueAt(mem, sp, insts[j].opBytes) == PushedValue(m, es[j], insts[j])
      && Holds(m, es, insts, mem, sp + insts[j].opBytes, open[..|open| - 1])
  }

  lemma SameBytes(mem: Flat, mem': Flat, a: int, n: nat)
    requires Mapped(mem, a, n)
    requires Kept(mem, mem', a, a + n)
    ensures Mapped(mem', a, n) && ValueAt(mem', a, n) == ValueAt(mem, a, n)
  {
    assert BytesAt(mem', a, n) == BytesAt(mem, a, n);
  }

  lemma {:induction false} HoldsKept(m: Machine, es: seq<Env>, insts: seq<Inst>, mem: Flat, mem': Flat, sp: int,
                                     open: seq<nat>)
    requires |es| == |insts| + 1 && Holds(m, es, insts, mem, sp, open)
    requires Kept(mem, mem', sp, es[0].regs[RSP])
    ensures sp <= es[0].regs[RSP] && Holds(m, es, insts, mem', sp, open)
    decreases |open|
  {
    hide PushedValue, ValueAt, Mapped, Kept;
    if open != [] {
      var j, base := open[|open| - 1], es[0].regs[RSP];
      PushSize(insts[j], m.addr);
      KeptWithin(mem, mem', sp, base, sp + insts[j].opBytes, base);
      HoldsKept(m, es, insts, mem, mem', sp + insts[j].opBytes, open[..|open| - 1]);
      KeptWithin(mem, mem', sp, base, sp, sp + insts[j].opBytes);
      SameBytes(mem, mem', sp, insts[j].opBytes);
    }
  }

  lemma {:induction false} PathFits(m: Machine, es: seq<Env>, insts: seq<Inst>, k: nat)
    requires Path(m, es, insts) && FitsMode(es[0].regs, m.addr) && k <= |insts|
    ensures FitsMode(es[k].regs, m.addr)
  {
    hide Step, Fetched, FitsMode;
    if k != 0 {
      PathFits(m, es, insts, k - 1);
      assert Link(m, es[k - 1], insts[k - 1], es[k]);
      StepFits(m, es[k - 1]);
    }
  }

  lemma StackBound(m: Machine, e: Env)
    requires FitsMode(e.regs, m.addr)
    ensures e.regs[RSP] < Bound(m.addr)
  {
  }

  // What a push leaves in memory, and keeps of it.
  lemma PushKeeps(m: Machine, e: Env, inst: Inst)
    requires Pushes(inst, m.addr) && Mapped(e.mem, e.regs[RSP] - inst.opBytes, inst.opBytes)
    ensures
      var sp := e.regs[RSP] - inst.opBytes;
      var mem := StoreValue(e.mem, sp, inst.opBytes, PushedValue(m, e, inst));
      && Mapped(mem, sp, inst.opBytes) && ValueAt(mem, sp, inst.opBytes) == PushedValue(m, e, inst)
      && forall hi :: Kept(e.mem, mem, e.regs[RSP], hi)
  {
    hide Pushes, PushedValue, ValueAt;
    PushSize(inst, m.addr);
    PushedFits(m, e, inst);
    ReadBack(e.mem, e.regs[RSP] - inst.opBytes, inst.opBytes, PushedValue(m, e, inst));
  }

  // One more value on top of those that memory holds.
  lemma HoldsPush(m: Machine, es: seq<Env>, insts: seq<Inst>, mem: Flat, mem': Flat, open: seq<nat>, k: nat)
    requires |es| == |insts| + 1 && k < |insts| && Pushes(insts[k], m.addr)
    requires Holds(m, es, insts, mem, es[k].regs[RSP], open) && Kept(mem, mem', es[k].regs[RSP], es[0].regs[RSP])
    requires insts[k].opBytes >= 0
    requires
      var sp := es[k].regs[RSP] - insts[k].opBytes;
      Mapped(mem', sp, insts[k].opBytes) && ValueAt(mem', sp, insts[k].opBytes) == PushedValue(m, es[k], insts[k])
    ensures es[k].regs[RSP] <= es[0].regs[RSP]
    ensures Holds(m, es, insts, mem', es[k].regs[RSP] - insts[k].opBytes, open + [k])
  {
    hide PushedValue, ValueAt, Mapped, Pushes, Kept;
    HoldsKept(m, es, insts, mem, mem', es[k].regs[RSP], open);
    var more := open + [k];
    assert more[..|more| - 1] == open;
  }

  lemma OpenPush(insts: seq<Inst>, a: AddrSize, k: nat)
    requires k < |insts| && Pushes(insts[k], a)
    ensures Open(insts, a, k + 1) == Open(insts, a, k) + [k]
  {
    hide Pushes, Pops;
  }

  lemma PushFits(m: Machine, es: seq<Env>, insts: seq<Inst>, k: nat)
    requires Disciplined(m, es, insts) && k < |insts| && Pushes(insts[k], m.addr)
    ensures Link(m, es[k], insts[k], es[k + 1]) && FitsMode(es[k].regs, m.addr)
    ensures 0 <= insts[k].opBytes <= es[k].regs[RSP]
  {
    hide Step, Fetched, FitsMode, Pops, WidthsMatch, OthersQuiet, NeverBelow;
    PathFits(m, es, insts, k);
    PushSize(insts[k], m.addr);
  }

  lemma AfterPush(m: Machine, es: seq<Env>, insts: seq<Inst>, k: nat, hi: int)
    requires Disciplined(m, es, insts) && k < |insts| && Pushes(insts[k], m.addr)
    requires Holds(m, es, insts, es[k].mem, es[k].regs[RSP], Open(insts, m.addr, k))
    ensures Holds(m, es, insts, es[k + 1].mem, es[k + 1].regs[RSP], Open(insts, m.addr, k + 1))
    ensures es[k].regs[RSP] <= es[0].regs[RSP] && Kept(es[k].mem, es[k + 1].mem, es[k].regs[RSP], hi)
  {
    hide Step, Fetched, FitsMode, PushedValue, ValueAt, Mapped, StoreValue, Pushes, Pops, NextPC, Holds, Open, Kept;
    hide WidthsMatch, OthersQuiet, NeverBelow, PushesFit;
    PushFits(m, es, insts, k);
    PushStep(m, es[k], insts[k]);
    PushKeeps(m, es[k], insts[k]);
    HoldsPush(m, es, insts, es[k].mem, es[k + 1].mem, Open(insts, m.addr, k), k);
    OpenPush(insts, m.addr, k);
  }

  lemma PopFits(m: Machine, es: seq<Env>, insts: seq<Inst>, k: nat) returns (j: nat)
    requires Disciplined(m, es, insts) && k < |insts| && Pops(insts[k], m.addr)
    requires Holds(m, es, insts, es[k].mem, es[k].regs[RSP], Open(insts, m.addr, k))
    ensures Link(m, es[k], insts[k], es[k + 1]) && FitsMode(es[k].regs, m.addr)
    ensures Matches(insts, m.addr, j, k) && j < k && Pushes(insts[j], m.addr) && insts[j].opBytes == insts[k].opBytes
    ensures Open(insts, m.addr, k) == Open(insts, m.addr, k + 1) + [j]
    ensures es[j].regs[RSP] < Bound(m.addr)
  {
    hide Step, Fetched, FitsMode, PushedValue, ValueAt, Mapped, Pushes, Pops, OthersQuiet, Matches, PushesFit, Holds;
    PathFits(m, es, insts, k);
    j := MatchExists(insts, m.addr, k);
    MatchedPush(insts, m.addr, j, k);
    PathFits(m, es, insts, j);
    StackBound(m, es[j]);
    NotBoth(insts[k], m.addr);
    var open := Open(insts, m.addr, k);
    assert open == open[..|open| - 1] + [j];
  }

  // The value on top, and the others below it.
  lemma HoldsTop(m: Machine, es: seq<Env>, insts: seq<Inst>, mem: Flat, sp: int, open: seq<nat>, j: nat)
    requires |es| == |insts| + 1 && Holds(m, es, insts, mem, sp, open + [j])
    ensures j < |insts| && Pushes(insts[j], m.addr) && insts[j].opBytes >= 0
    ensures Mapped(mem, sp, insts[j].opBytes) && ValueAt(mem, sp, insts[j].opBytes) == PushedValue(m, es[j], insts[j])
    ensures sp + insts[j].opBytes == es[j].regs[RSP] && Holds(m, es, insts, mem, es[j].regs[RSP], open)
  {
    hide PushedValue, ValueAt, Mapped, Pushes;
    var all := open + [j];
    assert all[..|all| - 1] == open;
    PushSize(insts[j], m.addr);
  }

  lemma AfterPop(m: Machine, es: seq<Env>, insts: seq<Inst>, k: nat)
    requires Disciplined(m, es, insts) && k < |insts| && Pops(insts[k], m.addr)
    requires Holds(m, es, insts, es[k].mem, es[k].regs[RSP], Open(insts, m.addr, k))
    ensures Holds(m, es, insts, es[k + 1].mem, es[k + 1].regs[RSP], Open(insts, m.addr, k + 1))
    ensures es[k + 1].mem == es[k].mem
    ensures forall j: nat :: Matches(insts, m.addr, j, k) ==> Restores(m, es, insts, j, k)
  {
    hide Step, Fetched, FitsMode, PushedValue, ValueAt, Mapped, Pushes, Pops, Matches, NextPC, Get, Wrap, Low, Holds;
    hide Open;
    hide Bound, Calls, WidthsMatch, OthersQuiet, NeverBelow, PushesFit;
    var j := PopFits(m, es, insts, k);
    HoldsTop(m, es, insts, es[k].mem, es[k].regs[RSP], Open(insts, m.addr, k + 1), j);
    PopStep(m, es[k], insts[k]);
    PushedReturns(m, es[j], insts[j]);
    forall i: nat | Matches(insts, m.addr, i, k)
      ensures Restores(m, es, insts, i, k)
    {
      MatchUnique(insts, m.addr, i, j, k);
    }
  }

  lemma MatchedPush(insts: seq<Inst>, a: AddrSize, j: nat, k: nat)
    requires Matches(insts, a, j, k)
    ensures j < k < |insts| && Pushes(insts[j], a) && Pops(insts[k], a)
  {
  }

  lemma PushedReturns(m: Machine, e: Env, inst: Inst)
    requires Pushes(inst, m.addr)
    ensures Low(PushedValue(m, e, inst)) == PushedValue(m, e, inst)
    ensures Calls(inst.form) ==> Wrap(m.addr, PushedValue(m, e, inst)) == NextPC(m, inst, e)
  {
    hide OperandsReadable, Get;
  }

  // Instruction k takes back what instruction j pushed: the stack pointer is where it was before j, a RET
  // continues at the pushed value, which for a CALL is behind it, and a POP loads the pushed value.
  ghost predicate Restores(m: Machine, es: seq<Env>, insts: seq<Inst>, j: nat, k: nat) {
    && j < k < |insts| < |es| && Pushes(insts[j], m.addr) && Pops(insts[k], m.addr)
    && es[k + 1].regs[RSP] == es[j].regs[RSP]
    && (insts[k].form.Ret? ==> es[k + 1].regs[RIP] == Wrap(m.addr, PushedValue(m, es[j], insts[j])))
    && (insts[k].form.Ret? && Calls(insts[j].form) ==> es[k + 1].regs[RIP] == NextPC(m, insts[j], es[j]))
    && (insts[k].form.PopReg? ==> Get(es[k + 1].regs, insts[k].regs[0].reg) == PushedValue(m, es[j], insts[j]))
  }

  // The invariant of every disciplined run.
  lemma {:induction false} StackHolds(m: Machine, es: seq<Env>, insts: seq<Inst>, k: nat)
    requires Disciplined(m, es, insts) && k <= |insts|
    ensures Holds(m, es, insts, es[k].mem, es[k].regs[RSP], Open(insts, m.addr, k))
  {
    hide Step, Fetched, FitsMode, PushedValue, ValueAt, Mapped, Pushes, Pops, Matches;
    if k != 0 {
      var j := k - 1;
      StackHolds(m, es, insts, j);
      if Pushes(insts[j], m.addr) {
        AfterPush(m, es, insts, j, 0);
      } else if Pops(insts[j], m.addr) {
        AfterPop(m, es, insts, j);
      } else {
        HoldsKept(m, es, insts, es[j].mem, es[k].mem, es[j].regs[RSP], Open(insts, m.addr, j));
      }
    }
  }

  // Calls and returns, and pushes and pops, nest in every disciplined run: each pop has exactly one matching
  // push, and restores it.
  lemma PopsRestorePushes(m: Machine, es: seq<Env>, insts: seq<Inst>, k: nat) returns (j: nat)
    requires Disciplined(m, es, insts) && k < |insts| && Pops(insts[k], m.addr)
    ensures Matches(insts, m.addr, j, k) && Restores(m, es, insts, j, k)
    ensures forall i: nat :: Matches(insts, m.addr, i, k) ==> i == j
  {
    hide Path, FitsMode, Pushes, Pops, Matches, Restores, Holds;
    StackHolds(m, es, insts, k);
    AfterPop(m, es, insts, k);
    j := MatchExists(insts, m.addr, k);
    forall i: nat | Matches(insts, m.addr, i, k)
      ensures i == j
    {
      MatchUnique(insts, m.addr, i, j, k);
    }
  }

  // After a balanced run the stack pointer is back where it was.
  lemma BalancedStack(m: Machine, es: seq<Env>, insts: seq<Inst>)
    requires Disciplined(m, es, insts) && Depth(insts, m.addr, |insts|) == 0
    ensures Run(m, es[0], |insts|) == Completed(es[|insts|])
    ensures es[|insts|].regs[RSP] == es[0].regs[RSP]
  {
    hide FitsMode, Pushes, Pops, Matches, Run;
    PathIsRun(m, es, insts, |insts|);
    StackHolds(m, es, insts, |insts|);
    OpenAtDepth(insts, m.addr, |insts|);
  }

  // If all the instructions push or pop, memory at or above the initial stack pointer is unchanged.
  lemma {:induction false} AboveStackUnchanged(m: Machine, es: seq<Env>, insts: seq<Inst>, k: nat, hi: int)
    requires Disciplined(m, es, insts) && k <= |insts|
    requires forall i :: 0 <= i < |insts| ==> Pushes(insts[i], m.addr) || Pops(insts[i], m.addr)
    ensures Kept(es[0].mem, es[k].mem, es[0].regs[RSP], hi)
  {
    hide Fetched, Step, FitsMode, Pushes, Pops, Matches, Holds, Restores, Quiet, Kept;
    assert Kept(es[0].mem, es[0].mem, es[0].regs[RSP], hi) by { KeptSelf(es[0].mem, es[0].regs[RSP], hi); }
    if k != 0 {
      AboveStackUnchanged(m, es, insts, k - 1, hi);
      StackHolds(m, es, insts, k - 1);
      var sp, base := es[k - 1].regs[RSP], es[0].regs[RSP];
      if Pushes(insts[k - 1], m.addr) {
        AfterPush(m, es, insts, k - 1, hi);
        KeptWithin(es[k - 1].mem, es[k].mem, sp, hi, base, hi);
        KeptOn(es[0].mem, es[k - 1].mem, es[k].mem, base, hi);
      } else {
        AfterPop(m, es, insts, k - 1);
      }
    }
  }

  // A check for quiet instructions: they do not write the stack pointer, and the memory operands they
  // write lie outside the stack.
  ghost predicate WritesOutside(inst: Inst, e: Env, base: int) {
    && RSP !in WrittenIds(inst)
    && forall i :: 0 <= i < |inst.mems| && inst.mems[i].written ==>
      AddressOf(inst, i, e.regs) + inst.mems[i].size <= e.regs[RSP] || base <= AddressOf(inst, i, e.regs)
  }

  lemma WriteBackOutside(a: AddrSize, inst: Inst, e: Env, mem: Flat, i: nat, v: nat, base: int)
    requires Decoded(inst, a) && OperandsReadable(inst, e) && mem.Keys == e.mem.Keys && WritesOutside(inst, e, base)
    ensures Kept(mem, WriteBack(a, inst, e, mem, i, v), e.regs[RSP], base)
  {
    hide AddressOf, Decoded, OperandsReadable, WrittenIds;
    if i < |inst.mems| && inst.mems[i].written {
      WrittenIsMapped(inst, e, i, a);
    }
  }

  lemma OutsideCommit(m: Machine, inst: Inst, e: Env, s: State, pc: Word, base: int)
    requires Decoded(inst, m.addr) && OperandsReadable(inst, e) && WritesOutside(inst, e, base)
    ensures Kept(e.mem, Commit(m, inst, e, s, pc).mem, e.regs[RSP], base)
  {
    hide WriteBack, Decoded, OperandsReadable, WritesOutside, Kept;
    var mem0 := WriteBack(m.addr, inst, e, e.mem, 0, s.mem0);
    WriteBackOutside(m.addr, inst, e, e.mem, 0, s.mem0, base);
    WriteBackOutside(m.addr, inst, e, mem0, 1, s.mem1, base);
    KeptOn(e.mem, mem0, WriteBack(m.addr, inst, e, mem0, 1, s.mem1), e.regs[RSP], base);
  }

  lemma OutsideIsQuiet(m: Machine, e: Env, inst: Inst, base: int)
    requires Fetched(m, e, inst) && Step(m, e).Done? && WritesOutside(inst, e, base)
    ensures Quiet(e, Step(m, e).env, base)
  {
    hide Step, Decoded, OperandsReadable, RegsReadable, ReadSet, Transform, Commit, WritesOutside, WrittenIds, Kept;
    hide AddressOf, MemValue, NextPC, UsedIds;
    GrantedStep(m, e, inst);
    KeptSelf(e.mem, e.regs[RSP], base);
    if !inst.nop {
      var o := Reference(m, inst, e);
      OutsideCommit(m, inst, e, o.s, o.pc, base);
      StackPointerKept(m, e, inst, base);
      CommitRegs(m, inst, e, o.s, o.pc);
    }
  }

  lemma CommitRegs(m: Machine, inst: Inst, e: Env, s: State, pc: Word)
    requires Decoded(inst, m.addr) && OperandsReadable(inst, e)
    ensures Commit(m, inst, e, s, pc).regs == s.regs[RIP := pc]
  {
    hide WriteBack, Decoded, OperandsReadable;
  }

  lemma StackPointerKept(m: Machine, e: Env, inst: Inst, base: int)
    requires Decoded(inst, m.addr) && OperandsReadable(inst, e) && WritesOutside(inst, e, base)
    requires Reference(m, inst, e).Next?
    ensures Reference(m, inst, e).s.regs[RSP] == e.regs[RSP]
  {
    hide Transform, Decoded, OperandsReadable, MemValue, AddressOf, WrittenIds;
    RegsFrame(m, inst, LoadState(inst, e), e.regs[RIP], NextPC(m, inst, e), RSP);
  }
}
