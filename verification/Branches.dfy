/**
 What jumps do, in numbers: on the flags of a difference, by the condition codes of the SDM, and by registers
 and tables in memory.
 */
module Branches {
  import opened Bits
  import opened Machine
  import opened Isa
  import opened Updates
  import opened Compare
  import opened StringWalk

  // A jump with no operands to speak of.
  predicate Plain(inst: Inst) {
    inst.mems == [] && !inst.nop && !inst.unsupported && !inst.usesFpu
  }

  // Where an instruction that does not branch continues.
  function Behind(m: Machine, e: Env, inst: Inst): Word {
    (e.regs[RIP] + inst.length) % Bound(m.addr)
  }

  function Branched(m: Machine, e: Env, inst: Inst): Word {
    (Behind(m, e, inst) + inst.branchDisp) % Bound(m.addr)
  }

  lemma BehindSame(m: Machine, e: Env, e': Env, inst: Inst)
    requires e'.regs[RIP] == e.regs[RIP]
    ensures Behind(m, e', inst) == Behind(m, e, inst) && Branched(m, e', inst) == Branched(m, e, inst)
  {
  }

  // The state commits unchanged when an instruction has no memory operand and changes nothing.
  lemma OnlyMoves(m: Machine, e: Env, inst: Inst, pc: Word)
    requires Fetched(m, e, inst) && Plain(inst)
    requires OperandsReadable(inst, e) ==> Reference(m, inst, e) == Next(LoadState(inst, e), pc)
    ensures Step(m, e) == Done(MovedTo(e, pc))
  {
    hide Step, Reference, Decoded, RegsReadable;
    FetchedStep(m, e, inst);
  }

  // Flags

  function Signed(x: nat, p: Part): int {
    if x < PartBound(p) / 2 then x else x - PartBound(p)
  }

  predicate InRange(x: int, p: Part) {
    -(PartBound(p) / 2) <= x < PartBound(p) / 2
  }

  function Difference(l: nat, r: nat, p: Part): nat {
    (l - r) % PartBound(p)
  }

  // The status flags are those of the difference l - r of operands of a width (section 3.4.3.1 of the SDM).
  ghost predicate DifferenceFlags(f: Flags, l: nat, r: nat, p: Part) {
    && l < PartBound(p) && r < PartBound(p)
    && (ZF in f <==> l == r)
    && (CF in f <==> l < r)
    && (SF in f <==> Signed(Difference(l, r, p), p) < 0)
    && (OF in f <==> !InRange(Signed(l, p) - Signed(r, p), p))
    && (PF in f <==> Ones(Difference(l, r, p) % 0x100, 8) % 2 == 0)
  }

  // The relation of the operands, as unsigned or signed numbers, that each condition stands for.
  predicate Stands(c: Cond, l: nat, r: nat, p: Part) {
    match c
    case JZ => l == r
    case JNZ => l != r
    case JB => l < r
    case JNB => l >= r
    case JBE => l <= r
    case JNBE => l > r
    case JL => Signed(l, p) < Signed(r, p)
    case JNL => Signed(l, p) >= Signed(r, p)
    case JLE => Signed(l, p) <= Signed(r, p)
    case JNLE => Signed(l, p) > Signed(r, p)
    case JS => Signed(Difference(l, r, p), p) < 0
    case JNS => Signed(Difference(l, r, p), p) >= 0
    case JO => !InRange(Signed(l, p) - Signed(r, p), p)
    case JNO => InRange(Signed(l, p) - Signed(r, p), p)
    case JP => Ones(Difference(l, r, p) % 0x100, 8) % 2 == 0
    case JNP => Ones(Difference(l, r, p) % 0x100, 8) % 2 == 1
  }

  // The sign of a difference is that of the true one, unless that is out of range.
  lemma SignedDifference(l: nat, r: nat, p: Part)
    requires l < PartBound(p) && r < PartBound(p)
    ensures
      var d := Signed(l, p) - Signed(r, p);
      Signed(Difference(l, r, p), p) ==
        if InRange(d, p) then d else if d < 0 then d + PartBound(p) else d - PartBound(p)
    ensures Signed(l, p) == Signed(r, p) <==> l == r
  {
    var b := PartBound(p);
    if l >= r {
      DivModUnique(l - r, b, 0, l - r);
    } else {
      DivModUnique(l - r, b, -1, l - r + b);
    }
  }

  lemma ConditionsStand(f: Flags, l: nat, r: nat, p: Part, c: Cond)
    requires DifferenceFlags(f, l, r, p)
    ensures CondHolds(c, f) <==> Stands(c, l, r, p)
  {
    hide Ones, Signed, Difference, InRange;
    SignedDifference(l, r, p);
    SignOfDifference(l, r, p);
  }

  lemma SignOfDifference(l: nat, r: nat, p: Part)
    requires l < PartBound(p) && r < PartBound(p)
    ensures Signed(l, p) < Signed(r, p) <==>
      (Signed(Difference(l, r, p), p) < 0) != !InRange(Signed(l, p) - Signed(r, p), p)
  {
    hide Difference;
    SignedDifference(l, r, p);
  }

  // The host's shift, if it gave the top bit of an operand of a width.
  ghost predicate ShiftsToTop(m: Machine, p: Part) {
    forall x: Word :: m.shiftBit(x, PartBound(p) / 2) <==> x % PartBound(p) >= PartBound(p) / 2
  }

  // The flags of an emulated comparison are those of the difference, SF and OF too, if the shift gives the top bit.
  lemma ComparedIfShifted(m: Machine, flags: Flags, l: Word, r: Word, opBytes: int)
    requires opBytes in {1, 2, 4, 8} && l < PartBound(PartOf(opBytes)) && r < PartBound(PartOf(opBytes))
    requires ShiftsToTop(m, PartOf(opBytes))
    ensures DifferenceFlags(CompareFlags(m, flags, l, r, opBytes), l, r, PartOf(opBytes))
  {
    hide CompareFlags, Ones, Signed, InRange, Difference, PartBound, PartOf, ShiftsToTop;
    var p := PartOf(opBytes);
    CompareMeans(m, flags, l, r, opBytes);
    CompareSigns(m, flags, l, r, opBytes);
    TopBits(m, l, r, p);
    Overflows(l, r, p);
  }

  lemma TopBits(m: Machine, l: Word, r: Word, p: Part)
    requires ShiftsToTop(m, p) && l < PartBound(p) && r < PartBound(p)
    ensures
      var half := PartBound(p) / 2;
      && (m.shiftBit(l, half) <==> l >= half) && (m.shiftBit(r, half) <==> r >= half)
      && (m.shiftBit((l - r) % B64, half) <==> Difference(l, r, p) >= half)
      && (l - r) % 0x100 == Difference(l, r, p) % 0x100
  {
    PartBoundIs(p);
    hide PartBound;
    NarrowMod(l - r, PartBound(p));
    DivModUnique(l, PartBound(p), 0, l);
    DivModUnique(r, PartBound(p), 0, r);
  }

  lemma PartBoundIs(p: Part)
    ensures PartBound(p) in {B8, B16, B32, B64}
  {
  }

  // A difference overflows if its sign is not that of the first operand, which is not that of the second.
  lemma Overflows(l: nat, r: nat, p: Part)
    requires l < PartBound(p) && r < PartBound(p)
    ensures
      var half := PartBound(p) / 2;
      && (Signed(Difference(l, r, p), p) < 0 <==> Difference(l, r, p) >= half)
      && (!InRange(Signed(l, p) - Signed(r, p), p) <==>
            (l >= half) != (r >= half) && (l >= half) != (Difference(l, r, p) >= half))
  {
    hide Difference;
    SignedDifference(l, r, p);
    assert Difference(l, r, p) < PartBound(p) by { DifferenceBound(l, r, p); }
  }

  lemma DifferenceBound(l: nat, r: nat, p: Part)
    ensures Difference(l, r, p) < PartBound(p)
  {
  }

  lemma CompareSigns(m: Machine, flags: Flags, l: Word, r: Word, opBytes: int)
    requires opBytes in {1, 2, 4, 8}
    ensures
      var half := PartBound(PartOf(opBytes)) / 2;
      var f, d := CompareFlags(m, flags, l, r, opBytes), (l - r) % B64;
      && (SF in f <==> m.shiftBit(d, half))
      && (OF in f <==> m.shiftBit(l, half) != m.shiftBit(r, half) && m.shiftBit(l, half) != m.shiftBit(d, half))
  {
    hide ParityFlag, PartBound, PartOf;
  }

  lemma NarrowMod(x: int, b: int)
    requires b in {B8, B16, B32, B64}
    ensures x % B64 % b == x % b && x % b % 0x100 == x % 0x100
  {
    ModOfMod(x, 0x100_0000_0000_0000, 0x100);
    if b == B16 {
      ModOfMod(x, 0x1_0000_0000_0000, B16);
      ModOfMod(x, 0x100, 0x100);
    } else if b == B32 {
      ModOfMod(x, B32, B32);
      ModOfMod(x, 0x100_0000, 0x100);
    }
  }

  // The condition codes of the SDM (appendix B of volume 1): a test, and whether it is negated.
  function Code(c: Cond): nat {
    match c
    case JO => 0 case JNO => 1 case JB => 2 case JNB => 3 case JZ => 4 case JNZ => 5 case JBE => 6 case JNBE => 7
    case JS => 8 case JNS => 9 case JP => 10 case JNP => 11 case JL => 12 case JNL => 13 case JLE => 14 case JNLE => 15
  }

  // The flags of which one or more must be set, and whether SF and OF must differ as an alternative.
  predicate Tested(code: nat, f: Flags)
    requires code < 16
  {
    var any: set<Flag> := [{OF}, {CF}, {ZF}, {CF, ZF}, {SF}, {PF}, {}, {ZF}][code / 2];
    (any * f != {} || (code >= 12 && f * {SF, OF} in {{SF}, {OF}})) == (code % 2 == 0)
  }

  lemma CodesDecide(c: Cond, f: Flags)
    ensures CondHolds(c, f) <==> Tested(Code(c), f)
  {
    assert f * {SF, OF} in {{SF}, {OF}} <==> (SF in f) != (OF in f) by {
      assert SF in f && OF !in f ==> f * {SF, OF} == {SF};
      assert SF !in f && OF in f ==> f * {SF, OF} == {OF};
      assert SF in f && OF in f ==> SF in f * {SF, OF} && OF in f * {SF, OF};
      assert SF !in f && OF !in f ==> f * {SF, OF} == {};
    }
    var any: set<Flag> := [{OF}, {CF}, {ZF}, {CF, ZF}, {SF}, {PF}, {}, {ZF}][Code(c) / 2];
    forall x | x in any && x in f
      ensures any * f != {}
    {
      assert x in any * f;
    }
    assert (forall x :: x in any ==> x !in f) ==> any * f == {};
  }

  lemma JccReference(m: Machine, e: Env, inst: Inst, c: Cond)
    requires Decoded(inst, m.addr) && Plain(inst) && inst.form == Jcc(c) && OperandsReadable(inst, e)
    ensures Reference(m, inst, e) ==
      Next(LoadState(inst, e), if CondHolds(c, e.flags) then Branched(m, e, inst) else Behind(m, e, inst))
  {
    hide CondHolds;
  }

  // A conditional jump on any flags.
  lemma JccStep(m: Machine, e: Env, inst: Inst, c: Cond)
    requires Fetched(m, e, inst) && Plain(inst) && inst.form == Jcc(c)
    ensures Step(m, e) ==
      Done(MovedTo(e, if Tested(Code(c), e.flags) then Branched(m, e, inst) else Behind(m, e, inst)))
  {
    hide Step, Reference, Fetched, CondHolds, Tested, Code, Branched, Behind;
    CodesDecide(c, e.flags);
    if OperandsReadable(inst, e) {
      FetchedIs(m, e, inst);
      JccReference(m, e, inst, c);
    }
    OnlyMoves(m, e, inst, if CondHolds(c, e.flags) then Branched(m, e, inst) else Behind(m, e, inst));
  }

  lemma FetchedIs(m: Machine, e: Env, inst: Inst)
    requires Fetched(m, e, inst)
    ensures Decoded(inst, m.addr)
  {
  }

  // On the flags of a difference, all sixteen decide the relation that they stand for, at every width.
  lemma BranchStep(m: Machine, e: Env, inst: Inst, c: Cond, l: nat, r: nat, p: Part)
    requires Fetched(m, e, inst) && Plain(inst) && inst.form == Jcc(c) && DifferenceFlags(e.flags, l, r, p)
    ensures Step(m, e) == Done(MovedTo(e, if Stands(c, l, r, p) then Branched(m, e, inst) else Behind(m, e, inst)))
  {
    hide Step, Fetched, DifferenceFlags, Stands, CondHolds, Tested, Code, Branched, Behind;
    ConditionsStand(e.flags, l, r, p, c);
    CodesDecide(c, e.flags);
    JccStep(m, e, inst, c);
  }

  // Other jumps

  lemma JumpReference(m: Machine, e: Env, inst: Inst)
    requires Decoded(inst, m.addr) && !inst.nop && OperandsReadable(inst, e)
    requires inst.form.JmpRel? || inst.form.JmpReg? || inst.form.Jrcxz? || inst.form.Xbegin?
    ensures inst.form.JmpRel? ==> Reference(m, inst, e) == Next(LoadState(inst, e), Branched(m, e, inst))
    ensures inst.form.JmpReg? ==>
      |inst.regs| > 0
      && Reference(m, inst, e) == Next(LoadState(inst, e), Get(e.regs, inst.regs[0].reg) % Bound(m.addr))
    ensures inst.form.Jrcxz? ==>
      Reference(m, inst, e) ==
        Next(LoadState(inst, e), if Get(e.regs, Reg(RCX, inst.form.part)) == 0 then Branched(m, e, inst)
                                 else Behind(m, e, inst))
    ensures inst.form.Xbegin? ==>
      Reference(m, inst, e) == Next(LoadState(inst, e).(regs := e.regs[RAX := 8]), Branched(m, e, inst))
  {
    hide Slice;
  }

  lemma JmpRelStep(m: Machine, e: Env, inst: Inst)
    requires Fetched(m, e, inst) && Plain(inst) && inst.form.JmpRel?
    ensures Step(m, e) == Done(MovedTo(e, Branched(m, e, inst)))
  {
    hide Step, Reference, Fetched, Branched;
    FetchedIs(m, e, inst);
    if OperandsReadable(inst, e) {
      JumpReference(m, e, inst);
    }
    OnlyMoves(m, e, inst, Branched(m, e, inst));
  }

  // To the register's value.
  lemma JmpRegStep(m: Machine, e: Env, inst: Inst)
    requires Fetched(m, e, inst) && Plain(inst) && inst.form.JmpReg?
    ensures |inst.regs| > 0 && Step(m, e) == Done(MovedTo(e, Get(e.regs, inst.regs[0].reg) % Bound(m.addr)))
  {
    hide Step, Reference, Fetched, Slice;
    FetchedIs(m, e, inst);
    NoOperands(inst, e);
    JumpReference(m, e, inst);
    OnlyMoves(m, e, inst, Get(e.regs, inst.regs[0].reg) % Bound(m.addr));
  }

  lemma NoOperands(inst: Inst, e: Env)
    requires inst.mems == []
    ensures OperandsReadable(inst, e)
  {
  }

  // JCXZ, JECXZ and JRCXZ: exactly when that part of RCX is zero.
  lemma JrcxzStep(m: Machine, e: Env, inst: Inst)
    requires Fetched(m, e, inst) && Plain(inst) && inst.form.Jrcxz? && inst.form.part in {Low16, Low32, Full64}
    ensures Step(m, e) ==
      Done(MovedTo(e, if e.regs[RCX] % PartBound(inst.form.part) == 0
                      then Branched(m, e, inst) else Behind(m, e, inst)))
  {
    hide Step, Reference, Fetched, Branched, Behind;
    FetchedIs(m, e, inst);
    NoOperands(inst, e);
    JumpReference(m, e, inst);
    OnlyMoves(m, e, inst, if Get(e.regs, Reg(RCX, inst.form.part)) == 0 then Branched(m, e, inst)
                          else Behind(m, e, inst));
  }

  // XBEGIN: a failed transaction, with its code, for lack of capacity, in RAX.
  lemma XbeginStep(m: Machine, e: Env, inst: Inst)
    requires Fetched(m, e, inst) && Plain(inst) && inst.form.Xbegin?
    ensures Step(m, e) == Done(e.(regs := e.regs[RAX := 8][RIP := Branched(m, e, inst)]))
  {
    hide Step, Reference, Decoded, RegsReadable, Branched;
    NoOperands(inst, e);
    JumpReference(m, e, inst);
    FetchedStep(m, e, inst);
  }
}
