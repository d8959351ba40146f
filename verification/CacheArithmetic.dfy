/** Arithmetic of the register cache: storage is 64 bits wide, but only a register's own width counts. */
module CacheArithmetic {
  import opened Bits
  import opened Machine
  import opened Isa

  function WrapAll(a: AddrSize, regs: Regs): (r: Regs)
    ensures forall i: RegId :: r[i] == Wrap(a, regs[i])
  {
    seq(NUM_REGS, i requires 0 <= i < NUM_REGS => Wrap(a, regs[i]))
  }

  // The whole of a register, in the mode's width.
  function WidestOf(a: AddrSize, id: RegId): Reg {
    Reg(id, if a == A32 then Low32 else Full64)
  }

  lemma WholeRegister(a: AddrSize, regs: Regs, id: RegId)
    requires regs[id] < Bound(a)
    ensures Get(regs, WidestOf(a, id)) == regs[id]
  {
  }

  lemma WholeRegisterWrite(a: AddrSize, regs: Regs, id: RegId, v: Word)
    requires v < Bound(a)
    ensures Put(a, regs, WidestOf(a, id), v) == regs[id := v]
  {
  }

  lemma AdvanceWraps(a: AddrSize, regs: Regs, r: Reg, amount: int)
    requires r == WidestOf(a, r.id)
    requires regs[r.id] < Bound(a)
    ensures Get(regs, r) == regs[r.id]
    ensures Put(a, regs, r, (Get(regs, r) + amount) % B64) == Bump(a, regs, r.id, amount)
  {
    ModOfMod32(regs[r.id] + amount);
  }

  lemma FlagOrderComplete(f: Flag) returns (i: nat)
    ensures i < |FLAG_ORDER| && FLAG_ORDER[i] == f
  {
    match f
    case CF => i := 0;
    case PF => i := 1;
    case AF => i := 2;
    case ZF => i := 3;
    case SF => i := 4;
    case DF => i := 5;
    case OF => i := 6;
  }

  lemma AddressWraps(base: int, index: int, disp: int, w: Width)
    ensures ((base % B64 + index % B64) % B64 + disp % B64) % B64 % WidthBound(w)
      == (base + index + disp) % WidthBound(w)
  {
    WrapSum(base, index);
    WrapSum(base + index, disp);
    ModOfMod32(base + index + disp);
  }

  lemma WrapSum(x: int, y: int)
    ensures (x % B64 + y % B64) % B64 == (x + y) % B64
  {
    var q := x / B64 + y / B64;
    var s := x % B64 + y % B64;
    DivModUnique(x + y, B64, q + s / B64, s % B64);
  }

  lemma Refill(a: AddrSize, v: Word, val: Word)
    requires val < Bound(a)
    ensures 0 <= v - v % Bound(a) && v - v % Bound(a) + val < B64
    ensures (v - v % Bound(a) + val) % Bound(a) == val
  {
    DivModUnique(v - v % Bound(a) + val, Bound(a), v / Bound(a), val);
  }

  // How each part is written into the storage.
  lemma SpliceIs(whole: Word, p: Part, val: Word)
    ensures Splice(whole, p, val) == (
      match p
      case Full64 => val
      case Low32 => val % B32
      case Low16 => whole - whole % B16 + val % B16
      case High8 => whole - whole / B8 % B8 * B8 + val % B8 * B8
      case Low8 => whole - whole % B8 + val % B8)
  {
    SpliceHigh8(whole, val);
  }

  lemma PutIntoCache(a: AddrSize, cache: Regs, r: Reg, val: Word, before: Regs, after: Regs)
    requires forall i: RegId :: before[i] == Wrap(a, cache[i])
    requires forall i: RegId :: after[i] == Wrap(a, cache[r.id := Splice(cache[r.id], r.part, val)][i])
    ensures PartFits(r, a) ==> after == Put(a, before, r, val)
  {
    hide Splice;
    if PartFits(r, a) {
      SpliceCached(a, cache[r.id], r.part, val);
      assert after == Put(a, before, r, val);
    }
  }

  lemma SpliceCached(a: AddrSize, v: Word, p: Part, val: Word)
    requires a == A32 ==> Narrow(p)
    ensures Wrap(a, Splice(v, p, val)) == Wrap(a, Splice(Wrap(a, v), p, val))
  {
    hide Splice;
    if a == A32 {
      SpliceOfLowHalf(v, p, val);
    }
  }

  function ReadPart(v: Word, p: Part): Word {
    match p
    case Full64 => v
    case Low32 => v % B32
    case Low16 => v % B16
    case High8 => v % B16 / B8
    case Low8 => v % B8
  }

  lemma Low16High8(v: Word)
    ensures v % B16 / B8 == v / B8 % B8
  {
    ModOfMod(v, B8, B8);
    DivModUnique(v / B8, B8, v / B16, v % B16 / B8);
  }

  lemma WrapTwice(a: AddrSize, v: int)
    ensures Wrap(a, Wrap(a, v)) == Wrap(a, v)
    ensures 0 <= v < Bound(a) ==> Wrap(a, v) == v
  {
  }

  lemma TargetWraps(m: Machine, inst: Inst, next: Word)
    ensures Wrap(m.addr, Target(m, inst, next)) == Target(m, inst, next)
  {
    WrapTwice(m.addr, next + inst.branchDisp);
  }

  lemma WrapOfWord(a: AddrSize, v: int)
    ensures Wrap(a, v % B64) == Wrap(a, v)
  {
    ModOfMod32(v);
  }

  lemma NarrowIsWrapped(a: AddrSize, v: Word)
    requires v < Bound(a)
    ensures Wrap(a, v) == v
  {
  }

  lemma OperandFacts(inst: Inst, a: AddrSize)
    requires Decoded(inst, a)
    ensures FormOperands(inst, a)
    ensures forall i :: 0 <= i < |inst.regs| ==> PartFits(inst.regs[i].reg, a)
  {
  }

  lemma NotEmulated(m: Machine, inst: Inst, s: State, address0: Word, cur: Word, next: Word)
    requires Decoded(inst, m.addr) && (inst.form.FarTransfer? || inst.form.WideStack?)
    ensures Isa.Emulate(m, inst, s, address0, cur, next) ==
      Halt(if inst.form.FarTransfer? then UnsupportedCFI else UnsupportedStack)
  {
  }

  // Addresses as uintptr_t arithmetic adds them up, step by step.
  function WrappingAddress(base: int, index: int, disp: int, w: Width): (r: Word)
    ensures r == (base + index + disp) % WidthBound(w)
  {
    AddressWraps(base, index, disp, w);
    ((base % B64 + index % B64) % B64 + disp % B64) % B64 % WidthBound(w)
  }
}
