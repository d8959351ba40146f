/**
 In which order a step asks for what it reads, whether or not it comes to its writes, and what it announces for each
 register (microx/Executor.cpp:257-392 and 2051-2140).
 */
module RequestOrder {
  import opened Bits
  import opened FlatMemory
  import opened Machine
  import opened Isa
  import opened Trace
  import opened Requests

  // The program counter, code, flags, registers of addresses, those only read, those written, the FPU, operands.
  function Phase(c: Call): nat {
    match c
    case ReadRegCall(_, ProgramCounter) => 0
    case ReadMemCall(_, _, ReadExecutable) => 1
    case ReadFlagCall(_) => 2
    case ReadRegCall(_, MemoryBase) => 3
    case ReadRegCall(_, MemoryIndex) => 3
    case ReadRegCall(_, General) => 4
    case ReadRegCall(_, WriteBackHint) => 5
    case ReadFpuCall => 6
    case ReadMemCall(_, _, _) => 7
    case _ => 8
  }

  ghost predicate Phased(t: seq<Call>, lo: nat, hi: nat) {
    && (forall c :: c in t ==> lo <= Phase(c) <= hi)
    && forall i, j :: 0 <= i < j < |t| ==> Phase(t[i]) <= Phase(t[j])
  }

  // What is announced for a register is what it is for.
  ghost predicate Meant(inst: Inst, id: RegId, hint: RegHint) {
    match hint
    case ProgramCounter => id == RIP
    case MemoryBase => exists i :: 0 <= i < |inst.mems| && Based(inst.mems[i], id)
    case MemoryIndex => exists i :: 0 <= i < |inst.mems| && Indexed(inst.mems[i], id)
    case General => exists i :: 0 <= i < |inst.regs| && inst.regs[i].reg.id == id && !inst.regs[i].written
    case WriteBackHint => exists i :: 0 <= i < |inst.regs| && inst.regs[i].reg.id == id && inst.regs[i].written
  }

  predicate Based(mo: MemOperand, id: RegId) {
    mo.base.Some? && mo.base.value.id == id
  }

  predicate Indexed(mo: MemOperand, id: RegId) {
    mo.index.Some? && mo.index.value.id == id
  }

  ghost predicate AllMeant(inst: Inst, t: seq<Call>) {
    forall c :: c in t && c.ReadRegCall? ==> Meant(inst, c.id, c.regHint)
  }

  lemma PhasedAppend(t: seq<Call>, s: seq<Call>, lo: nat, mid: nat, hi: nat)
    requires lo <= mid <= hi && Phased(t, lo, mid) && Phased(s, mid, hi)
    ensures Phased(t + s, lo, hi)
  {
    hide Phase;
    var r := t + s;
    forall i, j | 0 <= i < j < |r|
      ensures Phase(r[i]) <= Phase(r[j])
    {
      if i < |t| <= j {
        assert t[i] in t && r[j] in s;
      }
    }
  }

  lemma PhasedNone(lo: nat, hi: nat)
    ensures Phased([], lo, hi)
  {
  }

  lemma PhasedOne(c: Call, lo: nat, hi: nat)
    requires lo <= Phase(c) <= hi
    ensures Phased([c], lo, hi)
  {
  }

  // Registers

  ghost predicate WantMeant(inst: Inst, w: Want, phase: nat) {
    Meant(inst, w.id, w.hint) && Phase(ReadRegCall(w.id, w.hint)) == phase
  }

  ghost predicate AllWantMeant(inst: Inst, ws: seq<Want>, phase: nat) {
    forall w :: w in ws ==> WantMeant(inst, w, phase)
  }

  lemma {:induction false} CallsOfWants(inst: Inst, ws: seq<Want>, asked: set<RegId>, deny: set<RegId>, phase: nat)
    requires AllWantMeant(inst, ws, phase)
    ensures Phased(RegCalls(ws, asked, deny), phase, phase) && AllMeant(inst, RegCalls(ws, asked, deny))
  {
    hide Meant, Phase;
    if ws == [] {
      PhasedNone(phase, phase);
    } else {
      var init, w := ws[..|ws| - 1], ws[|ws| - 1];
      assert w in ws && forall v :: v in init ==> v in ws;
      CallsOfWants(inst, init, asked, deny, phase);
      assert WantMeant(inst, w, phase);
      PhasedOne(ReadRegCall(w.id, w.hint), phase, phase);
      PhasedAppend(RegCalls(init, asked, deny), [ReadRegCall(w.id, w.hint)], phase, phase, phase);
    }
  }

  lemma {:induction false} AddressesMeant(inst: Inst, k: nat)
    requires k <= |inst.mems|
    ensures AllWantMeant(inst, AddressWants(inst.mems[..k]), 3)
  {
    if k != 0 {
      AddressesMeant(inst, k - 1);
      var mo := inst.mems[k - 1];
      assert inst.mems[..k][..k - 1] == inst.mems[..k - 1];
      forall w | w in OperandAddress(mo)
        ensures WantMeant(inst, w, 3)
      {
        assert Based(inst.mems[k - 1], w.id) || Indexed(inst.mems[k - 1], w.id);
      }
    }
  }

  lemma {:induction false} OperandsMeant(inst: Inst, written: bool, k: nat)
    requires k <= |inst.regs|
    ensures AllWantMeant(inst, OperandWants(inst.regs[..k], written), if written then 5 else 4)
  {
    if k != 0 {
      OperandsMeant(inst, written, k - 1);
      var op := inst.regs[k - 1];
      assert inst.regs[..k][..k - 1] == inst.regs[..k - 1];
      if op.written == written {
        assert WantMeant(inst, Want(op.reg.id, if written then WriteBackHint else General), if written then 5 else 4);
      }
    }
  }

  lemma RegistersPhased(inst: Inst, deny: set<RegId>)
    ensures Phased(RegCalls(Wants(inst), {RIP}, deny), 3, 5) && AllMeant(inst, RegCalls(Wants(inst), {RIP}, deny))
  {
    hide AddressWants, OperandWants, RegCalls, Meant, Phase, WantIds, Phased, AllWantMeant;
    var addresses, plain, written := AddressWants(inst.mems), OperandWants(inst.regs, false),
                                     OperandWants(inst.regs, true);
    assert inst.mems[..|inst.mems|] == inst.mems && inst.regs[..|inst.regs|] == inst.regs;
    AddressesMeant(inst, |inst.mems|);
    OperandsMeant(inst, false, |inst.regs|);
    OperandsMeant(inst, true, |inst.regs|);
    var asked := {RIP} + WantIds(addresses);
    CallsOfWants(inst, addresses, {RIP}, deny, 3);
    CallsOfWants(inst, plain, asked, deny, 4);
    CallsOfWants(inst, written, {RIP} + WantIds(addresses + plain), deny, 5);
    RegCallsAppend(addresses, plain, {RIP}, deny);
    RegCallsAppend(addresses + plain, written, {RIP}, deny);
    var t0 := RegCalls(addresses, {RIP}, deny);
    var t1 := if WantIds(addresses) !! deny then RegCalls(plain, asked, deny) else [];
    var t2 := if WantIds(addresses + plain) !! deny
              then RegCalls(written, {RIP} + WantIds(addresses + plain), deny) else [];
    PhasedNone(4, 4);
    PhasedNone(5, 5);
    Widen(t0, 3, 3, 4);
    Widen(t1, 4, 4, 5);
    PhasedAppend(t0, t1, 3, 4, 4);
    Widen(t0 + t1, 3, 4, 5);
    PhasedAppend(t0 + t1, t2, 3, 5, 5);
  }

  lemma Widen(t: seq<Call>, lo: nat, mid: nat, hi: nat)
    requires Phased(t, lo, mid) && mid <= hi
    ensures Phased(t, lo, hi)
  {
    hide Phase;
  }

  // The rest

  lemma {:induction false} FlagsPhased(which: set<Flag>, deny: set<Flag>, k: nat)
    requires k <= |FLAG_ORDER|
    ensures Phased(FlagCalls(which, deny, k), 2, 2)
    ensures forall c :: c in FlagCalls(which, deny, k) ==> c.ReadFlagCall? && c.flag in which
  {
    hide FlagsGranted;
    if k != 0 {
      FlagsPhased(which, deny, k - 1);
    }
  }

  lemma {:induction false} FetchPhased(mem: Flat, pc: Word, n: nat)
    ensures Phased(FetchCalls(mem, pc, n), 1, 1)
    ensures forall c :: c in FetchCalls(mem, pc, n) ==> c.ReadMemCall? && c.address == pc && c.size <= n
    decreases n
  {
    hide Accessible;
    if n != 0 {
      FetchPhased(mem, pc, n - 1);
    }
  }

  lemma {:induction false} OperandsPhased(inst: Inst, e: Env, k: nat)
    requires k <= |inst.mems|
    ensures Phased(MemCalls(inst, e, k), 7, 7) && AllMeant(inst, MemCalls(inst, e, k))
  {
    hide AddressOf, MemGranted;
    if k != 0 {
      OperandsPhased(inst, e, k - 1);
    }
  }

  lemma InstPhased(inst: Inst, e: Env)
    ensures Phased(InstCalls(inst, e), 2, 7) && AllMeant(inst, InstCalls(inst, e))
  {
    hide FlagCalls, RegCalls, MemCalls, Wants, Phase, UsedIds, ReadSet, Meant, Phased;
    var flags := FlagCalls(ReadSet(inst), e.deny.readFlags, |FLAG_ORDER|);
    var regs := RegCalls(Wants(inst), {RIP}, e.deny.readRegs);
    var mem := MemCalls(inst, e, |inst.mems|);
    FlagsPhased(ReadSet(inst), e.deny.readFlags, |FLAG_ORDER|);
    RegistersPhased(inst, e.deny.readRegs);
    OperandsPhased(inst, e, |inst.mems|);
    PhasedNone(2, 7);
    PhasedNone(6, 7);
    FpuPhased();
    Widen(flags, 2, 2, 3);
    Widen(flags, 2, 2, 7);
    PhasedAppend(flags, regs, 2, 3, 5);
    Widen(flags + regs, 2, 5, 6);
    Widen(flags + regs, 2, 5, 7);
    WidenDown(mem);
    PhasedAppend([ReadFpuCall], mem, 6, 6, 7);
    assert [ReadFpuCall] + [] == [ReadFpuCall];
    assert Phased(OperandCalls(inst, e), 6, 7) && AllMeant(inst, OperandCalls(inst, e));
    PhasedAppend(flags + regs, OperandCalls(inst, e), 2, 6, 7);
  }

  lemma FpuPhased()
    ensures Phased([ReadFpuCall], 6, 6) && Phased([ReadFpuCall], 6, 7)
  {
  }

  lemma WidenDown(t: seq<Call>)
    requires Phased(t, 7, 7)
    ensures Phased(t, 6, 7)
  {
    hide Phase;
  }

  // Every step asks in the order of the phases, whatever is refused.
  lemma ReadsPhased(m: Machine, e: Env)
    ensures Phased(ReadCalls(m, e), 0, 7)
  {
    hide FetchCalls, InstCalls, Decoded, FetchLength, Phase, Phased;
    var pc, fetch := [ReadRegCall(RIP, ProgramCounter)], FetchCalls(e.mem, e.regs[RIP], MAX_INST_LENGTH);
    PcPhased();
    FetchPhased(e.mem, e.regs[RIP], MAX_INST_LENGTH);
    PhasedAppend(pc, fetch, 0, 1, 1);
    Widen(pc, 0, 1, 7);
    Widen(pc + fetch, 0, 1, 2);
    Widen(pc + fetch, 0, 1, 7);
    assert pc + fetch + [] == pc + fetch;
    if Fetch(m, e).Some? {
      InstPhased(Fetch(m, e).value, e);
      PhasedAppend(pc + fetch, InstCalls(Fetch(m, e).value, e), 0, 2, 7);
    }
  }

  lemma PcPhased()
    ensures Phased([ReadRegCall(RIP, ProgramCounter)], 0, 1)
  {
  }

  // And each register is announced as what it is.
  lemma ReadsMeant(m: Machine, e: Env, c: Call)
    requires c in ReadCalls(m, e) && c.ReadRegCall?
    ensures (c.id == RIP && c.regHint == ProgramCounter) || (
      && FetchLength(e.mem, e.regs[RIP], MAX_INST_LENGTH) > 0 && Fetch(m, e).Some?
      && Meant(Fetch(m, e).value, c.id, c.regHint))
  {
    hide FetchCalls, InstCalls, Decoded, FetchLength, Meant;
    FetchPhased(e.mem, e.regs[RIP], MAX_INST_LENGTH);
    if Fetch(m, e).Some? {
      InstPhased(Fetch(m, e).value, e);
    }
  }

  // Refusals

  predicate Granted(c: Call, e: Env) {
    match c
    case ReadRegCall(id, _) => id !in e.deny.readRegs
    case ReadFlagCall(f) => f !in e.deny.readFlags
    case ReadMemCall(a, n, h) => Accessible(e.mem, a, n, h)
    case ReadFpuCall => !e.deny.readFpu
    case _ => true
  }

  ghost predicate AllGranted(t: seq<Call>, e: Env) {
    forall c :: c in t ==> Granted(c, e)
  }

  ghost predicate OnlyLastRefused(t: seq<Call>, e: Env) {
    forall i :: 0 <= i < |t| - 1 ==> Granted(t[i], e)
  }

  lemma GrantedMore(t: seq<Call>, s: seq<Call>, e: Env)
    requires AllGranted(t, e)
    ensures AllGranted(s, e) ==> AllGranted(t + s, e)
    ensures OnlyLastRefused(s, e) ==> OnlyLastRefused(t + s, e)
    ensures |s| <= 1 ==> OnlyLastRefused(t + s, e)
  {
    hide Granted;
    var r := t + s;
    forall i | 0 <= i < |r| && (i < |t| || (i < |r| - 1 && OnlyLastRefused(s, e)))
      ensures Granted(r[i], e)
    {
      if i < |t| {
        assert t[i] in t;
      } else {
        assert r[i] == s[i - |t|];
      }
    }
  }

  lemma {:induction false} RegistersGranted(ws: seq<Want>, asked: set<RegId>, e: Env)
    ensures OnlyLastRefused(RegCalls(ws, asked, e.deny.readRegs), e)
    ensures WantIds(ws) !! e.deny.readRegs ==> AllGranted(RegCalls(ws, asked, e.deny.readRegs), e)
  {
    hide OnlyLastRefused;
    if ws == [] {
      NoneRefused(e);
    } else {
      var init, w := ws[..|ws| - 1], ws[|ws| - 1];
      RegistersGranted(init, asked, e);
      if WantIds(init) !! e.deny.readRegs {
        GrantedMore(RegCalls(init, asked, e.deny.readRegs), [ReadRegCall(w.id, w.hint)], e);
      }
    }
  }

  lemma {:induction false} FlagsAsked(which: set<Flag>, e: Env, k: nat)
    requires k <= |FLAG_ORDER|
    ensures OnlyLastRefused(FlagCalls(which, e.deny.readFlags, k), e)
    ensures FlagsGranted(which, e.deny.readFlags, k) ==> AllGranted(FlagCalls(which, e.deny.readFlags, k), e)
  {
    hide OnlyLastRefused;
    if k == 0 {
      NoneRefused(e);
    } else {
      FlagsAsked(which, e, k - 1);
      if FlagsGranted(which, e.deny.readFlags, k - 1) {
        GrantedMore(FlagCalls(which, e.deny.readFlags, k - 1), [ReadFlagCall(FLAG_ORDER[k - 1])], e);
      }
    }
  }

  lemma {:induction false} OperandsGranted(inst: Inst, e: Env, k: nat)
    requires k <= |inst.mems|
    ensures OnlyLastRefused(MemCalls(inst, e, k), e)
    ensures MemGranted(inst, e, k) ==> AllGranted(MemCalls(inst, e, k), e)
  {
    hide OnlyLastRefused, AddressOf, HintOf, Accessible;
    if k == 0 {
      NoneRefused(e);
    } else {
      OperandsGranted(inst, e, k - 1);
      if MemGranted(inst, e, k - 1) {
        assert MemGranted(inst, e, k) ==> MemReadable(inst, e, k - 1);
        var mo := inst.mems[k - 1];
        GrantedMore(MemCalls(inst, e, k - 1),
                    [ReadMemCall(AddressOf(inst, k - 1, e.regs), mo.size, HintOf(mo))], e);
      }
    }
  }

  lemma FlagsReadable(inst: Inst, e: Env)
    requires ReadSet(inst) * e.deny.readFlags == {}
    ensures FlagsGranted(ReadSet(inst), e.deny.readFlags, |FLAG_ORDER|)
  {
    forall j | 0 <= j < |FLAG_ORDER| && FLAG_ORDER[j] in ReadSet(inst)
      ensures FLAG_ORDER[j] !in e.deny.readFlags
    {
      assert FLAG_ORDER[j] !in ReadSet(inst) * e.deny.readFlags;
    }
  }

  // Of what an instruction asks for, nothing is asked after a refusal.
  lemma InstAsks(inst: Inst, e: Env)
    ensures OnlyLastRefused(InstCalls(inst, e), e)
  {
    hide FlagCalls, RegCalls, MemCalls, Wants, UsedIds, ReadSet, OnlyLastRefused, AllGranted, FlagsGranted, WantIds;
    var flags := FlagCalls(ReadSet(inst), e.deny.readFlags, |FLAG_ORDER|);
    var regs := RegCalls(Wants(inst), {RIP}, e.deny.readRegs);
    var mem := MemCalls(inst, e, |inst.mems|);
    NoneRefused(e);
    FlagsAsked(ReadSet(inst), e, |FLAG_ORDER|);
    RegistersGranted(Wants(inst), {RIP}, e);
    OperandsGranted(inst, e, |inst.mems|);
    if ReadSet(inst) * e.deny.readFlags == {} {
      FlagsReadable(inst, e);
      GrantedMore(flags, regs, e);
      if RegsReadable(inst, e) {
        WantsIds(inst);
        if !e.deny.readFpu {
          GrantedMore([ReadFpuCall], mem, e);
        }
        assert OnlyLastRefused(OperandCalls(inst, e), e);
        GrantedMore(flags + regs, OperandCalls(inst, e), e);
      }
    }
  }

  lemma NoneRefused(e: Env)
    ensures OnlyLastRefused([], e) && OnlyLastRefused([ReadFpuCall], e)
    ensures !e.deny.readFpu ==> AllGranted([ReadFpuCall], e)
  {
  }

  // Code is asked for at fifteen bytes, and at one less each time that it is refused.
  lemma {:induction false} CodeAsked(mem: Flat, pc: Word, n: nat, i: nat)
    requires i < |FetchCalls(mem, pc, n)|
    ensures i < n && FetchCalls(mem, pc, n)[i] == ReadMemCall(pc, n - i, ReadExecutable)
    ensures i < |FetchCalls(mem, pc, n)| - 1 ==> !Accessible(mem, pc, n - i, ReadExecutable)
    decreases n
  {
    hide Accessible;
    if i > 0 {
      CodeAsked(mem, pc, n - 1, i - 1);
    }
  }
}
