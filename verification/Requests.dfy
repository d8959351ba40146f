/**
 The calls of a step, one by one: what the executor asks the user for, in its order, up to the first refusal, and
 then what it writes (microx/Executor.cpp:2051-2242).
 */
module Requests {
  import opened Bits
  import opened FlatMemory
  import opened Machine
  import opened Isa
  import opened Updates
  import opened Trace

  // Registers

  datatype Want = Want(id: RegId, hint: RegHint)

  function WantIds(ws: seq<Want>): set<RegId> {
    if ws == [] then {} else WantIds(ws[..|ws| - 1]) + {ws[|ws| - 1].id}
  }

  // Each register is asked for once, the first time that it is wanted, until one is refused.
  function RegCalls(ws: seq<Want>, asked: set<RegId>, deny: set<RegId>): seq<Call> {
    if ws == [] then []
    else
      var init, w := ws[..|ws| - 1], ws[|ws| - 1];
      var t := RegCalls(init, asked, deny);
      if WantIds(init) !! deny && w.id !in asked + WantIds(init) then t + [ReadRegCall(w.id, w.hint)] else t
  }

  lemma RegCallsOne(w: Want, asked: set<RegId>, deny: set<RegId>)
    ensures RegCalls([w], asked, deny) == if w.id in asked then [] else [ReadRegCall(w.id, w.hint)]
    ensures WantIds([w]) == {w.id} && RegCalls([], asked, deny) == [] && WantIds([]) == {}
  {
    assert [w][..0] == [];
    assert asked + {} == asked;
  }

  lemma {:induction false} RegCallsAppend(ws: seq<Want>, vs: seq<Want>, asked: set<RegId>, deny: set<RegId>)
    ensures RegCalls(ws + vs, asked, deny) ==
      RegCalls(ws, asked, deny) + if WantIds(ws) !! deny then RegCalls(vs, asked + WantIds(ws), deny) else []
    ensures WantIds(ws + vs) == WantIds(ws) + WantIds(vs)
  {
    if vs == [] {
      assert ws + vs == ws;
    } else {
      var init, v := vs[..|vs| - 1], vs[|vs| - 1];
      RegCallsAppend(ws, init, asked, deny);
      assert (ws + vs)[..|ws + vs| - 1] == ws + init && (ws + vs)[|ws + vs| - 1] == v;
      assert asked + WantIds(ws) + WantIds(init) == asked + (WantIds(ws) + WantIds(init));
    }
  }

  function OperandAddress(mo: MemOperand): seq<Want> {
    (if mo.base.Some? then [Want(mo.base.value.id, MemoryBase)] else [])
      + (if mo.index.Some? then [Want(mo.index.value.id, MemoryIndex)] else [])
  }

  function AddressWants(mems: seq<MemOperand>): seq<Want> {
    if mems == [] then [] else AddressWants(mems[..|mems| - 1]) + OperandAddress(mems[|mems| - 1])
  }

  function OperandWants(ops: seq<RegOperand>, written: bool): seq<Want> {
    if ops == [] then []
    else
      var init, op := OperandWants(ops[..|ops| - 1], written), ops[|ops| - 1];
      if op.written == written then init + [Want(op.reg.id, if written then WriteBackHint else General)] else init
  }

  // Registers of memory operands first, then those only read, then those written.
  function Wants(inst: Inst): seq<Want> {
    AddressWants(inst.mems) + OperandWants(inst.regs, false) + OperandWants(inst.regs, true)
  }

  lemma OperandAddressIds(mo: MemOperand)
    ensures WantIds(OperandAddress(mo)) == NamedBy(mo)
  {
    var deny: set<RegId> := {};
    if mo.base.Some? {
      RegCallsOne(Want(mo.base.value.id, MemoryBase), {}, deny);
    }
    if mo.index.Some? {
      RegCallsOne(Want(mo.index.value.id, MemoryIndex), {}, deny);
    }
    RegCallsAppend(if mo.base.Some? then [Want(mo.base.value.id, MemoryBase)] else [],
                   if mo.index.Some? then [Want(mo.index.value.id, MemoryIndex)] else [], {}, deny);
  }

  lemma {:induction false} AddressWantsIds(mems: seq<MemOperand>)
    ensures WantIds(AddressWants(mems)) == MemIds(mems)
  {
    if mems != [] {
      var init, mo := mems[..|mems| - 1], mems[|mems| - 1];
      AddressWantsIds(init);
      OperandAddressIds(mo);
      RegCallsAppend(AddressWants(init), OperandAddress(mo), {}, {});
    }
  }

  lemma OperandWantsNone(written: bool)
    ensures OperandWants([], written) == [] && IdsWhere([], written) == {}
  {
  }

  lemma OperandWantsNext(ops: seq<RegOperand>, written: bool, i: nat)
    requires i < |ops|
    ensures OperandWants(ops[..i + 1], written) == (
      if ops[i].written == written
      then OperandWants(ops[..i], written) + [Want(ops[i].reg.id, if written then WriteBackHint else General)]
      else OperandWants(ops[..i], written))
    ensures IdsWhere(ops[..i + 1], written) ==
      IdsWhere(ops[..i], written) + if ops[i].written == written then {ops[i].reg.id} else {}
  {
    assert ops[..i + 1][..i] == ops[..i];
  }

  lemma {:induction false} OperandWantsIds(ops: seq<RegOperand>, written: bool)
    ensures WantIds(OperandWants(ops, written)) == IdsWhere(ops, written)
  {
    if ops != [] {
      var init, op := ops[..|ops| - 1], ops[|ops| - 1];
      OperandWantsIds(init, written);
      if op.written == written {
        var w := Want(op.reg.id, if written then WriteBackHint else General);
        RegCallsOne(w, {}, {});
        RegCallsAppend(OperandWants(init, written), [w], {}, {});
      }
    }
  }

  lemma WantsIds(inst: Inst)
    ensures WantIds(Wants(inst)) == UsedIds(inst)
  {
    hide AddressWants, OperandWants, WantIds, MemIds, IdsWhere, RegIds;
    AddressWantsIds(inst.mems);
    OperandWantsIds(inst.regs, false);
    OperandWantsIds(inst.regs, true);
    var addresses, plain := AddressWants(inst.mems), OperandWants(inst.regs, false);
    RegCallsAppend(addresses, plain, {}, {});
    RegCallsAppend(addresses + plain, OperandWants(inst.regs, true), {}, {});
    ReadAndWritten(inst.regs);
  }

  lemma {:induction false} AddressWantsRest(mems: seq<MemOperand>, i: nat) returns (rest: seq<Want>)
    requires i <= |mems|
    ensures AddressWants(mems) == AddressWants(mems[..i]) + rest
  {
    if i == |mems| {
      rest := [];
      assert mems[..i] == mems;
    } else {
      var init := mems[..|mems| - 1];
      rest := AddressWantsRest(init, i);
      assert init[..i] == mems[..i];
      rest := rest + OperandAddress(mems[|mems| - 1]);
    }
  }

  lemma {:induction false} OperandWantsRest(ops: seq<RegOperand>, written: bool, i: nat) returns (rest: seq<Want>)
    requires i <= |ops|
    ensures OperandWants(ops, written) == OperandWants(ops[..i], written) + rest
  {
    if i == |ops| {
      rest := [];
      assert ops[..i] == ops;
    } else {
      var init, op := ops[..|ops| - 1], ops[|ops| - 1];
      rest := OperandWantsRest(init, written, i);
      assert init[..i] == ops[..i];
      if op.written == written {
        rest := rest + [Want(op.reg.id, if written then WriteBackHint else General)];
      }
    }
  }

  // After a refusal nothing more is asked for.
  lemma RegCallsStop(ws: seq<Want>, rest: seq<Want>, asked: set<RegId>, deny: set<RegId>)
    requires !(WantIds(ws) !! deny)
    ensures RegCalls(ws + rest, asked, deny) == RegCalls(ws, asked, deny)
  {
    RegCallsAppend(ws, rest, asked, deny);
  }

  // Flags

  predicate FlagsGranted(which: set<Flag>, deny: set<Flag>, k: nat)
    requires k <= |FLAG_ORDER|
  {
    forall j :: 0 <= j < k && FLAG_ORDER[j] in which ==> FLAG_ORDER[j] !in deny
  }

  function FlagCalls(which: set<Flag>, deny: set<Flag>, k: nat): seq<Call>
    requires k <= |FLAG_ORDER|
  {
    if k == 0 then []
    else
      var t, f := FlagCalls(which, deny, k - 1), FLAG_ORDER[k - 1];
      if f in which && FlagsGranted(which, deny, k - 1) then t + [ReadFlagCall(f)] else t
  }

  lemma {:induction false} FlagCallsStop(which: set<Flag>, deny: set<Flag>, i: nat, k: nat)
    requires i <= k <= |FLAG_ORDER| && !FlagsGranted(which, deny, i)
    ensures FlagCalls(which, deny, k) == FlagCalls(which, deny, i)
  {
    if i < k {
      FlagCallsStop(which, deny, i, k - 1);
    }
  }

  // Memory

  // The instruction is asked for at fifteen bytes, and then at fewer and fewer.
  function FetchCalls(mem: Flat, pc: Word, n: nat): seq<Call> {
    if n == 0 then []
    else
      var c := ReadMemCall(pc, n, ReadExecutable);
      if Accessible(mem, pc, n, ReadExecutable) then [c] else [c] + FetchCalls(mem, pc, n - 1)
  }

  predicate MemGranted(inst: Inst, e: Env, k: nat)
    requires k <= |inst.mems|
  {
    forall i :: 0 <= i < k ==> MemReadable(inst, e, i)
  }

  function MemCalls(inst: Inst, e: Env, k: nat): seq<Call>
    requires k <= |inst.mems|
  {
    if k == 0 then []
    else
      var t, mo := MemCalls(inst, e, k - 1), inst.mems[k - 1];
      if MemGranted(inst, e, k - 1) && !mo.agen
      then t + [ReadMemCall(AddressOf(inst, k - 1, e.regs), mo.size, HintOf(mo))]
      else t
  }

  lemma {:induction false} MemCallsStop(inst: Inst, e: Env, i: nat, k: nat)
    requires i <= k <= |inst.mems| && !MemGranted(inst, e, i)
    ensures MemCalls(inst, e, k) == MemCalls(inst, e, i)
  {
    hide AddressOf, MemReadable;
    if i < k {
      MemCallsStop(inst, e, i, k - 1);
    }
  }

  // Steps

  // What an instruction asks for besides flags and registers. A NOP asks for nothing.
  function OperandCalls(inst: Inst, e: Env): seq<Call> {
    if inst.nop then []
    else if !inst.usesFpu then MemCalls(inst, e, |inst.mems|)
    else if e.deny.readFpu then [ReadFpuCall]
    else [ReadFpuCall] + MemCalls(inst, e, |inst.mems|)
  }

  // What a decoded instruction asks for.
  function InstCalls(inst: Inst, e: Env): seq<Call> {
    var flags := FlagCalls(ReadSet(inst), e.deny.readFlags, |FLAG_ORDER|);
    var regs := RegCalls(Wants(inst), {RIP}, e.deny.readRegs);
    if inst.unsupported then []
    else if ReadSet(inst) * e.deny.readFlags != {} then flags
    else if !RegsReadable(inst, e) then flags + regs
    else flags + regs + OperandCalls(inst, e)
  }

  function ReadCalls(m: Machine, e: Env): seq<Call> {
    var pc := [ReadRegCall(RIP, ProgramCounter)];
    if RIP in e.deny.readRegs then pc
    else
      var fetch := FetchCalls(e.mem, e.regs[RIP], MAX_INST_LENGTH);
      if FetchLength(e.mem, e.regs[RIP], MAX_INST_LENGTH) == 0 then pc + fetch
      else
        match Fetch(m, e)
        case None => pc + fetch
        case Some(inst) => pc + fetch + if Decoded(inst, m.addr) then InstCalls(inst, e) else []
  }

  function WriteCalls(e: Env, plan: Plan): seq<Call> {
    match plan
    case Reject(_) => []
    case Write(_, us) => CallsOf(Attempted(e, us))
  }

  function StepCalls(m: Machine, e: Env): seq<Call> {
    ReadCalls(m, e) + WriteCalls(e, PlanStep(m, e))
  }

  lemma InstCallsCases(inst: Inst, e: Env)
    ensures inst.unsupported ==> InstCalls(inst, e) == []
    ensures !inst.unsupported ==>
      var flags := FlagCalls(ReadSet(inst), e.deny.readFlags, |FLAG_ORDER|);
      var regs := RegCalls(Wants(inst), {RIP}, e.deny.readRegs);
      if ReadSet(inst) * e.deny.readFlags != {} then InstCalls(inst, e) == flags
      else if !RegsReadable(inst, e) then InstCalls(inst, e) == flags + regs
      else InstCalls(inst, e) == flags + regs + OperandCalls(inst, e)
  {
    hide FlagCalls, RegCalls, OperandCalls, ReadSet, Wants, UsedIds;
  }

  lemma OperandCallsCases(inst: Inst, e: Env)
    ensures OperandCalls(inst, e) == (
      if inst.nop then []
      else if !inst.usesFpu then MemCalls(inst, e, |inst.mems|)
      else if e.deny.readFpu then [ReadFpuCall]
      else [ReadFpuCall] + MemCalls(inst, e, |inst.mems|))
  {
    hide MemCalls;
  }

  lemma ReadCallsCases(m: Machine, e: Env)
    ensures RIP in e.deny.readRegs ==> ReadCalls(m, e) == [ReadRegCall(RIP, ProgramCounter)]
    ensures RIP !in e.deny.readRegs ==>
      var fetched := [ReadRegCall(RIP, ProgramCounter)] + FetchCalls(e.mem, e.regs[RIP], MAX_INST_LENGTH);
      var bytes := FetchBytes(e.mem, e.regs[RIP]);
      if |bytes| == 0 || m.decode(bytes, m.addr) == None then ReadCalls(m, e) == fetched
      else
        var inst := m.decode(bytes, m.addr).value;
        Decoded(inst, m.addr) ==> ReadCalls(m, e) == fetched + InstCalls(inst, e)
  {
    hide FetchCalls, InstCalls, Decoded, FetchLength;
  }

  lemma FetchCallsNext(mem: Flat, pc: Word, n: nat)
    requires n > 0
    ensures FetchCalls(mem, pc, n) == [ReadMemCall(pc, n, ReadExecutable)]
      + if Accessible(mem, pc, n, ReadExecutable) then [] else FetchCalls(mem, pc, n - 1)
  {
    hide Accessible;
  }

  lemma FetchCallsNone(mem: Flat, pc: Word)
    ensures FetchCalls(mem, pc, 0) == []
  {
  }

  // What the calls of a step have in common

  lemma {:induction false} RegCallsRead(t: seq<Call>, used: set<RegId>, ws: seq<Want>, deny: set<RegId>)
    requires Reads(t, used) && WantIds(ws) !! deny
    ensures Reads(t + RegCalls(ws, used, deny), used + WantIds(ws))
  {
    hide Reads;
    if ws == [] {
      assert t + [] == t && used + {} == used;
    } else {
      var init, w := ws[..|ws| - 1], ws[|ws| - 1];
      RegCallsRead(t, used, init, deny);
      var before, now := t + RegCalls(init, used, deny), used + WantIds(init);
      if w.id in now {
        assert used + WantIds(ws) == now;
      } else {
        ReadMore(before, now, ReadRegCall(w.id, w.hint));
        assert t + RegCalls(ws, used, deny) == before + [ReadRegCall(w.id, w.hint)];
        assert used + WantIds(ws) == now + {w.id};
      }
    }
  }

  lemma {:induction false} FlagCallsRead(t: seq<Call>, used: set<RegId>, which: set<Flag>, deny: set<Flag>, k: nat)
    requires Reads(t, used) && k <= |FLAG_ORDER|
    ensures Reads(t + FlagCalls(which, deny, k), used)
  {
    hide Reads, FlagsGranted;
    if k == 0 {
      assert t + [] == t;
    } else {
      FlagCallsRead(t, used, which, deny, k - 1);
      var f := FLAG_ORDER[k - 1];
      ReadOther(t + FlagCalls(which, deny, k - 1), used, ReadFlagCall(f));
      assert t + FlagCalls(which, deny, k - 1) + [ReadFlagCall(f)]
        == t + (FlagCalls(which, deny, k - 1) + [ReadFlagCall(f)]);
    }
  }

  lemma {:induction false} FetchCallsRead(t: seq<Call>, used: set<RegId>, mem: Flat, pc: Word, n: nat)
    requires Reads(t, used)
    ensures Reads(t + FetchCalls(mem, pc, n), used)
    decreases n
  {
    hide Reads, Accessible;
    if n == 0 {
      assert t + [] == t;
    } else {
      var c := ReadMemCall(pc, n, ReadExecutable);
      ReadOther(t, used, c);
      FetchCallsRead(t + [c], used, mem, pc, n - 1);
      assert t + [c] + FetchCalls(mem, pc, n - 1) == t + ([c] + FetchCalls(mem, pc, n - 1));
    }
  }

  lemma {:induction false} MemCallsRead(t: seq<Call>, used: set<RegId>, inst: Inst, e: Env, k: nat)
    requires Reads(t, used) && k <= |inst.mems|
    ensures Reads(t + MemCalls(inst, e, k), used)
  {
    hide Reads, AddressOf, MemGranted, HintOf;
    if k == 0 {
      assert t + [] == t;
    } else {
      MemCallsRead(t, used, inst, e, k - 1);
      var c := ReadMemCall(AddressOf(inst, k - 1, e.regs), inst.mems[k - 1].size, HintOf(inst.mems[k - 1]));
      ReadOther(t + MemCalls(inst, e, k - 1), used, c);
      assert t + MemCalls(inst, e, k - 1) + [c] == t + (MemCalls(inst, e, k - 1) + [c]);
    }
  }

  // An operand that is written is asked for as one to be written.
  lemma {:induction false} MemCallsRequest(inst: Inst, e: Env, k: nat, i: nat)
    requires i < k <= |inst.mems| && MemGranted(inst, e, k) && inst.mems[i].written && !inst.mems[i].agen
    ensures Requested(MemCalls(inst, e, k), AddressOf(inst, i, e.regs), inst.mems[i].size)
  {
    hide AddressOf, MemReadable, Requested;
    var init := MemCalls(inst, e, k - 1);
    assert MemGranted(inst, e, k - 1);
    if i == k - 1 {
      RequestedNow(init, AddressOf(inst, i, e.regs), inst.mems[i].size, HintOf(inst.mems[i]));
    } else {
      MemCallsRequest(inst, e, k - 1, i);
      RequestedLater(init, MemCalls(inst, e, k), AddressOf(inst, i, e.regs), inst.mems[i].size);
    }
  }

  lemma NothingRead()
    ensures Reads([], {}) && NoWrites([])
  {
  }

  lemma NoWritesMore(t: seq<Call>, c: Call)
    requires NoWrites(t) && Rank(c) == 0
    ensures NoWrites(t + [c])
  {
  }

  lemma {:induction false} RegCallsAsk(t: seq<Call>, ws: seq<Want>, asked: set<RegId>, deny: set<RegId>)
    requires NoWrites(t)
    ensures NoWrites(t + RegCalls(ws, asked, deny))
  {
    hide NoWrites;
    if ws == [] {
      assert t + [] == t;
    } else {
      var init, w := ws[..|ws| - 1], ws[|ws| - 1];
      RegCallsAsk(t, init, asked, deny);
      NoWritesMore(t + RegCalls(init, asked, deny), ReadRegCall(w.id, w.hint));
      assert t + RegCalls(init, asked, deny) + [ReadRegCall(w.id, w.hint)]
        == t + (RegCalls(init, asked, deny) + [ReadRegCall(w.id, w.hint)]);
    }
  }

  // Whatever an instruction comes to, it asks without writing.
  lemma InstCallsAsk(t: seq<Call>, inst: Inst, e: Env)
    requires Reads(t, {RIP}) && RIP !in e.deny.readRegs
    ensures NoWrites(t + InstCalls(inst, e))
  {
    hide Reads, NoWrites, FlagCalls, RegCalls, OperandCalls, Wants, UsedIds, ReadSet;
    var flags := FlagCalls(ReadSet(inst), e.deny.readFlags, |FLAG_ORDER|);
    var regs := RegCalls(Wants(inst), {RIP}, e.deny.readRegs);
    assert t + [] == t;
    ReadsDoNotWrite(t, {RIP});
    FlagCallsRead(t, {RIP}, ReadSet(inst), e.deny.readFlags, |FLAG_ORDER|);
    ReadsDoNotWrite(t + flags, {RIP});
    RegCallsAsk(t + flags, Wants(inst), {RIP}, e.deny.readRegs);
    assert t + flags + regs == t + (flags + regs);
    if RegsReadable(inst, e) {
      RegsRead(t + flags, inst, e);
      OperandCallsRead(t + flags + regs, {RIP} + UsedIds(inst), inst, e);
      assert t + flags + regs + OperandCalls(inst, e) == t + (flags + regs + OperandCalls(inst, e));
      ReadsDoNotWrite(t + flags + regs + OperandCalls(inst, e), {RIP} + UsedIds(inst));
    }
  }

  lemma RegsRead(t: seq<Call>, inst: Inst, e: Env)
    requires Reads(t, {RIP}) && RegsReadable(inst, e)
    ensures Reads(t + RegCalls(Wants(inst), {RIP}, e.deny.readRegs), {RIP} + UsedIds(inst))
  {
    hide Reads, RegCalls, Wants, UsedIds;
    WantsIds(inst);
    RegCallsRead(t, {RIP}, Wants(inst), e.deny.readRegs);
  }

  lemma OperandCallsRead(t: seq<Call>, used: set<RegId>, inst: Inst, e: Env)
    requires Reads(t, used)
    ensures Reads(t + OperandCalls(inst, e), used)
  {
    hide Reads, MemCalls;
    assert t + [] == t;
    ReadFpu(t, used);
    MemCallsRead(t, used, inst, e, |inst.mems|);
    MemCallsRead(t + [ReadFpuCall], used, inst, e, |inst.mems|);
    var mem := MemCalls(inst, e, |inst.mems|);
    assert t + [ReadFpuCall] + mem == t + ([ReadFpuCall] + mem);
  }

  // One whose flags and registers are granted has asked once for each register that it names.
  lemma InstCallsRead(t: seq<Call>, inst: Inst, e: Env)
    requires Reads(t, {RIP}) && !inst.unsupported && ReadSet(inst) * e.deny.readFlags == {} && RegsReadable(inst, e)
    ensures Reads(t + InstCalls(inst, e), {RIP} + UsedIds(inst))
  {
    hide Reads, FlagCalls, RegCalls, OperandCalls, Wants, UsedIds, ReadSet;
    var flags := FlagCalls(ReadSet(inst), e.deny.readFlags, |FLAG_ORDER|);
    var regs := RegCalls(Wants(inst), {RIP}, e.deny.readRegs);
    FlagCallsRead(t, {RIP}, ReadSet(inst), e.deny.readFlags, |FLAG_ORDER|);
    RegsRead(t + flags, inst, e);
    OperandCallsRead(t + flags + regs, {RIP} + UsedIds(inst), inst, e);
    assert t + flags + regs + OperandCalls(inst, e) == t + (flags + regs + OperandCalls(inst, e));
  }

  // The calls up to decoding.
  lemma FetchRead(m: Machine, e: Env)
    ensures Reads([ReadRegCall(RIP, ProgramCounter)], {RIP})
    ensures Reads([ReadRegCall(RIP, ProgramCounter)] + FetchCalls(e.mem, e.regs[RIP], MAX_INST_LENGTH), {RIP})
  {
    hide FetchCalls;
    var pc := ReadRegCall(RIP, ProgramCounter);
    NothingRead();
    ReadMore([], {}, pc);
    assert [] + [pc] == [pc] && {} + {RIP} == {RIP};
    FetchCallsRead([pc], {RIP}, e.mem, e.regs[RIP], MAX_INST_LENGTH);
  }

  // What is written was announced, in the calls of the instruction's operands.
  lemma WritesRequested(m: Machine, inst: Inst, e: Env, s: State, pc: Word, u: Update)
    requires Decoded(inst, m.addr) && OperandsReadable(inst, e) && u in StepUpdates(inst, e, s, pc) && u.ToMem?
    ensures Requested(MemCalls(inst, e, |inst.mems|), u.address, u.size)
  {
    hide AddressOf, LateUpdates, WriteBackIds, MemCalls, Requested;
    if u in LateUpdates(inst.writtenFlags, s.flags, WriteBackIds(inst, e.regs), s.regs, pc) {
      LateUpdatesAre(inst.writtenFlags, s.flags, WriteBackIds(inst, e.regs), s.regs, pc, u);
    } else {
      var i: nat := if u in MemUpdates(inst, e, 0, s.mem0) then 0 else 1;
      assert i < |inst.mems| && inst.mems[i].written;
      MemCallsRequest(inst, e, |inst.mems|, i);
    }
  }

  lemma RequestedAfter(t: seq<Call>, s: seq<Call>, address: Word, size: nat)
    requires Requested(s, address, size)
    ensures Requested(t + s, address, size)
  {
    var i :| 0 <= i < |s| && s[i].ReadMemCall? && s[i].address == address && s[i].size == size
      && ChecksWrite(s[i].hint);
    assert (t + s)[|t| + i] == s[i];
  }

  lemma EndsInMemory(inst: Inst, e: Env) returns (before: seq<Call>)
    requires !inst.unsupported && ReadSet(inst) * e.deny.readFlags == {} && RegsReadable(inst, e)
    requires !inst.nop && !(inst.usesFpu && e.deny.readFpu)
    ensures InstCalls(inst, e) == before + MemCalls(inst, e, |inst.mems|)
  {
    hide FlagCalls, RegCalls, MemCalls, Wants, UsedIds, ReadSet;
    var flags := FlagCalls(ReadSet(inst), e.deny.readFlags, |FLAG_ORDER|);
    var regs := RegCalls(Wants(inst), {RIP}, e.deny.readRegs);
    var mem := MemCalls(inst, e, |inst.mems|);
    before := flags + regs + if inst.usesFpu then [ReadFpuCall] else [];
    assert flags + regs + ([ReadFpuCall] + mem) == flags + regs + [ReadFpuCall] + mem;
  }

  // All the memory of a step's plan is asked for before.
  lemma PlanRequested(m: Machine, e: Env, u: Update)
    requires PlanStep(m, e).Write? && u in PlanStep(m, e).updates && u.ToMem?
    ensures Requested(ReadCalls(m, e), u.address, u.size)
  {
    hide PlanInst, Decoded, OperandsReadable, Reference, RegsReadable, ReadSet, StepUpdates, NopUpdates, NextPC;
    hide FetchLength, FetchCalls, MemCalls, InstCalls, Requested;
    StepCases(m, e);
    var inst := Fetch(m, e).value;
    PlanCases(m, inst, e);
    if inst.nop {
      NopWritesNone(inst, e, NextPC(m, inst, e), u);
    } else {
      var o := Reference(m, inst, e);
      WritesRequested(m, inst, e, o.s, o.pc, u);
      var before := EndsInMemory(inst, e);
      RequestedAfter(before, MemCalls(inst, e, |inst.mems|), u.address, u.size);
      RequestedAfter([ReadRegCall(RIP, ProgramCounter)] + FetchCalls(e.mem, e.regs[RIP], MAX_INST_LENGTH),
                     InstCalls(inst, e), u.address, u.size);
    }
  }

  lemma NopWritesNone(inst: Inst, e: Env, pc: Word, u: Update)
    requires u in NopUpdates(inst, e, pc)
    ensures !u.ToMem?
  {
    hide LateUpdates, WriteBackIds;
    LateUpdatesAre(inst.writtenFlags, e.flags, WriteBackIds(inst, e.regs), e.regs, pc, u);
  }

  lemma PlanReads(m: Machine, e: Env)
    requires PlanStep(m, e).Write?
    ensures Reads(ReadCalls(m, e), {RIP} + UsedIds(PlanStep(m, e).inst))
  {
    hide PlanInst, Decoded, OperandsReadable, Reference, RegsReadable, ReadSet, StepUpdates, NopUpdates, NextPC;
    hide FetchLength, FetchCalls, MemCalls, InstCalls, Reads, UsedIds;
    StepCases(m, e);
    var inst := Fetch(m, e).value;
    PlanCases(m, inst, e);
    FetchRead(m, e);
    InstCallsRead([ReadRegCall(RIP, ProgramCounter)] + FetchCalls(e.mem, e.regs[RIP], MAX_INST_LENGTH), inst, e);
  }

  // Asking does not write.
  lemma ReadCallsAsk(m: Machine, e: Env)
    ensures NoWrites(ReadCalls(m, e))
  {
    hide Decoded, FetchLength, FetchCalls, MemCalls, InstCalls, Reads, NoWrites;
    FetchRead(m, e);
    var pc := [ReadRegCall(RIP, ProgramCounter)];
    var fetch := FetchCalls(e.mem, e.regs[RIP], MAX_INST_LENGTH);
    ReadsDoNotWrite(pc, {RIP});
    ReadsDoNotWrite(pc + fetch, {RIP});
    assert pc + fetch + [] == pc + fetch;
    if RIP !in e.deny.readRegs && Fetch(m, e).Some? {
      InstCallsAsk(pc + fetch, Fetch(m, e).value, e);
    }
  }

  // The calls of a step are reads and then the writes of its plan; everything that is said of such calls holds
  // of them.
  lemma CallsAreTrace(m: Machine, e: Env)
    ensures TraceOf(m, e, StepCalls(m, e))
  {
    hide PlanStep, ReadCalls, UsedIds, Attempted, Reads, Requested, NoWrites;
    var t, asked := StepCalls(m, e), ReadCalls(m, e);
    ReadCallsAsk(m, e);
    assert asked + [] == asked;
    if PlanStep(m, e).Write? {
      var us := PlanStep(m, e).updates;
      var vs := Attempted(e, us);
      PlanReads(m, e);
      DoneAttemptsAll(e, us);
      assert t[..|t| - |vs|] == asked && t[|t| - |vs|..] == CallsOf(vs);
      forall u | u in vs && u.ToMem?
        ensures Requested(asked, u.address, u.size)
      {
        AmongAll(us, vs, u);
        PlanRequested(m, e, u);
      }
    }
  }

  lemma AmongAll(us: seq<Update>, vs: seq<Update>, u: Update)
    requires vs <= us && u in vs
    ensures u in us
  {
    var i :| 0 <= i < |vs| && vs[i] == u;
    assert us[i] == u;
  }
}
