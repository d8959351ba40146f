/**
 The micro-executor: static register cache, bitsets of used and modified registers, staged memory
 operands, and write-back. Every step is proved to do exactly what module Isa says, whatever the
 cache held before.
 */
module MicroExecutor {
  import opened Bits
  import opened FlatMemory
  import opened Machine
  import opened Isa
  import opened CacheArithmetic
  import opened Locality
  import opened StackAlias
  import opened Trace
  import opened Requests
  import opened Updates
  import opened PageTables
  import opened PagedMemory
  import opened Protection
  import opened StepResults

  // A memory operand read from the user, and possibly to be written back.
  datatype Staged = Staged(present: bool, writeBack: bool, address: Word, size: nat, data: nat)

  type Staging = s: seq<Staged> | |s| == 2 witness seq(2, _ => Staged(false, false, 0, 0, 0))

  lemma SameStagingReflexive(s: Staging)
    ensures SameStaging(s, s)
  {
  }

  // Where an operand was staged.
  ghost predicate StagedIn(staged: Staged, inst: Inst, i: nat, e: Env) {
    if i < |inst.mems| then
      && staged.present && staged.writeBack == inst.mems[i].written
      && staged.address == AddressOf(inst, i, e.regs) && staged.size == inst.mems[i].size
    else !staged.present
  }

  // The operand as it was read: its address, its data, and whether it goes back.
  ghost predicate StagedFor(staged: Staged, inst: Inst, i: nat, e: Env) {
    if i < |inst.mems| then
      && MemReadable(inst, e, i)
      && staged == Staged(true, inst.mems[i].written, AddressOf(inst, i, e.regs), inst.mems[i].size,
                          MemValue(inst, e, i))
    else !staged.present
  }

  lemma AllStagedFor(memory: Staging, inst: Inst, e: Env)
    requires |inst.mems| <= 2 && forall j: nat :: j < |inst.mems| ==> StagedFor(memory[j], inst, j, e)
    requires forall j: nat :: |inst.mems| <= j < 2 ==> !memory[j].present
    ensures OperandsReadable(inst, e) && StagedFor(memory[0], inst, 0, e) && StagedFor(memory[1], inst, 1, e)
  {
    hide AddressOf, MemReadable, MemValue;
    assert |inst.mems| > 0 ==> StagedFor(memory[0], inst, 0, e);
    assert |inst.mems| > 1 ==> StagedFor(memory[1], inst, 1, e);
    assert |inst.mems| <= 0 ==> !memory[0].present;
    assert |inst.mems| <= 1 ==> !memory[1].present;
    forall i | 0 <= i < |inst.mems|
      ensures MemReadable(inst, e, i)
    {
      assert i == 0 || i == 1;
    }
  }

  lemma StagedInKept(before: Staging, after: Staging, inst: Inst, e: Env)
    requires SameStaging(before, after) && StagedIn(before[0], inst, 0, e) && StagedIn(before[1], inst, 1, e)
    ensures StagedIn(after[0], inst, 0, e) && StagedIn(after[1], inst, 1, e)
  {
  }

  lemma StagedUpdates(staged: Staged, inst: Inst, i: nat, e: Env)
    requires StagedIn(staged, inst, i, e)
    ensures MemUpdates(inst, e, i, staged.data) ==
      if staged.present && staged.writeBack then [ToMem(staged.address, staged.size, staged.data)] else []
    ensures staged.present ==> i < |inst.mems| && staged.writeBack == inst.mems[i].written
    ensures staged.present ==> staged.address == AddressOf(inst, i, e.regs) && staged.size == inst.mems[i].size
  {
    hide AddressOf;
  }

  // Only the data of staged operands may differ.
  ghost predicate SameStaging(before: Staging, after: Staging) {
    && after[0] == before[0].(data := after[0].data)
    && after[1] == before[1].(data := after[1].data)
  }

  lemma SameStagingAsIs(mem: Staging)
    ensures SameStaging(mem, mem)
  {
  }

  class Executor {
    const m: Machine
    var initialized: bool

    // The user behind the callbacks: memory is reached through the process alone; mem is what that memory
    // stands for.
    const process: Process
    var user: Thread
    ghost var mem: Flat

    // The calls of the current step.
    ghost var trace: seq<Call>

    // Storage for register data. In 32-bit mode only the low halves are ever requested.
    var gRegs: Regs
    var gFlags: Flags
    var gUsed: set<RegId>
    var gModified: set<RegId>
    var gStore: set<RegId>
    var gStackPtrAlias: Option<RegId>
    var gWriteBackFlags: set<Flag>
    var gMemory: Staging
    var gUsesFpu: bool
    var gFpu: nat

    constructor (m: Machine, process: Process, user: Thread)
      requires process.memory.Valid()
      ensures !initialized && Served()
      ensures this.m == m && this.process == process && this.user == user
    {
      this.m, this.process, this.user, initialized := m, process, user, false;
      mem, trace := process.memory.View(), [];
      gRegs := seq(NUM_REGS, _ => 0);
      gFlags := {};
      gUsed, gModified, gStore, gStackPtrAlias, gWriteBackFlags := {}, {}, {}, None, {};
      gMemory := seq(2, _ => Staged(false, false, 0, 0, 0));
      gUsesFpu, gFpu := false, 0;
    }

    // The user's state as the reference has it.
    ghost function User(): Env
      reads `user, `mem
    {
      EnvOf(user, mem)
    }

    ghost predicate Served()
      reads `mem, process.memory, process.memory.maps.Values
    {
      process.memory.Valid() && process.memory.View() == mem
    }

    // Once, before anything is executed: whether the host gives the memory to run instructions from.
    method Init(mapped: bool) returns (ok: bool)
      modifies `initialized, `gWriteBackFlags, `gRegs
      ensures ok == initialized == (old(initialized) || mapped)
      ensures old(initialized) || !mapped ==> gRegs == old(gRegs) && gWriteBackFlags == old(gWriteBackFlags)
      ensures !old(initialized) && mapped ==> gWriteBackFlags == {} && forall id: RegId :: gRegs[id] == 0
    {
      if initialized {
        return true;
      }
      if !mapped {
        return false;
      }
      gWriteBackFlags := {};
      gRegs := seq(NUM_REGS, _ => 0);
      initialized := true;
      ok := true;
    }

    // What the cache stands for

    ghost function CachedRegs(): Regs
      reads `gRegs
    {
      WrapAll(m.addr, gRegs)
    }

    ghost function CachedMem(i: nat): nat
      reads `gMemory
      requires i < 2
    {
      if gMemory[i].present then gMemory[i].data else 0
    }

    ghost function Cached(): State
      reads `gFlags, `gUsesFpu, `gFpu, `gRegs, `gMemory
    {
      State(CachedRegs(), gFlags, CachedMem(0), CachedMem(1), if gUsesFpu then gFpu else 0)
    }

    // The registers requested so far hold the user's values.
    ghost predicate Loaded()
      reads `user, `mem, `gUsed, `gStore, `gRegs
    {
      AgreeRegs(CachedRegs(), User().regs, gUsed) && gStore == gUsed
    }

    function Widest(id: RegId): Reg {
      WidestOf(m.addr, id)
    }

    // Requests to the user

    method ReadReg(id: RegId, hint: RegHint) returns (ok: bool, val: Word)
      modifies `trace
      ensures trace == old(trace) + [ReadRegCall(id, hint)]
      ensures ok == (id !in User().deny.readRegs) && val == User().regs[id]
    {
      trace := trace + [ReadRegCall(id, hint)];
      ok, val := id !in user.deny.readRegs, user.regs[id];
    }

    method WriteReg(id: RegId, val: Word) returns (ok: bool)
      modifies `trace, `user
      ensures Wrote(old(User()), old(trace), [ToReg(id, val)], if ok then Good else ErrorWriteReg, User(), trace)
    {
      WroteOne(User(), trace, ToReg(id, val));
      trace := trace + [WriteRegCall(id)];
      ok := id !in user.deny.writeRegs;
      if ok {
        user := user.(regs := user.regs[id := val]);
      }
    }

    method ReadFlag(f: Flag) returns (ok: bool, val: bool)
      modifies `trace
      ensures trace == old(trace) + [ReadFlagCall(f)]
      ensures ok == (f !in User().deny.readFlags) && val == (f in User().flags)
    {
      trace := trace + [ReadFlagCall(f)];
      ok, val := f !in user.deny.readFlags, f in user.flags;
    }

    method WriteFlag(f: Flag, val: bool) returns (ok: bool)
      modifies `trace, `user
      ensures Wrote(old(User()), old(trace), [ToFlag(f, val)], if ok then Good else ErrorWriteFlags, User(), trace)
    {
      WroteOne(User(), trace, ToFlag(f, val));
      trace := trace + [WriteFlagCall(f)];
      ok := f !in user.deny.writeFlags;
      if ok {
        user := user.(flags := SetTo(user.flags, f, val));
      }
    }

    method ReadMem(address: Word, size: nat, hint: MemHint) returns (ok: bool, data: seq<byte>)
      requires Served() && hint != AddressGeneration
      modifies `trace, process.memory`maps
      ensures Served() && fresh(process.memory.maps.Values - old(process.memory.maps.Values))
      ensures trace == old(trace) + [ReadMemCall(address, size, hint)]
      ensures ok == Accessible(mem, address, size, hint)
      ensures ok ==> data == BytesAt(mem, address, size)
    {
      hide Memory.Valid, Memory.View, Memory.IsOrdinary, Memory.Tab, BoundsKept, Accessible, BytesAt;
      trace := trace + [ReadMemCall(address, size, hint)];
      var r := process.ReadMemory(address, size, hint);
      ok, data := r.Some?, if r.Some? then r.value else [];
    }

    // Permissions are not looked at again: memory refuses only where there is none.
    method WriteMem(address: Word, size: nat, data: nat) returns (ok: bool)
      requires Served()
      modifies `trace, `mem, process.memory`maps, process.memory.maps.Values
      ensures Served() && fresh(process.memory.maps.Values - old(process.memory.maps.Values))
      ensures Mapped(old(mem), address, size) ==>
        ok && Wrote(old(User()), old(trace), [ToMem(address, size, data)], Good, User(), trace)
    {
      hide Memory.Valid, Memory.View, Memory.IsOrdinary, Memory.Regular, Memory.Tab, Memory.Takes;
      hide BoundsKept, Wrote, Store, Mapped, Hold;
      WroteOne(User(), trace, ToMem(address, size, data));
      trace := trace + [WriteMemCall(address, size)];
      ok := process.WriteMemory(address, ToBytes(data, size));
      mem := process.memory.View();
    }

    method ReadFPU() returns (ok: bool)
      modifies `trace, `gFpu
      ensures trace == old(trace) + [ReadFpuCall]
      ensures ok == !User().deny.readFpu && (ok ==> gFpu == User().fpu)
    {
      trace := trace + [ReadFpuCall];
      ok := !user.deny.readFpu;
      if ok {
        gFpu := user.fpu;
      }
    }

    method WriteFPU() returns (ok: bool)
      modifies `trace, `user
      ensures Wrote(old(User()), old(trace), [ToFpu(gFpu)], if ok then Good else ErrorWriteFPU, User(), trace)
    {
      WroteOne(User(), trace, ToFpu(gFpu));
      trace := trace + [WriteFpuCall];
      ok := !user.deny.writeFpu;
      if ok {
        user := user.(fpu := gFpu);
      }
    }

    // The register cache

    // AH, BH, CH and DH are read out of the 16-bit register around them.
    function ReadGPR(r: Reg): (val: Word)
      reads `gRegs
      ensures val == Slice(gRegs[r.id], r.part)
      ensures PartFits(r, m.addr) ==> val == Get(CachedRegs(), r)
    {
      Low16High8(gRegs[r.id]);
      if m.addr == A32 && Narrow(r.part) then SliceOfLowHalf(gRegs[r.id], r.part); ReadPart(gRegs[r.id], r.part)
      else ReadPart(gRegs[r.id], r.part)
    }

    function ReadOptional(r: Option<Reg>): (val: Word)
      reads `gRegs
      ensures FitsOperand(r, m.addr) ==> val == OptGet(CachedRegs(), r)
    {
      if r.Some? then ReadGPR(r.value) else 0
    }

    // Writing a 32-bit register zero-extends; writing AH and its like replaces the second byte.
    method WriteGPR(r: Reg, val: Word)
      modifies `gRegs
      ensures gRegs == old(gRegs)[r.id := Splice(old(gRegs[r.id]), r.part, val)]
      ensures PartFits(r, m.addr) ==> CachedRegs() == Put(m.addr, old(CachedRegs()), r, val)
    {
      hide Splice, Put, Wrap;
      var whole := gRegs[r.id];
      SpliceIs(whole, r.part, val);
      match r.part {
        case Full64 => gRegs := gRegs[r.id := val];
        case Low32 => gRegs := gRegs[r.id := val % B32];
        case Low16 => gRegs := gRegs[r.id := whole - whole % B16 + val % B16];
        case High8 => gRegs := gRegs[r.id := whole - whole / B8 % B8 * B8 + val % B8 * B8];
        case Low8 => gRegs := gRegs[r.id := whole - whole % B8 + val % B8];
      }
      assert gRegs == old(gRegs)[r.id := Splice(whole, r.part, val)];
      PutIntoCache(m.addr, old(gRegs), r, val, old(CachedRegs()), CachedRegs());
    }

    // Reading everything the instruction needs

    // Requests a register, unless it was already requested. ReadReg fills only the bits asked for.
    method ReadRegister(r: Reg, hint: RegHint) returns (ok: bool)
      requires Loaded() && FitsMode(User().regs, m.addr)
      modifies `gUsed, `gModified, `gStore, `trace, `gRegs
      ensures ok == (r.id in old(gUsed) || r.id !in User().deny.readRegs)
      ensures ok ==> Loaded()
      ensures gUsed == old(gUsed) + {r.id}
      ensures trace == old(trace) + RegCalls([Want(r.id, hint)], old(gUsed), User().deny.readRegs)
      ensures gModified == old(gModified) + if hint == WriteBackHint then {r.id} else {}
    {
      hide RegCalls, Slice, Splice;
      RegCallsOne(Want(r.id, hint), gUsed, User().deny.readRegs);
      if hint == WriteBackHint {
        gModified := gModified + {r.id};
      }
      if r.id in gUsed {
        assert gUsed == gUsed + {r.id} && trace == trace + [];
        return true;
      }
      var val;
      Refill(m.addr, gRegs[r.id], User().regs[r.id]);
      gRegs := gRegs[r.id := gRegs[r.id] - gRegs[r.id] % Bound(m.addr)];
      ok, val := ReadReg(r.id, hint);
      if ok {
        gRegs := gRegs[r.id := gRegs[r.id] + val];
      }
      gUsed := gUsed + {r.id};
      gStore := gStore + {r.id};
    }

    method ReadPC() returns (ok: bool)
      requires gUsed == {} && gStore == {} && gModified == {} && trace == [] && FitsMode(User().regs, m.addr)
      modifies `gUsed, `gModified, `gStore, `trace, `gRegs
      ensures ok == (RIP !in User().deny.readRegs)
      ensures ok ==> Loaded()
      ensures gUsed == {RIP} && gModified == {RIP} && trace == [ReadRegCall(RIP, ProgramCounter)]
    {
      hide RegCalls;
      RegCallsOne(Want(RIP, ProgramCounter), {}, User().deny.readRegs);
      gModified := gModified + {RIP};
      ok := ReadRegister(Widest(RIP), ProgramCounter);
    }

    method ReadRegistersMemOp(mo: MemOperand) returns (ok: bool)
      requires Loaded() && FitsMode(User().regs, m.addr)
      requires gUsed !! User().deny.readRegs
      modifies `gUsed, `gModified, `gStore, `trace, `gRegs
      ensures ok == (NamedBy(mo) !! User().deny.readRegs)
      ensures ok ==> Loaded() && gUsed == old(gUsed) + NamedBy(mo)
      ensures trace == old(trace) + RegCalls(OperandAddress(mo), old(gUsed), User().deny.readRegs)
      ensures gModified == old(gModified)
    {
      hide RegCalls, WantIds, FitsMode, Loaded;
      ghost var asked, deny := gUsed, User().deny.readRegs;
      ghost var first := if mo.base.Some? then [Want(mo.base.value.id, MemoryBase)] else [];
      ghost var second := if mo.index.Some? then [Want(mo.index.value.id, MemoryIndex)] else [];
      RegCallsOne(Want(RIP, General), asked, deny);
      RegCallsAppend(first, second, asked, deny);
      ok := true;
      if mo.base.Some? {
        RegCallsOne(Want(mo.base.value.id, MemoryBase), asked, deny);
        ok := ReadRegister(mo.base.value, MemoryBase);
      }
      assert gUsed == asked + WantIds(first) && ok == (WantIds(first) !! deny);
      ghost var t := RegCalls(first, asked, deny);
      assert trace == old(trace) + t;
      RegCallsOne(Want(RIP, General), gUsed, deny);
      if ok && mo.index.Some? {
        RegCallsOne(Want(mo.index.value.id, MemoryIndex), gUsed, deny);
        ok := ReadRegister(mo.index.value, MemoryIndex);
      }
      ghost var more := if WantIds(first) !! deny then RegCalls(second, asked + WantIds(first), deny) else [];
      assert trace == old(trace) + (t + more);
    }

    method ReadAddressRegisters(mems: seq<MemOperand>) returns (ok: bool)
      requires Loaded() && FitsMode(User().regs, m.addr)
      requires gUsed !! User().deny.readRegs
      modifies `gUsed, `gModified, `gStore, `trace, `gRegs
      ensures ok == (MemIds(mems) !! User().deny.readRegs)
      ensures ok ==> Loaded() && gUsed == old(gUsed) + MemIds(mems) && gModified == old(gModified)
      ensures trace == old(trace) + RegCalls(AddressWants(mems), old(gUsed), User().deny.readRegs)
    {
      hide RegCalls, WantIds, OperandAddress, FitsMode, Loaded, NamedBy;
      ghost var asked, deny := gUsed, User().deny.readRegs;
      RegCallsOne(Want(RIP, General), asked, deny);
      ok := true;
      var i := 0;
      while i < |mems|
        invariant 0 <= i <= |mems|
        invariant Loaded() && gUsed == asked + MemIds(mems[..i]) && gModified == old(gModified) && gUsed !! deny
        invariant trace == old(trace) + RegCalls(AddressWants(mems[..i]), asked, deny)
      {
        assert mems[..i + 1][..i] == mems[..i];
        AddressWantsIds(mems[..i]);
        OperandAddressIds(mems[i]);
        RegCallsAppend(AddressWants(mems[..i]), OperandAddress(mems[i]), asked, deny);
        ok := ReadRegistersMemOp(mems[i]);
        if !ok {
          assert NamedBy(mems[i]) <= MemIds(mems);
          ghost var rest := AddressWantsRest(mems, i + 1);
          RegCallsStop(AddressWants(mems[..i + 1]), rest, asked, deny);
          return false;
        }
        i := i + 1;
      }
      assert mems[..i] == mems;
      return true;
    }

    method ReadOperandRegisters(ops: seq<RegOperand>, written: bool) returns (ok: bool)
      requires Loaded() && FitsMode(User().regs, m.addr)
      requires gUsed !! User().deny.readRegs
      modifies `gUsed, `gModified, `gStore, `trace, `gRegs
      ensures ok == (IdsWhere(ops, written) !! User().deny.readRegs)
      ensures ok ==> Loaded() && gUsed == old(gUsed) + IdsWhere(ops, written)
      ensures ok ==> gModified == old(gModified) + if written then IdsWhere(ops, written) else {}
      ensures trace == old(trace) + RegCalls(OperandWants(ops, written), old(gUsed), User().deny.readRegs)
    {
      hide RegCalls, WantIds, OperandWants, IdsWhere, FitsMode, Loaded;
      ghost var asked, deny := gUsed, User().deny.readRegs;
      RegCallsOne(Want(RIP, General), asked, deny);
      OperandWantsNone(written);
      assert ops[..0] == [];
      var i := 0;
      while i < |ops|
        invariant 0 <= i <= |ops|
        invariant Loaded() && gUsed !! deny && gUsed == asked + IdsWhere(ops[..i], written)
        invariant gModified == old(gModified) + if written then IdsWhere(ops[..i], written) else {}
        invariant trace == old(trace) + RegCalls(OperandWants(ops[..i], written), asked, deny)
      {
        OperandWantsNext(ops, written, i);
        if ops[i].written == written {
          ghost var w := Want(ops[i].reg.id, if written then WriteBackHint else General);
          OperandWantsIds(ops[..i], written);
          RegCallsOne(w, gUsed, deny);
          RegCallsAppend(OperandWants(ops[..i], written), [w], asked, deny);
          ok := ReadRegister(ops[i].reg, if written then WriteBackHint else General);
          if !ok {
            assert ops[i].reg.id in IdsWhere(ops, written);
            ghost var rest := OperandWantsRest(ops, written, i + 1);
            RegCallsStop(OperandWants(ops[..i + 1], written), rest, asked, deny);
            return false;
          }
        }
        i := i + 1;
      }
      assert ops[..i] == ops;
      return true;
    }

    // Registers of memory operands first, then those only read, then those written.
    method ReadRegisters(inst: Inst) returns (ok: bool)
      requires Loaded() && FitsMode(User().regs, m.addr)
      requires gUsed == {RIP} && gModified == {RIP} && RIP !in User().deny.readRegs
      modifies `gUsed, `gModified, `gStore, `trace, `gRegs
      ensures ok == RegsReadable(inst, User())
      ensures ok ==> Loaded() && gUsed == {RIP} + UsedIds(inst) && gModified == {RIP} + WrittenIds(inst)
      ensures trace == old(trace) + RegCalls(Wants(inst), {RIP}, User().deny.readRegs)
    {
      hide RegCalls, WantIds, AddressWants, OperandWants, FitsMode, Loaded, MemIds, RegIds, IdsWhere;
      ReadAndWritten(inst.regs);
      ghost var deny := User().deny.readRegs;
      ghost var addresses, plain := AddressWants(inst.mems), OperandWants(inst.regs, false);
      ghost var back := OperandWants(inst.regs, true);
      AddressWantsIds(inst.mems);
      OperandWantsIds(inst.regs, false);
      RegCallsAppend(addresses, plain, {RIP}, deny);
      RegCallsAppend(addresses + plain, back, {RIP}, deny);
      ok := ReadAddressRegisters(inst.mems);
      if ok {
        ok := ReadOperandRegisters(inst.regs, false);
      }
      ghost var t := RegCalls(addresses + plain, {RIP}, deny);
      assert trace == old(trace) + t && ok == (WantIds(addresses + plain) !! deny);
      if ok {
        assert gUsed == {RIP} + WantIds(addresses + plain);
        ok := ReadOperandRegisters(inst.regs, true);
        assert trace == old(trace) + (t + RegCalls(back, {RIP} + WantIds(addresses + plain), deny));
      } else {
        assert t + [] == t;
      }
    }

    // Flags that are not requested take whatever the host's flags are.
    method ReadFlags(inst: Inst, host: Flags) returns (ok: bool)
      modifies `gFlags, `gWriteBackFlags, `trace
      ensures ok == (ReadSet(inst) * User().deny.readFlags == {})
      ensures ok ==> AgreeFlags(gFlags, User().flags, ReadSet(inst))
      ensures ok ==> gWriteBackFlags == inst.writtenFlags
      ensures trace == old(trace) + FlagCalls(ReadSet(inst), User().deny.readFlags, |FLAG_ORDER|)
    {
      ghost var which, deny := ReadSet(inst), User().deny.readFlags;
      gWriteBackFlags := inst.writtenFlags;
      var aflag := host;
      var i := 0;
      while i < |FLAG_ORDER|
        invariant 0 <= i <= |FLAG_ORDER|
        invariant gWriteBackFlags == inst.writtenFlags && trace == old(trace) + FlagCalls(which, deny, i)
        invariant forall j :: 0 <= j < i && FLAG_ORDER[j] in ReadSet(inst) ==>
          FLAG_ORDER[j] !in User().deny.readFlags && (FLAG_ORDER[j] in aflag <==> FLAG_ORDER[j] in User().flags)
      {
        var f := FLAG_ORDER[i];
        if f in ReadSet(inst) {
          assert FlagsGranted(which, deny, i);
          var read, val := ReadFlag(f);
          if !read {
            assert f in ReadSet(inst) * User().deny.readFlags;
            FlagCallsStop(which, deny, i + 1, |FLAG_ORDER|);
            return false;
          }
          aflag := SetTo(aflag, f, val);
        }
        i := i + 1;
      }
      gFlags := aflag;
      ok := true;
      forall f | f in ReadSet(inst)
        ensures f !in User().deny.readFlags && (f in gFlags <==> f in User().flags)
      {
        var j := FlagOrderComplete(f);
      }
    }

    // The address as uintptr_t arithmetic computes it.
    function ComputeAddress(inst: Inst, i: nat): (r: Word)
      reads `gRegs
      requires i < |inst.mems| && Decoded(inst, m.addr)
      ensures r == AddressOf(inst, i, CachedRegs())
    {
      hide Decoded, CachedRegs, Get, FitsOperand, OptGet;
      OperandsFit(inst, i, m.addr);
      var mo := inst.mems[i];
      var relative := if BaseId(mo) == Some(RIP) then inst.length else 0;
      WrappingAddress(ReadOptional(mo.base) + relative, ReadOptional(mo.index) * mo.scale,
                      mo.disp + Adjustment(inst, i), mo.width)
    }

    method ReadMemoryOperand(inst: Inst, i: nat) returns (ok: bool)
      requires Decoded(inst, m.addr) && i < |inst.mems| && Loaded() && Covers(inst, gUsed) && Served()
      modifies `trace, `gMemory, process.memory`maps
      ensures Served() && fresh(process.memory.maps.Values - old(process.memory.maps.Values))
      ensures ok == MemReadable(inst, User(), i)
      ensures ok ==> StagedFor(gMemory[i], inst, i, User())
      ensures forall j :: 0 <= j < 2 && j != i ==> gMemory[j] == old(gMemory[j])
      ensures
        var mo := inst.mems[i];
        trace == if mo.agen then old(trace)
                 else old(trace) + [ReadMemCall(AddressOf(inst, i, User().regs), mo.size, HintOf(mo))]
    {
      hide Served, Decoded, Covers, Loaded, AddressOf, Accessible, BytesAt, CachedRegs, AgreeRegs;
      AtMostTwo(inst, m.addr);
      var mo := inst.mems[i];
      LoadedAgrees();
      AddressLocal(inst, i, CachedRegs(), User().regs, gUsed);
      var address := ComputeAddress(inst, i);
      gMemory := gMemory[i := Staged(true, mo.written, address, mo.size, 0)];
      if mo.agen {
        return true;
      }
      var data;
      var hint := HintOf(mo);
      ok, data := ReadMem(address, mo.size, hint);
      if ok {
        gMemory := gMemory[i := gMemory[i].(data := FromBytes(data))];
      }
    }

    lemma LoadedAgrees()
      requires Loaded()
      ensures AgreeRegs(CachedRegs(), User().regs, gUsed)
    {
    }

    method ReadMemory(inst: Inst) returns (ok: bool)
      requires Decoded(inst, m.addr) && Loaded() && Covers(inst, gUsed) && Served()
      modifies `trace, `gMemory, process.memory`maps
      ensures Served() && fresh(process.memory.maps.Values - old(process.memory.maps.Values))
      ensures ok == OperandsReadable(inst, User())
      ensures ok ==> StagedFor(gMemory[0], inst, 0, User()) && StagedFor(gMemory[1], inst, 1, User())
      ensures trace == old(trace) + MemCalls(inst, User(), |inst.mems|)
    {
      hide MemReadable, AddressOf, MemValue, Loaded, Covers, Decoded, Served, StagedFor;
      AtMostTwo(inst, m.addr);
      gMemory := gMemory[0 := gMemory[0].(present := false)];
      gMemory := gMemory[1 := gMemory[1].(present := false)];
      var i := 0;
      while i < |inst.mems|
        invariant 0 <= i <= |inst.mems| && trace == old(trace) + MemCalls(inst, User(), i)
        invariant Served() && fresh(process.memory.maps.Values - old(process.memory.maps.Values))
        invariant MemGranted(inst, User(), i)
        invariant forall j: nat :: j < i ==> StagedFor(gMemory[j], inst, j, User())
        invariant forall j: nat :: |inst.mems| <= j < 2 ==> !gMemory[j].present
      {
        ok := ReadMemoryOperand(inst, i);
        i := i + 1;
        if !ok {
          MemCallsStop(inst, User(), i, |inst.mems|);
          return;
        }
      }
      ok := true;
      AllStagedFor(gMemory, inst, User());
    }

    // Emulation. Each method does to the cache what the reference does to the operand values.

    method UpdateFlagsSub(lhs: Word, rhs: Word, opBytes: int)
      requires opBytes in {1, 2, 4, 8}
      modifies `gFlags
      ensures gFlags == CompareFlags(m, old(gFlags), lhs, rhs, opBytes)
    {
      hide ParityFlag, SetTo, PartOf, PartBound;
      var res := (lhs - rhs) % B64;
      var shift := PartBound(PartOf(opBytes)) / 2;
      var signLhs, signRhs, signRes := m.shiftBit(lhs, shift), m.shiftBit(rhs, shift), m.shiftBit(res, shift);
      var flags := gFlags;
      flags := SetTo(flags, SF, signRes);
      flags := SetTo(flags, CF, lhs < rhs);
      flags := SetTo(flags, OF, signLhs != signRhs && signLhs != signRes);
      flags := SetTo(flags, ZF, 0 == res);
      flags := SetTo(flags, AF, (res / 16 + lhs / 16 + rhs / 16) % 2 == 1);
      flags := SetTo(flags, PF, ParityFlag(res % B8));
      gFlags := flags;
    }

    // Moves a whole register by some amount, as unsigned arithmetic of its width.
    method Advance(id: RegId, amount: int)
      modifies `gRegs
      ensures CachedRegs() == Bump(m.addr, old(CachedRegs()), id, amount)
    {
      var val := (ReadGPR(Widest(id)) + amount) % B64;
      ghost var before := CachedRegs();
      AdvanceWraps(m.addr, before, Widest(id), amount);
      hide Splice, Slice, Bump, Put;
      WriteGPR(Widest(id), val);
    }

    method SetMem(i: nat, val: Word)
      requires i < 2 && gMemory[i].present
      modifies `gMemory
      ensures gMemory == old(gMemory)[i := old(gMemory[i]).(data := SetLow(old(gMemory[i]).data, val))]
    {
      gMemory := gMemory[i := gMemory[i].(data := SetLow(gMemory[i].data, val))];
    }

    ghost predicate AllStaged(inst: Inst)
      reads `gMemory
    {
      forall i: nat :: i < 2 && i < |inst.mems| ==> gMemory[i].present
    }

    function StringInc(inst: Inst): int
      reads `gFlags
    {
      if DF in gFlags then -inst.opBytes else inst.opBytes
    }

    // The bodies of the string instructions.

    method DoStos(inst: Inst)
      requires Decoded(inst, m.addr) && StringOperands(inst, Stos) && AllStaged(inst)
      modifies `gFlags, `gModified, `gRegs, `gMemory
      ensures Cached() == Element(m, inst, Stos, old(Cached()))
      ensures gModified == old(gModified) + StringPointers(Stos)
      ensures SameStaging(old(gMemory), gMemory)
    {
      assert inst.opBytes in {1, 2, 4, 8};
      hide Bump, Put, Slice, Splice, CompareFlags, Low, SetLow, Decoded;
      SetMem(0, ReadGPR(inst.regs[0].reg));
      Advance(RDI, StringInc(inst));
      gModified := gModified + {RDI};
    }

    method DoScas(inst: Inst)
      requires Decoded(inst, m.addr) && StringOperands(inst, Scas) && AllStaged(inst)
      modifies `gFlags, `gModified, `gRegs, `gMemory
      ensures Cached() == Element(m, inst, Scas, old(Cached()))
      ensures gModified == old(gModified) + StringPointers(Scas)
      ensures SameStaging(old(gMemory), gMemory)
    {
      assert inst.opBytes in {1, 2, 4, 8};
      hide Bump, Put, Slice, Splice, CompareFlags, Low, SetLow, Decoded;
      var inc := StringInc(inst);
      UpdateFlagsSub(ReadGPR(inst.regs[0].reg), Low(gMemory[0].data), inst.opBytes);
      Advance(RDI, inc);
      gModified := gModified + {RDI};
    }

    method DoLods(inst: Inst)
      requires Decoded(inst, m.addr) && StringOperands(inst, Lods) && AllStaged(inst)
      modifies `gFlags, `gModified, `gRegs, `gMemory
      ensures Cached() == Element(m, inst, Lods, old(Cached()))
      ensures gModified == old(gModified) + StringPointers(Lods)
      ensures SameStaging(old(gMemory), gMemory)
    {
      assert inst.opBytes in {1, 2, 4, 8};
      hide Bump, Put, Slice, Splice, CompareFlags, Low, SetLow, Decoded;
      WriteGPR(inst.regs[0].reg, Low(gMemory[0].data));
      Advance(RSI, StringInc(inst));
      gModified := gModified + {RSI};
    }

    method DoMovs(inst: Inst)
      requires Decoded(inst, m.addr) && StringOperands(inst, Movs) && AllStaged(inst)
      modifies `gFlags, `gModified, `gRegs, `gMemory
      ensures Cached() == Element(m, inst, Movs, old(Cached()))
      ensures gModified == old(gModified) + StringPointers(Movs)
      ensures SameStaging(old(gMemory), gMemory)
    {
      assert inst.opBytes in {1, 2, 4, 8};
      hide Bump, Put, Slice, Splice, CompareFlags, Low, SetLow, Decoded;
      SetMem(0, Low(gMemory[1].data));
      Advance(RSI, StringInc(inst));
      Advance(RDI, StringInc(inst));
      gModified := gModified + {RSI} + {RDI};
    }

    method DoCmps(inst: Inst)
      requires Decoded(inst, m.addr) && StringOperands(inst, Cmps) && AllStaged(inst)
      modifies `gFlags, `gModified, `gRegs, `gMemory
      ensures Cached() == Element(m, inst, Cmps, old(Cached()))
      ensures gModified == old(gModified) + StringPointers(Cmps)
      ensures SameStaging(old(gMemory), gMemory)
    {
      assert inst.opBytes in {1, 2, 4, 8};
      hide Bump, Put, Slice, Splice, CompareFlags, Low, SetLow, Decoded;
      var inc := StringInc(inst);
      UpdateFlagsSub(Low(gMemory[0].data), Low(gMemory[1].data), inst.opBytes);
      Advance(RSI, inc);
      Advance(RDI, inc);
      gModified := gModified + {RSI} + {RDI};
    }

    method StringElement(inst: Inst, op: StrOp)
      requires Decoded(inst, m.addr) && StringOperands(inst, op) && AllStaged(inst)
      modifies `gFlags, `gModified, `gRegs, `gMemory
      ensures Cached() == Element(m, inst, op, old(Cached()))
      ensures gModified == old(gModified) + StringPointers(op)
      ensures SameStaging(old(gMemory), gMemory)
    {
      hide Element, Decoded, StringOperands, SameStaging, StringPointers, AllStaged;
      match op
      case Stos => DoStos(inst);
      case Scas => DoScas(inst);
      case Lods => DoLods(inst);
      case Movs => DoMovs(inst);
      case Cmps => DoCmps(inst);
    }

    // One round of a repeated instruction: the program counter stays while there is more to do.
    method RepeatString(inst: Inst, op: StrOp, rep: Rep, currPc: Word, nextPc: Word) returns (pc: Word)
      requires Decoded(inst, m.addr) && StringOperands(inst, op)
      requires AllStaged(inst)
      modifies `gFlags, `gModified, `gRegs, `gMemory
      ensures StringStep(m, inst, op, rep, old(Cached()), Wrap(m.addr, currPc), Wrap(m.addr, nextPc))
        == Next(Cached(), Wrap(m.addr, pc))
      ensures gModified == old(gModified) +
        if rep == NoRep || old(CachedRegs())[RCX] != 0 then StringPointers(op) else {}
      ensures SameStaging(old(gMemory), gMemory)
    {
      hide Bump, Put, Slice, Splice, Element, Decoded, StringOperands, Bound, StringPointers;
      pc := nextPc;
      if rep == NoRep {
        StringElement(inst, op);
        return;
      }
      WholeRegister(m.addr, CachedRegs(), RCX);
      var count := ReadGPR(Widest(RCX));
      if count != 0 {
        StringElement(inst, op);
        count := count - 1;
        WholeRegisterWrite(m.addr, CachedRegs(), RCX, count);
        WriteGPR(Widest(RCX), count);
        if count != 0 && (rep == RepAny || (rep == Repe && ZF in gFlags) || (rep == Repne && ZF !in gFlags)) {
          pc := currPc;
        }
      }
    }

    // CALL and RET: the program counter moves between registers and staged memory, and then the
    // stack pointer is adjusted.
    method EmulateTransfer(inst: Inst, nextPc: Word, branchPc: Word, ghost address0: Word, ghost cur: Word)
      returns (pc: Word)
      requires Decoded(inst, m.addr) && FormOperands(inst, m.addr) && AllStaged(inst) && Transfers(inst.form)
      requires forall i :: 0 <= i < |inst.regs| ==> PartFits(inst.regs[i].reg, m.addr)
      requires nextPc < Bound(m.addr) && branchPc == Target(m, inst, nextPc)
      modifies `gRegs, `gMemory
      ensures Isa.Emulate(m, inst, old(Cached()), address0, cur, nextPc) == Next(Cached(), Wrap(m.addr, pc))
      ensures Moved(inst, old(CachedRegs())) == {}
      ensures SameStaging(old(gMemory), gMemory)
    {
      hide Bump, Slice, Low, SetLow, UsedIds, WrittenIds, Target, Wrap;
      WrapTwice(m.addr, nextPc + inst.branchDisp);
      TargetWraps(m, inst, nextPc);
      match inst.form {
        case CallRel =>
          SetMem(0, nextPc);
          pc := branchPc;
          Advance(RSP, -AddrBytes(m.addr));
        case CallReg =>
          SetMem(0, nextPc);
          pc := ReadGPR(inst.regs[0].reg);
          Advance(RSP, -AddrBytes(m.addr));
        case CallMem =>
          SetMem(1, nextPc);
          pc := Low(gMemory[0].data);
          Advance(RSP, -AddrBytes(m.addr));
        case Ret =>
          pc := Low(gMemory[0].data);
          Advance(RSP, AddrBytes(m.addr));
        case RetImm =>
          pc := Low(gMemory[0].data);
          Advance(RSP, AddrBytes(m.addr) + Immediate16(inst));
      }
    }

    method EmulatePushPop(inst: Inst, nextPc: Word, ghost address0: Word, ghost cur: Word)
      requires Decoded(inst, m.addr) && FormOperands(inst, m.addr) && AllStaged(inst) && MovesStack(inst.form)
      requires forall i :: 0 <= i < |inst.regs| ==> PartFits(inst.regs[i].reg, m.addr)
      modifies `gRegs, `gMemory
      ensures Isa.Emulate(m, inst, old(Cached()), address0, cur, nextPc) == Next(Cached(), nextPc)
      ensures Moved(inst, old(CachedRegs())) == {}
      ensures SameStaging(old(gMemory), gMemory)
    {
      hide Bump, Put, Slice, Splice, Low, SetLow, UsedIds, WrittenIds;
      match inst.form {
        case PushReg =>
          SetMem(0, ReadGPR(inst.regs[0].reg));
          Advance(RSP, -inst.opBytes);
        case PushImm =>
          SetMem(0, PushImmediate(inst));
          Advance(RSP, -inst.opBytes);
        case PushMem =>
          SetMem(1, Low(gMemory[0].data));
          Advance(RSP, -inst.opBytes);
        case PopReg =>
          WriteGPR(inst.regs[0].reg, Low(gMemory[0].data));
          Advance(RSP, inst.opBytes);
        case PopMem =>
          SetMem(0, Low(gMemory[1].data));
          Advance(RSP, inst.opBytes);
      }
    }

    // The target as uintptr_t arithmetic computes it, masked to the mode's width.
    function BranchTarget(inst: Inst, next: Word): (r: Word)
      ensures r == Target(m, inst, next)
    {
      WrapOfWord(m.addr, next + inst.branchDisp);
      Wrap(m.addr, (next + inst.branchDisp) % B64)
    }

    // Jumps change nothing but the program counter.
    method EmulateJump(inst: Inst, nextPc: Word, branchPc: Word, ghost address0: Word, ghost cur: Word)
      returns (pc: Word)
      requires Decoded(inst, m.addr) && Jumps(inst.form) && FormOperands(inst, m.addr) && AllStaged(inst)
      requires forall i :: 0 <= i < |inst.regs| ==> PartFits(inst.regs[i].reg, m.addr)
      requires nextPc < Bound(m.addr) && branchPc == Target(m, inst, nextPc)
      ensures Isa.Emulate(m, inst, Cached(), address0, cur, nextPc) == Next(Cached(), Wrap(m.addr, pc))
      ensures Moved(inst, CachedRegs()) == {}
    {
      hide Slice, Low, UsedIds, WrittenIds, CondHolds, Target, Wrap;
      WrapTwice(m.addr, nextPc);
      TargetWraps(m, inst, nextPc);
      pc := nextPc;
      match inst.form {
        case Jcc(c) =>
          if CondHolds(c, gFlags) {
            pc := branchPc;
          }
        case Jrcxz(p) =>
          if ReadGPR(Reg(RCX, p)) == 0 {
            pc := branchPc;
          }
        case JmpRel => pc := branchPc;
        case JmpReg => pc := ReadGPR(inst.regs[0].reg);
        case JmpMem => pc := Low(gMemory[0].data);
      }
    }

    method EmulateString(inst: Inst, currPc: Word, nextPc: Word, ghost address0: Word) returns (pc: Word)
      requires Decoded(inst, m.addr) && inst.form.Str? && AllStaged(inst) && nextPc < Bound(m.addr)
      modifies `gFlags, `gModified, `gRegs, `gMemory
      ensures Isa.Emulate(m, inst, old(Cached()), address0, Wrap(m.addr, currPc), nextPc)
        == Next(Cached(), Wrap(m.addr, pc))
      ensures gModified == old(gModified) + Moved(inst, old(CachedRegs()))
      ensures SameStaging(old(gMemory), gMemory)
    {
      hide StringStep, SameStaging, StringPointers, Wrap;
      WrapTwice(m.addr, nextPc);
      pc := RepeatString(inst, inst.form.op, inst.form.rep, currPc, nextPc);
    }

    method EmulateLea(inst: Inst, nextPc: Word, ghost cur: Word)
      requires Decoded(inst, m.addr) && inst.form.Lea? && AllStaged(inst)
      modifies `gRegs
      ensures Isa.Emulate(m, inst, old(Cached()), gMemory[0].address, cur, nextPc) == Next(Cached(), nextPc)
      ensures Moved(inst, old(CachedRegs())) == {}
    {
      hide Put, Splice;
      WriteGPR(inst.regs[0].reg, gMemory[0].address);
    }

    method EmulateLoop(inst: Inst, nextPc: Word, branchPc: Word, ghost address0: Word, ghost cur: Word)
      returns (pc: Word)
      requires Decoded(inst, m.addr) && inst.form.Loop? && nextPc < Bound(m.addr)
      requires branchPc == Target(m, inst, nextPc)
      modifies `gRegs
      ensures Isa.Emulate(m, inst, old(Cached()), address0, cur, nextPc) == Next(Cached(), Wrap(m.addr, pc))
      ensures Moved(inst, old(CachedRegs())) == {}
    {
      hide Bump, Slice, Splice, Put, UsedIds, WrittenIds, Target, Wrap, FormOperands;
      WrapTwice(m.addr, nextPc);
      TargetWraps(m, inst, nextPc);
      WholeRegister(m.addr, CachedRegs(), RCX);
      var count := ReadGPR(Widest(RCX));
      Advance(RCX, -1);
      pc := if count != 0 && LoopHolds(inst.form.loopWhile, gFlags) then branchPc else nextPc;
    }

    method EmulateXbegin(inst: Inst, nextPc: Word, branchPc: Word, ghost address0: Word, ghost cur: Word)
      requires Decoded(inst, m.addr) && inst.form.Xbegin? && branchPc == Target(m, inst, nextPc)
      modifies `gRegs
      ensures Isa.Emulate(m, inst, old(Cached()), address0, cur, nextPc) == Next(Cached(), Wrap(m.addr, branchPc))
      ensures Moved(inst, old(CachedRegs())) == {}
    {
      hide UsedIds, WrittenIds, Target, FormOperands;
      TargetWraps(m, inst, nextPc);
      gRegs := gRegs[RAX := 8];
    }

    method EmulateLeave(inst: Inst, nextPc: Word, ghost address0: Word, ghost cur: Word)
      requires Decoded(inst, m.addr) && inst.form.Leave? && FormOperands(inst, m.addr) && AllStaged(inst)
      requires forall i :: 0 <= i < |inst.regs| ==> PartFits(inst.regs[i].reg, m.addr)
      modifies `gRegs
      ensures Isa.Emulate(m, inst, old(Cached()), address0, cur, nextPc) == Next(Cached(), nextPc)
      ensures Moved(inst, old(CachedRegs())) == {}
    {
      hide Put, Slice, Splice, Low, UsedIds, WrittenIds;
      WriteGPR(inst.regs[1].reg, ReadGPR(inst.regs[0].reg));
      WriteGPR(inst.regs[0].reg, Low(gMemory[0].data));
    }

    method EmulateBranch(inst: Inst, nextPc: Word, branchPc: Word, ghost address0: Word, ghost cur: Word)
      returns (pc: Word)
      requires Decoded(inst, m.addr) && FormOperands(inst, m.addr) && AllStaged(inst)
      requires Jumps(inst.form) || Transfers(inst.form) || inst.form.Loop? || inst.form.Xbegin?
      requires forall i :: 0 <= i < |inst.regs| ==> PartFits(inst.regs[i].reg, m.addr)
      requires nextPc < Bound(m.addr) && branchPc == Target(m, inst, nextPc)
      modifies `gRegs, `gMemory
      ensures Isa.Emulate(m, inst, old(Cached()), address0, cur, nextPc) == Next(Cached(), Wrap(m.addr, pc))
      ensures Moved(inst, old(CachedRegs())) == {}
      ensures SameStaging(old(gMemory), gMemory)
    {
      hide Isa.Emulate, Moved, Bound, Slice, Wrap, Decoded, FormOperands, Target, AllStaged, SameStaging, Cached;
      hide CachedRegs;
      SameStagingAsIs(gMemory);
      if Jumps(inst.form) {
        pc := EmulateJump(inst, nextPc, branchPc, address0, cur);
      } else if Transfers(inst.form) {
        pc := EmulateTransfer(inst, nextPc, branchPc, address0, cur);
      } else if inst.form.Loop? {
        pc := EmulateLoop(inst, nextPc, branchPc, address0, cur);
      } else {
        EmulateXbegin(inst, nextPc, branchPc, address0, cur);
        pc := branchPc;
      }
    }

    // Works out the next program counter, and what else an emulated instruction does.
    method Emulate(inst: Inst, next: Word) returns (handled: bool, status: Status, pc: Word)
      requires Decoded(inst, m.addr) && AllStaged(inst) && next < Bound(m.addr)
      requires |inst.mems| > 0 ==> gMemory[0].address == AddressOf(inst, 0, CachedRegs())
      modifies `gFlags, `gModified, `gRegs, `gMemory
      ensures handled ==> status == Good
      ensures !handled && status == Good <==> inst.form.Native?
      ensures !handled ==> gModified == old(gModified) && gMemory == old(gMemory)
      ensures !handled && old(Prepared(inst)) ==> Prepared(inst)
      ensures !inst.form.Native? ==>
        Isa.Emulate(m, inst, old(Cached()), if |inst.mems| > 0 then old(gMemory[0]).address else 0,
                    old(CachedRegs())[RIP], next)
        == if handled then Next(Cached(), Wrap(m.addr, pc)) else Halt(status)
      ensures handled ==> gModified == old(gModified) + Moved(inst, old(CachedRegs()))
      ensures SameStaging(old(gMemory), gMemory)
    {
      hide *;
      handled, status, pc := true, Good, next;
      var branchPc := BranchTarget(inst, next);
      WrapTwice(m.addr, next);
      OperandFacts(inst, m.addr);
      FormGroups(inst.form);
      var currPc, cur := CurrentPC();
      ghost var address0 := if |inst.mems| > 0 then gMemory[0].address else 0;
      SameStagingAsIs(gMemory);
      match inst.form {
        case FarTransfer | WideStack =>
          NotEmulated(m, inst, Cached(), address0, cur, next);
          return false, if inst.form.FarTransfer? then UnsupportedCFI else UnsupportedStack, next;
        case Native => return false, Good, next;
        case Lea => EmulateLea(inst, next, cur);
        case Str(op, rep) => pc := EmulateString(inst, currPc, next, address0);
        case Leave => EmulateLeave(inst, next, address0, cur);
        case PushReg | PushImm | PushMem | PopReg | PopMem => EmulatePushPop(inst, next, address0, cur);
        case _ => pc := EmulateBranch(inst, next, branchPc, address0, cur);
      }
    }

    method CurrentPC() returns (pc: Word, ghost cur: Word)
      ensures Wrap(m.addr, pc) == cur == CachedRegs()[RIP]
    {
      pc, cur := ReadGPR(Reg(RIP, Full64)), CachedRegs()[RIP];
    }

    // Native execution

    ghost function AliasedRegs(): Regs
      reads `gStackPtrAlias, `gRegs
    {
      Unalias(CachedRegs(), gStackPtrAlias)
    }

    ghost function AliasedState(): State
      reads `gFlags, `gUsesFpu, `gFpu, `gStackPtrAlias, `gRegs, `gMemory
    {
      Cached().(regs := AliasedRegs())
    }

    // Picks a general register that the instruction does not use, and moves the stack pointer there.
    method CreateStackPointerAlias()
      requires gStackPtrAlias == None && gStore == gUsed
      modifies `gStackPtrAlias, `gRegs
      ensures gStackPtrAlias == FirstFree(gUsed)
      ensures AgreeRegs(AliasedRegs(), old(CachedRegs()), gUsed)
    {
      if RAX !in gStore {
        gStackPtrAlias := Some(RAX);
      } else if RCX !in gStore {
        gStackPtrAlias := Some(RCX);
      } else if RDX !in gStore {
        gStackPtrAlias := Some(RDX);
      } else if RBX !in gStore {
        gStackPtrAlias := Some(RBX);
      }
      if gStackPtrAlias.Some? {
        WriteGPR(Reg(gStackPtrAlias.value, Full64), ReadGPR(Reg(RSP, Full64)));
      }
    }

    // The operands of the instruction to encode, with the stack pointer renamed.
    method EncodeInstruction(inst: Inst) returns (ok: bool, ops: seq<RegOperand>)
      requires gStackPtrAlias == None && gStore == gUsed && gUsed == {RIP} + UsedIds(inst) && OperandFunctional(m)
      modifies `gStackPtrAlias, `gRegs
      ensures ok == Encodable(m, inst)
      ensures ok ==> inst.(regs := ops) == Renamed(inst)
      ensures ok ==> ops == RenameAll(inst.regs, gStackPtrAlias)
      ensures gStackPtrAlias.Some? ==> gStackPtrAlias.value !in gUsed && gStackPtrAlias.value != RSP
      ensures AgreeRegs(AliasedRegs(), old(CachedRegs()), gUsed)
    {
      hide UsedIds, AliasFor, FirstFree, AgreeRegs, RenameAll, Rename, MentionsStackPointer;
      FirstFreeIsAlias(inst, gUsed);
      ghost var free, before := FirstFree(gUsed), CachedRegs();
      AgreeReflexive(before, gUsed);
      assert inst.regs[..0] == [];
      ops := RenameAll(inst.regs[..0], None);
      NoMention();
      var i := 0;
      while i < |inst.regs|
        invariant 0 <= i <= |inst.regs| && |ops| == i
        invariant gStackPtrAlias == None || gStackPtrAlias == free
        invariant gStackPtrAlias == None ==> CachedRegs() == before && !MentionsStackPointer(inst.regs[..i])
        invariant MentionsStackPointer(inst.regs[..i]) ==> free.Some?
        invariant ops == RenameAll(inst.regs[..i], gStackPtrAlias)
        invariant AgreeRegs(AliasedRegs(), before, gUsed)
      {
        var op := inst.regs[i];
        ghost var alias := gStackPtrAlias;
        if op.explicit && op.reg.id == RSP {
          if gStackPtrAlias == None {
            CreateStackPointerAlias();
          }
          if gStackPtrAlias == None {
            MentionedThere(inst.regs, i);
            return false, [];
          }
        }
        RenamedPrefix(inst.regs, i, alias, gStackPtrAlias);
        ops := ops + [Rename(op, gStackPtrAlias)];
        i := i + 1;
      }
      assert inst.regs[..i] == inst.regs;
      if gStackPtrAlias == None {
        NothingToRename(inst.regs, None);
        NothingToRename(inst.regs, free);
      }
      assert inst.(regs := ops) == Renamed(inst);
      ok := m.encodes(inst.(regs := ops));
    }

    // Runs the encoded instruction on the cache: the host reads and writes the registers in its operands.
    method ExecuteNative(inst: Inst, ops: seq<RegOperand>, ghost next: Word) returns (sig: Option<Signal>)
      requires ops == RenameAll(inst.regs, gStackPtrAlias) && AllStaged(inst)
      requires inst.(regs := ops) == Renamed(inst) && OperandFunctional(m)
      requires |inst.mems| == 0 ==> !gMemory[0].present
      requires forall i :: 0 <= i < |inst.regs| ==> PartFits(inst.regs[i].reg, m.addr)
      requires Renamable(inst.regs, gStackPtrAlias, gUsed) && Encodable(m, inst) && gUsesFpu == inst.usesFpu
      modifies `gFlags, `gFpu, `gRegs, `gMemory
      ensures AgreeOutcome(RunNative(m, inst, old(AliasedState()), next),
                           if sig == None then Next(AliasedState(), next) else Halt(StatusOf(sig.value)),
                           gUsed, ReadSet(inst) + inst.writtenFlags)
      ensures SameStaging(old(gMemory), gMemory)
    {
      hide Encodable, Renamed, OperandFunctional, PutResults, OperandValues, AgreeRegs, ReadFlagValues, Renamable;
      hide RenameAll, Slice;
      RenamedValues(inst.regs, gStackPtrAlias, gUsed, CachedRegs());
      var values := ReadOperands(ops);
      var mem0 := if gMemory[0].present then gMemory[0].data else 0;
      var nin := NativeIn(values, mem0, ReadFlagValues(inst, gFlags), if gUsesFpu then gFpu else 0);
      RenamedIs(m, inst, nin);
      var out := m.native(inst.(regs := ops), nin);
      match out {
        case Raised(s) => sig := Some(s);
        case Finished(vs, data, flags, fpu) =>
          if |vs| != |inst.regs| {
            return Some(OtherSignal);
          }
          RenamedResults(m.addr, inst.regs, gStackPtrAlias, gUsed, CachedRegs(), vs);
          WriteOperands(ops, vs);
          gFlags := MergeFlags(gFlags, flags, inst.writtenFlags);
          if gMemory[0].present {
            gMemory := gMemory[0 := gMemory[0].(data := data)];
          }
          gFpu := fpu;
          sig := None;
          AgreeSymmetric(AliasedRegs(), PutResults(m.addr, old(AliasedRegs()), inst.regs, vs), gUsed);
      }
    }

    method ReadOperands(ops: seq<RegOperand>) returns (values: seq<Word>)
      requires forall i :: 0 <= i < |ops| ==> PartFits(ops[i].reg, m.addr)
      ensures values == OperandValues(CachedRegs(), ops)
    {
      values := [];
      var i := 0;
      while i < |ops|
        invariant 0 <= i <= |ops| && values == OperandValues(CachedRegs(), ops[..i])
      {
        assert ops[..i + 1][..i] == ops[..i];
        values := values + [ReadGPR(ops[i].reg)];
        i := i + 1;
      }
      assert ops[..i] == ops;
    }

    method WriteOperands(ops: seq<RegOperand>, vs: seq<Word>)
      requires |vs| == |ops| && forall i :: 0 <= i < |ops| ==> PartFits(ops[i].reg, m.addr)
      modifies `gRegs
      ensures CachedRegs() == PutResults(m.addr, old(CachedRegs()), ops, vs)
    {
      hide Put, Splice;
      assert ops[..0] == [] && vs[..0] == [];
      var i := 0;
      while i < |ops|
        invariant 0 <= i <= |ops| && CachedRegs() == PutResults(m.addr, old(CachedRegs()), ops[..i], vs[..i])
      {
        assert ops[..i + 1][..i] == ops[..i] && vs[..i + 1][..i] == vs[..i];
        if ops[i].written {
          WriteGPR(ops[i].reg, vs[i]);
        }
        i := i + 1;
      }
      assert ops[..i] == ops && vs[..i] == vs;
    }

    function GetNextPC(inst: Inst): (r: Word)
      reads `gRegs
      ensures r == Wrap(m.addr, CachedRegs()[RIP] + inst.length)
    {
      WholeRegister(m.addr, CachedRegs(), RIP);
      WrapOfWord(m.addr, CachedRegs()[RIP] + inst.length);
      Wrap(m.addr, (ReadGPR(Widest(RIP)) + inst.length) % B64)
    }

    // Writing back

    method WriteMemoryOperand(inst: Inst, i: nat, ghost e: Env) returns (ok: bool)
      requires Decoded(inst, m.addr) && OperandsReadable(inst, e) && i < 2 && Served()
      requires StagedIn(gMemory[i], inst, i, e) && mem.Keys == e.mem.Keys
      modifies `trace, `mem, process.memory`maps, process.memory.maps.Values
      ensures Served() && fresh(process.memory.maps.Values - old(process.memory.maps.Values))
      ensures ok && mem.Keys == e.mem.Keys
      ensures Wrote(old(User()), old(trace), MemUpdates(inst, e, i, gMemory[i].data), Good, User(), trace)
    {
      hide Wrote, Decoded, OperandsReadable, AddressOf, Served, StoreValue;
      ok := true;
      var staged := gMemory[i];
      StagedUpdates(staged, inst, i, e);
      if staged.present && staged.writeBack {
        WrittenIsMapped(inst, e, i, m.addr);
        ok := WriteMem(staged.address, staged.size, staged.data);
        WroteKeepsKeys(old(User()), old(trace), MemUpdates(inst, e, i, staged.data), User(), trace);
      } else {
        WroteNothing(User(), trace);
      }
    }

    // A write that was checked when its operand was read cannot fail.
    method WriteMemory(inst: Inst, ghost e: Env) returns (ok: bool)
      requires Decoded(inst, m.addr) && OperandsReadable(inst, e) && Served() && mem == e.mem
      requires StagedIn(gMemory[0], inst, 0, e) && StagedIn(gMemory[1], inst, 1, e)
      modifies `trace, `mem, process.memory`maps, process.memory.maps.Values
      ensures Served() && fresh(process.memory.maps.Values - old(process.memory.maps.Values)) && ok
      ensures Wrote(old(User()), old(trace),
                    MemUpdates(inst, e, 0, gMemory[0].data) + MemUpdates(inst, e, 1, gMemory[1].data),
                    Good, User(), trace)
    {
      hide Wrote, Decoded, OperandsReadable, MemUpdates, Served, StagedIn;
      ok := WriteMemoryOperand(inst, 0, e);
      ghost var between, calls := User(), trace;
      if ok {
        ok := WriteMemoryOperand(inst, 1, e);
      }
      WroteMore(old(User()), old(trace), MemUpdates(inst, e, 0, gMemory[0].data), between, calls,
                MemUpdates(inst, e, 1, gMemory[1].data), Good, User(), trace);
    }

    // Flags go back in their order, up to one that is refused.
    method WriteFlags() returns (ok: bool)
      modifies `trace, `user, `gWriteBackFlags
      ensures Wrote(old(User()), old(trace), FlagUpdates(old(gWriteBackFlags), gFlags, |FLAG_ORDER|),
                    if ok then Good else ErrorWriteFlags, User(), trace)
    {
      hide Wrote, FlagUpdates;
      WroteNothing(User(), trace);
      FlagUpdatesNone(gWriteBackFlags, gFlags);
      var i := 0;
      while i < |FLAG_ORDER|
        invariant 0 <= i <= |FLAG_ORDER| && gWriteBackFlags == old(gWriteBackFlags)
        invariant Wrote(old(User()), old(trace), FlagUpdates(gWriteBackFlags, gFlags, i), Good, User(), trace)
      {
        var f := FLAG_ORDER[i];
        FlagUpdatesNext(gWriteBackFlags, gFlags, i);
        if f in gWriteBackFlags {
          ghost var before, calls := User(), trace;
          ok := WriteFlag(f, f in gFlags);
          WroteMore(old(User()), old(trace), FlagUpdates(gWriteBackFlags, gFlags, i), before, calls,
                    [ToFlag(f, f in gFlags)], if ok then Good else ErrorWriteFlags, User(), trace);
          if !ok {
            ghost var rest := FlagUpdatesRest(gWriteBackFlags, gFlags, i + 1);
            WroteLess(old(User()), old(trace), FlagUpdates(gWriteBackFlags, gFlags, i + 1), ErrorWriteFlags,
                      User(), trace, rest);
            return;
          }
        }
        i := i + 1;
      }
      gWriteBackFlags := {};
      ok := true;
    }

    // The registers that go back: those requested that may have been modified, in their order, the program
    // counter last; up to one that is refused.
    method WriteRegisters() returns (ok: bool)
      requires RIP in gUsed
      requires gStackPtrAlias.Some? ==> gStackPtrAlias.value !in gUsed && gStackPtrAlias.value != RSP
      modifies `trace, `user, `gStackPtrAlias, `gRegs
      ensures Wrote(old(User()), old(trace),
                    RegUpdates(gUsed * gModified, old(AliasedRegs()), NUM_REGS) + [ToReg(RIP, old(AliasedRegs())[RIP])],
                    if ok then Good else ErrorWriteReg, User(), trace)
    {
      hide Wrote, RegUpdates, CachedRegs, AliasedRegs, Wrap;
      ghost var values, which := AliasedRegs(), gUsed * gModified;
      UnaliasRegisters();
      WroteNothing(User(), trace);
      RegUpdatesNone(which, values);
      var i: nat := 0;
      while i < NUM_REGS
        invariant i <= NUM_REGS && CachedRegs() == values
        invariant Wrote(old(User()), old(trace), RegUpdates(which, values, i), Good, User(), trace)
      {
        RegUpdatesNext(which, values, i);
        if i in gUsed && i != RIP && i in gModified {
          ghost var before, calls := User(), trace;
          CachedAt(i);
          ok := WriteReg(i, Wrap(m.addr, gRegs[i]));
          WroteMore(old(User()), old(trace), RegUpdates(which, values, i), before, calls, [ToReg(i, values[i])],
                    if ok then Good else ErrorWriteReg, User(), trace);
          if !ok {
            ghost var rest := RegUpdatesRest(which, values, i + 1);
            WroteLess(old(User()), old(trace), RegUpdates(which, values, i + 1), ErrorWriteReg, User(), trace,
                      rest + [ToReg(RIP, values[RIP])]);
            assert RegUpdates(which, values, i + 1) + (rest + [ToReg(RIP, values[RIP])])
              == RegUpdates(which, values, NUM_REGS) + [ToReg(RIP, values[RIP])];
            return;
          }
        }
        i := i + 1;
      }
      ghost var before, calls := User(), trace;
      CachedAt(RIP);
      ok := WriteReg(RIP, Wrap(m.addr, gRegs[RIP]));
      WroteMore(old(User()), old(trace), RegUpdates(which, values, NUM_REGS), before, calls, [ToReg(RIP, values[RIP])],
                if ok then Good else ErrorWriteReg, User(), trace);
    }

    lemma CachedAt(id: RegId)
      ensures CachedRegs()[id] == Wrap(m.addr, gRegs[id])
    {
    }

    method UnaliasRegisters()
      requires gStackPtrAlias.Some? ==> gStackPtrAlias.value != RSP
      modifies `gStackPtrAlias, `gRegs
      ensures CachedRegs() == old(AliasedRegs()) && gStackPtrAlias == None
    {
      if gStackPtrAlias.Some? {
        WriteGPR(Reg(RSP, Full64), ReadGPR(Reg(gStackPtrAlias.value, Full64)));
        gStackPtrAlias := None;
      }
    }

    // What was read: the cache agrees with the user's state on everything the instruction uses.
    ghost predicate Prepared(inst: Inst)
      reads `user, `mem, `gFlags, `gUsesFpu, `gFpu, `gStackPtrAlias, `gUsed, `gStore, `gRegs, `gMemory
    {
      && Decoded(inst, m.addr) && !inst.nop && OperandsReadable(inst, User())
      && Agree(Cached(), LoadState(inst, User()), gUsed, ReadSet(inst))
      && gUsed == {RIP} + UsedIds(inst) && gStore == gUsed && gStackPtrAlias == None
      && AllStaged(inst) && (|inst.mems| == 0 ==> !gMemory[0].present) && gUsesFpu == inst.usesFpu
    }

    lemma PreparedFacts(inst: Inst)
      requires Prepared(inst)
      ensures Decoded(inst, m.addr) && !inst.nop && OperandsReadable(inst, User())
      ensures Agree(Cached(), LoadState(inst, User()), gUsed, ReadSet(inst))
      ensures gUsed == {RIP} + UsedIds(inst) && gStore == gUsed && gStackPtrAlias == None && Covers(inst, gUsed)
      ensures AllStaged(inst) && (|inst.mems| == 0 ==> !gMemory[0].present) && gUsesFpu == inst.usesFpu
      ensures AgreeRegs(CachedRegs(), User().regs, gUsed) && CachedRegs()[RIP] == User().regs[RIP]
      ensures GetNextPC(inst) == NextPC(m, inst, User()) && NextPC(m, inst, User()) < Bound(m.addr)
      ensures Cached().regs == CachedRegs() && RIP in gUsed
      ensures Cached() == State(CachedRegs(), gFlags, CachedMem(0), CachedMem(1), if gUsesFpu then gFpu else 0)
      ensures Emulated(inst.form) == !inst.form.Native?
      ensures AgreeRegs(Cached().regs, LoadState(inst, User()).regs, gUsed)
      ensures inst.form.Native? ==> Moved(inst, User().regs) == {}
    {
      hide AddressOf, MemValue, Decoded, UsedIds;
      LoadedAsIs(inst, User());
      assert RIP in gUsed;
    }

    method PerformNative(inst: Inst) returns (status: Status)
      requires Prepared(inst) && inst.form.Native? && OperandFunctional(m)
      modifies `gFlags, `gFpu, `gStackPtrAlias, `gRegs, `gMemory
      ensures AgreeOutcome(Reference(m, inst, User()),
                           if status == Good then Next(AliasedState(), NextPC(m, inst, User())) else Halt(status),
                           gUsed, ReadSet(inst) + inst.writtenFlags)
      ensures gStackPtrAlias.Some? ==> gStackPtrAlias.value !in gUsed && gStackPtrAlias.value != RSP
      ensures SameStaging(old(gMemory), gMemory)
    {
      hide *;
      PreparedFacts(inst);
      NativeOperands(inst, m.addr, gUsed, None);
      ghost var loaded := Cached();
      var ok, ops := EncodeInstruction(inst);
      if !ok {
        NotEncodable(m, inst, User(), gUsed);
        SameStagingReflexive(gMemory);
        return ErrorExecute;
      }
      ghost var aliased := AliasedState();
      AliasedIs(loaded);
      NativeOperands(inst, m.addr, gUsed, gStackPtrAlias);
      var sig := ExecuteNative(inst, ops, NextPC(m, inst, User()));
      NativeAgrees(m, inst, User(), loaded, aliased, gUsed,
                   if sig == None then Next(AliasedState(), NextPC(m, inst, User())) else Halt(StatusOf(sig.value)));
      SignalsAreErrors();
      status := if sig == None then Good else StatusOf(sig.value);
    }

    // Only the renamed stack pointer tells the aliased state from a cached one that differs in registers.
    lemma AliasedIs(loaded: State)
      requires loaded.flags == gFlags && loaded.mem0 == CachedMem(0) && loaded.mem1 == CachedMem(1)
      requires loaded.fpu == if gUsesFpu then gFpu else 0
      ensures AliasedState() == loaded.(regs := AliasedRegs())
    {
    }

    // The instruction proper, emulated or native. The result agrees with the reference outcome on every
    // register requested and every flag that counts.
    method Perform(inst: Inst) returns (status: Status, pc: Word)
      requires Prepared(inst) && OperandFunctional(m)
      requires |inst.mems| > 0 ==> gMemory[0].address == AddressOf(inst, 0, User().regs)
      requires gModified == {RIP} + WrittenIds(inst)
      modifies `gFlags, `gModified, `gFpu, `gStackPtrAlias, `gRegs, `gMemory
      ensures AgreeOutcome(Reference(m, inst, User()),
                           if status == Good then Next(AliasedState(), Wrap(m.addr, pc)) else Halt(status),
                           gUsed, ReadSet(inst) + inst.writtenFlags)
      ensures status == Good ==> gModified == {RIP} + WrittenIds(inst) + Moved(inst, User().regs)
      ensures gStackPtrAlias.Some? ==> gStackPtrAlias.value !in gUsed && gStackPtrAlias.value != RSP
      ensures SameStaging(old(gMemory), gMemory)
    {
      hide *;
      PreparedFacts(inst);
      ghost var loaded, next := Cached(), NextPC(m, inst, User());
      ghost var address0 := if |inst.mems| > 0 then gMemory[0].address else 0;
      if |inst.mems| > 0 {
        AddressLocal(inst, 0, CachedRegs(), User().regs, gUsed);
      }
      MovedLocal(inst, CachedRegs(), User().regs, gUsed, m.addr);
      var handled;
      var nextPc := GetNextPC(inst);
      handled, status, pc := Emulate(inst, nextPc);
      if handled || status != Good {
        NoAlias();
        EmulationAgrees(m, inst, User(), loaded, gUsed, address0,
                        if handled then Next(Cached(), Wrap(m.addr, pc)) else Halt(status));
        return;
      }
      status := PerformNative(inst);
      pc := nextPc;
      NarrowIsWrapped(m.addr, pc);
    }

    lemma NoAlias()
      requires gStackPtrAlias == None
      ensures AliasedState() == Cached()
    {
    }

    method SetNextPC(pc: Word)
      requires RIP in gUsed
      requires gStackPtrAlias.Some? ==> gStackPtrAlias.value !in gUsed && gStackPtrAlias.value != RSP
      modifies `gRegs
      ensures AliasedRegs() == old(AliasedRegs())[RIP := Wrap(m.addr, pc)]
    {
      gRegs := gRegs[RIP := pc];
    }

    // Flags, then registers, then the program counter.
    method WriteFlagsAndRegisters(pc: Word) returns (status: Status)
      requires RIP in gUsed
      requires gStackPtrAlias.Some? ==> gStackPtrAlias.value !in gUsed && gStackPtrAlias.value != RSP
      modifies `trace, `user, `gStackPtrAlias, `gRegs, `gWriteBackFlags
      ensures Wrote(old(User()), old(trace),
                    LateUpdates(old(gWriteBackFlags), gFlags, gUsed * gModified, old(AliasedRegs()), Wrap(m.addr, pc)),
                    status, User(), trace)
    {
      hide AliasedRegs, Wrote, FlagUpdates, RegUpdates, Wrap;
      ghost var e0, t0, values, which := User(), trace, AliasedRegs(), gUsed * gModified;
      ghost var fs := FlagUpdates(gWriteBackFlags, gFlags, |FLAG_ORDER|);
      ghost var rs := RegUpdates(which, values, NUM_REGS) + [ToReg(RIP, Wrap(m.addr, pc))];
      LateUpdatesSplit(gWriteBackFlags, gFlags, which, values, Wrap(m.addr, pc));
      var ok := WriteFlags();
      ghost var e1, t1 := User(), trace;
      if !ok {
        WroteLess(e0, t0, fs, ErrorWriteFlags, e1, t1, rs);
        return ErrorWriteFlags;
      }
      SetNextPC(pc);
      RegUpdatesSkipPc(which, which, values, AliasedRegs(), NUM_REGS);
      ok := WriteRegisters();
      status := if ok then Good else ErrorWriteReg;
      WroteMore(e0, t0, fs, e1, t1, rs, status, User(), trace);
    }

    // A NOP writes back what it read.
    method FinishNop(inst: Inst) returns (status: Status)
      requires Decoded(inst, m.addr) && inst.nop && Loaded() && gUsed == {RIP} + UsedIds(inst)
      requires gModified == {RIP} + WrittenIds(inst) && gStackPtrAlias == None
      requires AgreeFlags(gFlags, User().flags, ReadSet(inst)) && gWriteBackFlags == inst.writtenFlags
      modifies `trace, `user, `gStackPtrAlias, `gRegs, `gWriteBackFlags
      ensures Came(old(User()), old(trace), Write(inst, NopUpdates(inst, old(User()), NextPC(m, inst, old(User())))),
                   status, User(), trace)
    {
      ghost var e, values, asked := User(), AliasedRegs(), trace;
      assert GetNextPC(inst) == NextPC(m, inst, e) && NextPC(m, inst, e) < Bound(m.addr);
      assert AgreeRegs(values, e.regs, gUsed);
      hide *;
      NopWriteBack(inst, m.addr, gFlags, e, gUsed, gModified, values, NextPC(m, inst, e));
      var pc := GetNextPC(inst);
      NarrowIsWrapped(m.addr, pc);
      status := WriteFlagsAndRegisters(pc);
      CameWritten(e, inst, NopUpdates(inst, e, pc), status, asked, User(), trace);
    }

    // Memory first, so that nothing has been written when an instruction fails; then the FPU, flags,
    // registers, and the program counter.
    method CommitStep(inst: Inst, pc: Word) returns (status: Status)
      requires Decoded(inst, m.addr) && OperandsReadable(inst, User()) && gUsed == {RIP} + UsedIds(inst) && Served()
      requires AgreeOutcome(Reference(m, inst, User()), Next(AliasedState(), Wrap(m.addr, pc)), gUsed,
                            ReadSet(inst) + inst.writtenFlags)
      requires gModified == {RIP} + WrittenIds(inst) + Moved(inst, User().regs) && !inst.nop
      requires gStackPtrAlias.Some? ==> gStackPtrAlias.value !in gUsed && gStackPtrAlias.value != RSP
      requires StagedIn(gMemory[0], inst, 0, User()) && StagedIn(gMemory[1], inst, 1, User())
      requires gWriteBackFlags == inst.writtenFlags && gUsesFpu == inst.usesFpu
      modifies `trace, `user, `mem, `gStackPtrAlias, `gRegs, `gWriteBackFlags, process.memory`maps,
        process.memory.maps.Values
      ensures Served() && fresh(process.memory.maps.Values - old(process.memory.maps.Values))
      ensures Reference(m, inst, old(User())).Next?
      ensures
        var o := Reference(m, inst, old(User()));
        Wrote(old(User()), old(trace), StepUpdates(inst, old(User()), o.s, o.pc), status, User(), trace)
    {
      hide *;
      ghost var e, t, t0 := User(), AliasedState(), trace;
      CommitFacts(inst);
      WriteBackAgrees(m, inst, e, t, gUsed, Wrap(m.addr, pc));
      ghost var memory := MemUpdates(inst, e, 0, gMemory[0].data) + MemUpdates(inst, e, 1, gMemory[1].data);
      ghost var fpu: seq<Update> := if gUsesFpu then [ToFpu(gFpu)] else [];
      ghost var late := LateUpdates(gWriteBackFlags, gFlags, gUsed * gModified, AliasedRegs(), Wrap(m.addr, pc));
      StepUpdatesSplit(inst, e, t, Wrap(m.addr, pc), gUsed * gModified, gMemory[0].data, gMemory[1].data, gFpu);
      status := WriteEarly(inst, e);
      ghost var e2, t2 := User(), trace;
      if status != Good {
        WroteLess(e, t0, memory + fpu, status, e2, t2, late);
        return;
      }
      status := WriteFlagsAndRegisters(pc);
      WroteMore(e, t0, memory + fpu, e2, t2, late, status, User(), trace);
    }

    // Memory and the FPU.
    method WriteEarly(inst: Inst, ghost e: Env) returns (status: Status)
      requires Decoded(inst, m.addr) && OperandsReadable(inst, e) && Served() && mem == e.mem
      requires StagedIn(gMemory[0], inst, 0, e) && StagedIn(gMemory[1], inst, 1, e)
      modifies `trace, `user, `mem, process.memory`maps, process.memory.maps.Values
      ensures Served() && fresh(process.memory.maps.Values - old(process.memory.maps.Values))
      ensures Wrote(old(User()), old(trace),
                    MemUpdates(inst, e, 0, gMemory[0].data) + MemUpdates(inst, e, 1, gMemory[1].data)
                      + (if gUsesFpu then [ToFpu(gFpu)] else []),
                    status, User(), trace)
    {
      hide *;
      ghost var e0, t0 := User(), trace;
      ghost var memory := MemUpdates(inst, e, 0, gMemory[0].data) + MemUpdates(inst, e, 1, gMemory[1].data);
      var ok := WriteMemory(inst, e);
      if gUsesFpu {
        ghost var e1, t1 := User(), trace;
        ok := WriteFPU();
        status := if ok then Good else ErrorWriteFPU;
        WroteMore(e0, t0, memory, e1, t1, [ToFpu(gFpu)], status, User(), trace);
      } else {
        assert memory + [] == memory;
        status := Good;
      }
    }

    lemma CommitFacts(inst: Inst)
      requires Decoded(inst, m.addr) && OperandsReadable(inst, User()) && gUsed == {RIP} + UsedIds(inst)
      requires StagedIn(gMemory[0], inst, 0, User()) && StagedIn(gMemory[1], inst, 1, User())
      requires gModified == {RIP} + WrittenIds(inst) + Moved(inst, User().regs) && !inst.nop
      ensures Covers(inst, gUsed) && RIP in gUsed && mem == User().mem
      ensures gUsed * gModified - {RIP} == WriteBackIds(inst, User().regs) - {RIP}
      ensures AliasedState().regs == AliasedRegs() && AliasedState().flags == gFlags
      ensures gUsesFpu ==> AliasedState().fpu == gFpu
      ensures 0 < |inst.mems| ==> AliasedState().mem0 == gMemory[0].data
      ensures 1 < |inst.mems| ==> AliasedState().mem1 == gMemory[1].data
    {
      hide MemValue, AddressOf, Unalias, LoadState;
      ReadAndWritten(inst.regs);
      WriteBackUsed(inst, User().regs, gUsed, m.addr);
    }

    // One instruction

    // The longest instruction fetch that the user allows.
    method FetchInstruction(pc: Word) returns (bytes: seq<byte>)
      requires Served()
      modifies `trace, process.memory`maps
      ensures Served() && fresh(process.memory.maps.Values - old(process.memory.maps.Values))
      ensures bytes == FetchBytes(mem, pc)
      ensures trace == old(trace) + FetchCalls(mem, pc, MAX_INST_LENGTH)
    {
      hide Served, FetchLength, Accessible, FetchCalls;
      var length: nat := MAX_INST_LENGTH;
      while length > 0
        invariant length <= MAX_INST_LENGTH
        invariant Served() && fresh(process.memory.maps.Values - old(process.memory.maps.Values))
        invariant FetchLength(mem, pc, MAX_INST_LENGTH) == FetchLength(mem, pc, length)
        invariant old(trace) + FetchCalls(mem, pc, MAX_INST_LENGTH) == trace + FetchCalls(mem, pc, length)
      {
        FetchShorter(mem, pc, length);
        FetchCallsNext(mem, pc, length);
        var ok;
        ok, bytes := ReadMem(pc, length, ReadExecutable);
        if ok {
          return;
        }
        length := length - 1;
      }
      FetchCallsNone(mem, pc);
      bytes := [];
    }

    method ExecuteDecoded(inst: Inst, host: Flags) returns (status: Status)
      requires Decoded(inst, m.addr) && FitsMode(User().regs, m.addr) && RIP !in User().deny.readRegs
        && OperandFunctional(m)
      requires gUsed == {RIP} && gModified == {RIP} && gStackPtrAlias == None && Loaded() && Served()
      modifies this, process.memory`maps, process.memory.maps.Values
      ensures initialized == old(initialized)
      ensures Served() && fresh(process.memory.maps.Values - old(process.memory.maps.Values))
      ensures Came(old(User()), old(trace) + InstCalls(inst, old(User())), PlanInst(m, inst, old(User())),
                   status, User(), trace)
    {
      hide *;
      PlanCases(m, inst, User());
      InstCallsCases(inst, User());
      ghost var e := User();
      if inst.unsupported {
        CameRejected(e, UnsupportedFeatures, trace);
        return UnsupportedFeatures;
      }
      var ok := ReadFlags(inst, host);
      if !ok {
        CameRejected(e, ErrorReadFlags, trace);
        return ErrorReadFlags;
      }
      ok := ReadRegisters(inst);
      if !ok {
        assert trace == old(trace) + InstCalls(inst, e);
        CameRejected(e, ErrorReadReg, trace);
        return ErrorReadReg;
      }
      assert trace + OperandCalls(inst, e) == old(trace) + InstCalls(inst, e);
      status := ExecuteRead(inst);
    }

    // With flags and registers read: a NOP is done, and others go on to their operands.
    method ExecuteRead(inst: Inst) returns (status: Status)
      requires Decoded(inst, m.addr) && FitsMode(User().regs, m.addr) && OperandFunctional(m) && Served()
      requires !inst.unsupported && ReadSet(inst) * User().deny.readFlags == {} && RegsReadable(inst, User())
      requires Loaded() && gUsed == {RIP} + UsedIds(inst) && gModified == {RIP} + WrittenIds(inst)
      requires AgreeFlags(gFlags, User().flags, ReadSet(inst)) && gWriteBackFlags == inst.writtenFlags
      requires gStackPtrAlias == None
      modifies `trace, `user, `mem, `gFlags, `gModified, `gFpu, `gStackPtrAlias, `gRegs, `gMemory, `gWriteBackFlags
      modifies `gUsesFpu, process.memory`maps, process.memory.maps.Values
      ensures Served() && fresh(process.memory.maps.Values - old(process.memory.maps.Values))
      ensures Came(old(User()), old(trace) + OperandCalls(inst, old(User())), PlanInst(m, inst, old(User())),
                   status, User(), trace)
    {
      hide *;
      ghost var e := User();
      PlanCases(m, inst, e);
      OperandCallsCases(inst, e);
      gUsesFpu := inst.usesFpu;
      if inst.nop {
        assert trace + [] == trace;
        status := FinishNop(inst);
        return;
      }
      if gUsesFpu {
        ghost var before := trace;
        var ok := ReadFPU();
        if !ok {
          CameRejected(e, ErrorReadFPU, trace);
          return ErrorReadFPU;
        }
        assert trace + MemCalls(inst, e, |inst.mems|) == before + ([ReadFpuCall] + MemCalls(inst, e, |inst.mems|));
      }
      status := ExecuteLoaded(inst);
    }

    // From reading memory on: the cache holds every register and flag the instruction uses.
    method ExecuteLoaded(inst: Inst) returns (status: Status)
      requires Decoded(inst, m.addr) && !inst.nop && FitsMode(User().regs, m.addr) && Served()
      requires Loaded() && gUsed == {RIP} + UsedIds(inst) && gModified == {RIP} + WrittenIds(inst)
        && OperandFunctional(m)
      requires AgreeFlags(gFlags, User().flags, ReadSet(inst)) && gWriteBackFlags == inst.writtenFlags
      requires gUsesFpu == inst.usesFpu && (gUsesFpu ==> gFpu == User().fpu) && gStackPtrAlias == None
      modifies `trace, `user, `mem, `gFlags, `gModified, `gFpu, `gStackPtrAlias, `gRegs, `gMemory, `gWriteBackFlags
      modifies process.memory`maps, process.memory.maps.Values
      ensures Served() && fresh(process.memory.maps.Values - old(process.memory.maps.Values))
      ensures
        var e, asked := old(User()), old(trace) + MemCalls(inst, old(User()), |inst.mems|);
        if !OperandsReadable(inst, e) then Came(e, asked, Reject(ErrorReadMem), status, User(), trace)
        else
          match Reference(m, inst, e)
          case Halt(st) => Came(e, asked, Reject(st), status, User(), trace)
          case Next(s, pc) => Came(e, asked, Write(inst, StepUpdates(inst, e, s, pc)), status, User(), trace)
    {
      hide *;
      ghost var e := User();
      UsedCovers(inst, gUsed);
      var ok := ReadMemory(inst);
      if !ok {
        CameRejected(e, ErrorReadMem, trace);
        return ErrorReadMem;
      }
      PreparedNow(inst);
      ghost var staging, asked := gMemory, trace;
      var pc;
      status, pc := Perform(inst);
      if status != Good {
        HaltsTogether(m, inst, e, status, gUsed, ReadSet(inst) + inst.writtenFlags);
        CameRejected(e, status, trace);
        return;
      }
      NextTogether(Reference(m, inst, e), Next(AliasedState(), Wrap(m.addr, pc)), gUsed,
                   ReadSet(inst) + inst.writtenFlags);
      StagedInKept(staging, gMemory, inst, e);
      status := CommitStep(inst, pc);
      ghost var o := Reference(m, inst, e);
      CameWritten(e, inst, StepUpdates(inst, e, o.s, o.pc), status, asked, User(), trace);
    }

    lemma PreparedNow(inst: Inst)
      requires Decoded(inst, m.addr) && !inst.nop && OperandsReadable(inst, User()) && Loaded()
      requires AgreeFlags(gFlags, User().flags, ReadSet(inst)) && gUsed == {RIP} + UsedIds(inst)
        && gStackPtrAlias == None
      requires StagedFor(gMemory[0], inst, 0, User()) && StagedFor(gMemory[1], inst, 1, User())
      requires gUsesFpu == inst.usesFpu && (gUsesFpu ==> gFpu == User().fpu)
      ensures Prepared(inst)
      ensures |inst.mems| > 0 ==> gMemory[0].address == AddressOf(inst, 0, User().regs)
      ensures StagedIn(gMemory[0], inst, 0, User()) && StagedIn(gMemory[1], inst, 1, User())
    {
      hide AddressOf, MemReadable, UsedIds;
      LoadedAsIs(inst, User());
    }

    // Fetches, decodes and executes one instruction. Leftovers in the cache do not matter: nothing is
    // assumed of any of it.
    method ExecuteOne(host: Flags) returns (status: Status)
      requires Trusted(m) && OperandFunctional(m) && FitsMode(User().regs, m.addr) && Served()
      modifies this, process.memory`maps, process.memory.maps.Values
      ensures initialized == old(initialized)
      ensures Served() && fresh(process.memory.maps.Values - old(process.memory.maps.Values))
      ensures Came(old(User()), ReadCalls(m, old(User())), PlanStep(m, old(User())), status, User(), trace)
    {
      hide *;
      Reset();
      ghost var e := User();
      ReadCallsCases(m, e);
      StepCases(m, e);
      UserIs();
      var ok := ReadPC();
      if !ok {
        CameRejected(e, ErrorReadReg, trace);
        return ErrorReadReg;
      }
      LoadedPc();
      var bytes := FetchInstruction(ReadGPR(Widest(RIP)));
      if |bytes| == 0 {
        CameRejected(e, ErrorReadInstMem, trace);
        return ErrorReadInstMem;
      }
      var decoded := m.decode(bytes, m.addr);
      if decoded == None {
        CameRejected(e, ErrorDecode, trace);
        return ErrorDecode;
      }
      TrustedDecoder(m, bytes);
      status := ExecuteDecoded(decoded.value, host);
    }

    method Reset()
      modifies `gUsed, `gModified, `gStore, `gStackPtrAlias, `gUsesFpu, `trace
      ensures gUsed == gModified == gStore == {} && gStackPtrAlias == None && trace == []
    {
      gUsed, gModified, gStore, gStackPtrAlias, gUsesFpu, trace := {}, {}, {}, None, false, [];
    }

    lemma UserIs()
      ensures User().mem == mem
    {
    }

    lemma ViewIs()
      requires Served()
      ensures process.memory.Valid() && User().mem == process.memory.View()
    {
    }

    lemma LoadedPc()
      requires Loaded() && RIP in gUsed && FitsMode(User().regs, m.addr)
      ensures ReadGPR(Widest(RIP)) == User().regs[RIP]
    {
      WholeRegister(m.addr, CachedRegs(), RIP);
    }

    // Executes up to n instructions, stopping at the first that fails. Status, state and calls are those of
    // the reference, whatever the cache held and whatever the host's flags are; traces[k] are the calls of
    // step k, that of a failing step among them.
    method Execute(n: nat, host: nat -> Flags) returns (status: Status, done: nat, ghost traces: seq<seq<Call>>)
      requires Trusted(m) && OperandFunctional(m) && FitsMode(User().regs, m.addr) && Served()
      modifies this, process.memory`maps, process.memory.maps.Values
      ensures initialized == old(initialized) && Served()
      ensures fresh(process.memory.maps.Values - old(process.memory.maps.Values))
      ensures n == 0 ==> status == Good && done == 0
      ensures n != 0 && !initialized ==> status == NotInitialized
      ensures n == 0 || !initialized ==> User() == old(User()) && traces == []
      ensures initialized && n != 0 ==>
        Run(m, old(User()), n) == if status == Good then Completed(User()) else Stopped(User(), done, status)
      ensures initialized && n != 0 ==> if status == Good then done == n else done < n
      ensures initialized && n != 0 ==> |traces| == if status == Good then n else done + 1
      ensures forall k: nat :: k < |traces| ==>
        Run(m, old(User()), k).Completed? && traces[k] == StepCalls(m, Run(m, old(User()), k).env)
      ensures initialized && n != 0 && DecidedEarly(status) ==> NoWrites(traces[done])
      ensures status != ErrorWriteMem
      ensures KeepsProtected(old(process.memory.View()), process.memory.View()) && FitsMode(User().regs, m.addr)
    {
      hide *;
      EarlyIs();
      ViewIs();
      ghost var e := User();
      RunNone(m, e);
      ProtectedReflexive(e.mem);
      status, done, traces := Good, 0, [];
      if n == 0 {
        return;
      }
      if !initialized {
        status := NotInitialized;
        return;
      }
      while done < n
        invariant done <= n && initialized && status == Good && |traces| == done && Served()
        invariant fresh(process.memory.maps.Values - old(process.memory.maps.Values))
        invariant Run(m, e, done) == Completed(User()) && FitsMode(User().regs, m.addr)
        invariant forall k: nat :: k < |traces| ==>
          Run(m, e, k).Completed? && traces[k] == StepCalls(m, Run(m, e, k).env)
        invariant KeepsProtected(e.mem, User().mem)
      {
        ghost var before := User();
        RunOneMore(m, e, done);
        StepIs(m, before);
        status := ExecuteOne(host(done));
        CameStep(m, before, status, User(), trace);
        ProtectedTransitive(e.mem, before.mem, User().mem);
        ViewIs();
        traces := traces + [trace];
        if status != Good {
          RunStops(m, e, done + 1, n);
          return;
        }
        done := done + 1;
      }
      ViewIs();
    }
  }
}
