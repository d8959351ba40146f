/**
 The frame of a step, bit by bit: what an instruction writes to a register through an alias leaves the rest of
 it as the user had it, in both modes, for any mix of operands.
 */
module RegisterFrame {
  import opened Bits
  import opened FlatMemory
  import opened Machine
  import opened Isa
  import opened Updates
  import opened SubRegisters

  // Whether a write through r touches a lane of register id, if only to clear it.
  predicate Touches(r: Reg, id: RegId, lane: nat) {
    Touched(SubRegisters.Write(r, 0), id, lane).Some?
  }

  lemma WrapLane(a: AddrSize, v: Word, lane: nat)
    requires lane < AddrBytes(a)
    ensures Lanes(Wrap(a, v))[lane] == Lanes(v)[lane]
  {
    hide ToBytes;
    if a == A32 {
      hide Pow256;
      Pow256Values();
      LowBytes(v, 4);
      SplitLanes(v, 4);
      SplitLanes(v % B32, 4);
      LowBytes(v % B32, 4);
    }
  }

  // One operand write, in the mode's width.
  lemma PutLane(a: AddrSize, regs: Regs, r: Reg, v: Word, id: RegId, lane: nat)
    requires lane < AddrBytes(a)
    ensures
      Lanes(Put(a, regs, r, v)[id])[lane] ==
        match Touched(SubRegisters.Write(r, v), id, lane) case Some(b) => b case None => Lanes(regs[id])[lane]
  {
    hide Lanes, Splice, Wrap;
    OneWrite(regs, SubRegisters.Write(r, v), id, lane);
    WrapLane(a, Splice(regs[r.id], r.part, v), lane);
  }

  lemma PutLaneKept(a: AddrSize, regs: Regs, r: Reg, v: Word, id: RegId, lane: nat)
    requires lane < AddrBytes(a) && !Touches(r, id, lane)
    ensures Lanes(Put(a, regs, r, v)[id])[lane] == Lanes(regs[id])[lane]
  {
    hide Lanes, Put;
    PutLane(a, regs, r, v, id, lane);
  }

  // No written operand touches the lane.
  ghost predicate LaneFree(ops: seq<RegOperand>, id: RegId, lane: nat) {
    forall i :: 0 <= i < |ops| && ops[i].written ==> !Touches(ops[i].reg, id, lane)
  }

  lemma {:induction false} ResultsLane(a: AddrSize, regs: Regs, ops: seq<RegOperand>, vs: seq<Word>, id: RegId,
                                       lane: nat)
    requires |vs| == |ops| && lane < AddrBytes(a) && LaneFree(ops, id, lane)
    ensures Lanes(PutResults(a, regs, ops, vs)[id])[lane] == Lanes(regs[id])[lane]
  {
    hide Lanes, Put, Touches;
    if ops != [] {
      var last := |ops| - 1;
      var r := PutResults(a, regs, ops[..last], vs[..last]);
      ResultsLane(a, regs, ops[..last], vs[..last], id, lane);
      if ops[last].written {
        PutLaneKept(a, r, ops[last].reg, vs[last], id, lane);
      }
    }
  }

  // The registers that an emulated instruction moves as a whole: string pointers and their count, and the
  // stack pointer.
  function MovedWhole(inst: Inst, regs: Regs): set<RegId> {
    Moved(inst, regs)
      + (if inst.form.Str? && inst.form.rep != NoRep && regs[RCX] != 0 then {RCX} else {})
      + (if Transfers(inst.form) || MovesStack(inst.form) then {RSP} else {})
      + (if inst.form.Loop? then {RCX} else if inst.form.Xbegin? then {RAX} else {})
  }

  lemma ElementLane(m: Machine, inst: Inst, op: StrOp, s: State, id: RegId, lane: nat)
    requires Decoded(inst, m.addr) && StringOperands(inst, op) && lane < AddrBytes(m.addr)
    requires LaneFree(inst.regs, id, lane) && id !in StringPointers(op)
    ensures Lanes(Element(m, inst, op, s).regs[id])[lane] == Lanes(s.regs[id])[lane]
  {
    hide Lanes, Put, CompareFlags, Wrap, Decoded, Touches;
    if op == Lods {
      PutLaneKept(m.addr, s.regs, inst.regs[0].reg, Low(s.mem0), id, lane);
    }
  }

  lemma EmulatedLane(m: Machine, inst: Inst, s: State, address0: Word, cur: Word, next: Word, id: RegId, lane: nat)
    requires Decoded(inst, m.addr) && Emulated(inst.form) && lane < AddrBytes(m.addr)
    requires LaneFree(inst.regs, id, lane) && id !in MovedWhole(inst, s.regs)
    ensures
      var o := Emulate(m, inst, s, address0, cur, next);
      o.Next? ==> Lanes(o.s.regs[id])[lane] == Lanes(s.regs[id])[lane]
  {
    hide Lanes, Put, Wrap, Element, Touches, CondHolds;
    match inst.form {
      case Leave =>
        var r0, r1, v := inst.regs[0].reg, inst.regs[1].reg, Get(s.regs, inst.regs[0].reg);
        PutLaneKept(m.addr, s.regs, r1, v, id, lane);
        PutLaneKept(m.addr, Put(m.addr, s.regs, r1, v), r0, Low(s.mem0), id, lane);
      case Lea => PutLaneKept(m.addr, s.regs, inst.regs[0].reg, address0, id, lane);
      case PopReg => PutLaneKept(m.addr, s.regs, inst.regs[0].reg, Low(s.mem0), id, lane);
      case Str(op, rep) =>
        if rep == NoRep || s.regs[RCX] != 0 {
          ElementLane(m, inst, op, s, id, lane);
        }
      case _ =>
    }
  }

  lemma NativeLane(m: Machine, inst: Inst, s: State, next: Word, id: RegId, lane: nat)
    requires lane < AddrBytes(m.addr) && LaneFree(inst.regs, id, lane)
    ensures
      var o := RunNative(m, inst, s, next);
      o.Next? ==> Lanes(o.s.regs[id])[lane] == Lanes(s.regs[id])[lane]
  {
    hide Lanes, LaneFree, PutResults, OperandValues, Encodable;
    var o := RunNative(m, inst, s, next);
    if o.Next? {
      var out := m.native(inst, NativeIn(OperandValues(s.regs, inst.regs), s.mem0, ReadFlagValues(inst, s.flags),
                                         s.fpu));
      ResultsLane(m.addr, s.regs, inst.regs, out.regs, id, lane);
    }
  }

  lemma OutcomeLane(m: Machine, inst: Inst, e: Env, id: RegId, lane: nat)
    requires Decoded(inst, m.addr) && OperandsReadable(inst, e) && Reference(m, inst, e).Next?
    requires lane < AddrBytes(m.addr) && LaneFree(inst.regs, id, lane) && id !in MovedWhole(inst, e.regs)
    ensures Lanes(Reference(m, inst, e).s.regs[id])[lane] == Lanes(e.regs[id])[lane]
  {
    hide Lanes, LaneFree, RunNative, Emulate, MovedWhole, Decoded, OperandsReadable, AddressOf, MemValue;
    var s, next := LoadState(inst, e), NextPC(m, inst, e);
    if inst.form.Native? {
      NativeLane(m, inst, s, next, id, lane);
    } else {
      EmulatedLane(m, inst, s, if |inst.mems| > 0 then AddressOf(inst, 0, s.regs) else 0, e.regs[RIP], next, id, lane);
    }
  }

  // A register holds what it held, or what one of the updates put there.
  lemma {:induction false} HeldOrWritten(e: Env, us: seq<Update>, id: RegId)
    ensures ApplyAll(e, us).env.regs[id] == e.regs[id]
            || ToReg(id, ApplyAll(e, us).env.regs[id]) in us
  {
    if us != [] {
      HeldOrWritten(e, us[..|us| - 1], id);
    }
  }

  lemma WrittenValue(inst: Inst, e: Env, s: State, pc: Word, id: RegId, v: Word)
    requires ToReg(id, v) in StepUpdates(inst, e, s, pc) && id != RIP
    ensures v == s.regs[id]
  {
    hide LateUpdates, AddressOf, WriteBackIds;
    LateUpdatesAre(inst.writtenFlags, s.flags, WriteBackIds(inst, e.regs), s.regs, pc, ToReg(id, v));
  }

  // Bytes that no written operand names, of registers that are not moved, go back exactly as they were read,
  // also when the step is torn; in 32-bit mode these are the four low bytes.
  lemma BytesKept(m: Machine, e: Env, id: RegId, lane: nat)
    requires PlanStep(m, e).Write? && lane < AddrBytes(m.addr) && id != RIP
    requires
      var inst := PlanStep(m, e).inst;
      LaneFree(inst.regs, id, lane) && (inst.nop || id !in MovedWhole(inst, e.regs))
    ensures !Step(m, e).Stop? && Lanes(Step(m, e).env.regs[id])[lane] == Lanes(e.regs[id])[lane]
  {
    hide Lanes, LaneFree, PlanInst, Decoded, OperandsReadable, Reference, RegsReadable, ReadSet, StepUpdates;
    hide LateUpdates;
    hide ApplyAll, MovedWhole, NextPC, WriteBackIds, FetchLength;
    StepCases(m, e);
    var inst := Fetch(m, e).value;
    PlanCases(m, inst, e);
    var us := PlanInst(m, inst, e).updates;
    HeldOrWritten(e, us, id);
    var v := ApplyAll(e, us).env.regs[id];
    if v != e.regs[id] {
      if inst.nop {
        LateUpdatesAre(inst.writtenFlags, e.flags, WriteBackIds(inst, e.regs), e.regs, NextPC(m, inst, e),
                       ToReg(id, v));
      } else {
        var o := Reference(m, inst, e);
        WrittenValue(inst, e, o.s, o.pc, id, v);
        OutcomeLane(m, inst, e, id, lane);
      }
    }
  }
}
