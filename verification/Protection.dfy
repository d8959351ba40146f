/**
 What no step and no run changes, whether or not it completes: bytes that may not be written, since what is
 written was checked writable in the same step; and that registers hold values of the mode's width.
 */
module Protection {
  import opened Bits
  import opened FlatMemory
  import opened Machine
  import opened Isa
  import opened Updates

  ghost predicate Writable(mem: Flat, u: Update) {
    u.ToMem? ==> forall i :: u.address <= i < u.address + u.size ==> i in mem && mem[i].canWrite
  }

  ghost predicate AllWritable(mem: Flat, us: seq<Update>) {
    forall u :: u in us ==> Writable(mem, u)
  }

  lemma ProtectedReflexive(m: Flat)
    ensures KeepsProtected(m, m)
  {
  }

  lemma ProtectedTransitive(m0: Flat, m1: Flat, m2: Flat)
    requires KeepsProtected(m0, m1) && KeepsProtected(m1, m2)
    ensures KeepsProtected(m0, m2)
  {
  }

  lemma ApplyProtects(m0: Flat, e: Env, u: Update)
    requires KeepsProtected(m0, e.mem) && Writable(m0, u)
    ensures KeepsProtected(m0, ApplyTo(e, u).env.mem)
    ensures ApplyTo(e, u).Torn? ==> ApplyTo(e, u).status != ErrorWriteMem
  {
    assert e.mem.Keys == m0.Keys;
    if u.ToMem? && !Refused(e, u) {
      var mem := ApplyTo(e, u).env.mem;
      forall i | i in m0 && !m0[i].canWrite
        ensures mem[i] == m0[i]
      {
        assert !(u.address <= i < u.address + u.size);
      }
    }
  }

  lemma {:induction false} UpdatesProtect(e: Env, us: seq<Update>)
    requires AllWritable(e.mem, us)
    ensures KeepsProtected(e.mem, ApplyAll(e, us).env.mem)
    ensures ApplyAll(e, us).Torn? ==> ApplyAll(e, us).status != ErrorWriteMem
  {
    hide KeepsProtected, Writable, ApplyTo;
    if us == [] {
      ProtectedReflexive(e.mem);
    } else {
      var init, u := us[..|us| - 1], us[|us| - 1];
      assert forall v :: v in init ==> v in us;
      UpdatesProtect(e, init);
      assert u in us;
      ApplyProtects(e.mem, ApplyAll(e, init).env, u);
    }
  }

  lemma WrittenIsWritable(a: AddrSize, inst: Inst, e: Env, i: nat, v: nat, u: Update)
    requires Decoded(inst, a) && OperandsReadable(inst, e) && u in MemUpdates(inst, e, i, v)
    ensures Writable(e.mem, u)
  {
    hide AddressOf;
    assert MemReadable(inst, e, i);
    assert ChecksWrite(HintOf(inst.mems[i]));
  }

  lemma PlanIsWritable(m: Machine, inst: Inst, e: Env)
    requires Decoded(inst, m.addr) && PlanInst(m, inst, e).Write?
    ensures AllWritable(e.mem, PlanInst(m, inst, e).updates)
  {
    hide Writable, PlanInst, Decoded, OperandsReadable, MemUpdates, LateUpdates, Reference, NextPC, WriteBackIds;
    hide RegsReadable;
    PlanCases(m, inst, e);
    forall u | u in PlanInst(m, inst, e).updates
      ensures Writable(e.mem, u)
    {
      if inst.nop {
        LateUpdatesAre(inst.writtenFlags, e.flags, WriteBackIds(inst, e.regs), e.regs, NextPC(m, inst, e), u);
        OnlyMemory(e.mem, u);
      } else {
        var o := Reference(m, inst, e);
        OperandIsWritable(m, inst, e, o.s, o.pc, u);
      }
    }
  }

  lemma OnlyMemory(mem: Flat, u: Update)
    requires !u.ToMem?
    ensures Writable(mem, u)
  {
  }

  lemma OperandIsWritable(m: Machine, inst: Inst, e: Env, s: State, pc: Word, u: Update)
    requires Decoded(inst, m.addr) && OperandsReadable(inst, e) && u in StepUpdates(inst, e, s, pc)
    ensures Writable(e.mem, u)
  {
    hide Writable, Decoded, OperandsReadable, MemUpdates, LateUpdates, WriteBackIds;
    if u in LateUpdates(inst.writtenFlags, s.flags, WriteBackIds(inst, e.regs), s.regs, pc) {
      LateUpdatesAre(inst.writtenFlags, s.flags, WriteBackIds(inst, e.regs), s.regs, pc, u);
      OnlyMemory(e.mem, u);
    } else if u in MemUpdates(inst, e, 0, s.mem0) {
      WrittenIsWritable(m.addr, inst, e, 0, s.mem0, u);
    } else if u in MemUpdates(inst, e, 1, s.mem1) {
      WrittenIsWritable(m.addr, inst, e, 1, s.mem1, u);
    } else {
      OnlyMemory(e.mem, u);
    }
  }

  // No step changes a byte it may not write, or any permission, even if it is torn; and it is never torn for
  // want of memory.
  lemma StepProtects(m: Machine, e: Env)
    ensures !Step(m, e).Stop? ==> KeepsProtected(e.mem, Step(m, e).env.mem)
    ensures Step(m, e).Torn? ==> Step(m, e).status != ErrorWriteMem
  {
    hide PlanInst, Decoded, ApplyAll, KeepsProtected, AllWritable;
    if !Step(m, e).Stop? {
      StepCases(m, e);
      var inst := Fetch(m, e).value;
      PlanIsWritable(m, inst, e);
      UpdatesProtect(e, PlanInst(m, inst, e).updates);
    }
  }

  // Nor does any run, however long, and whether or not it completes.
  lemma {:induction false} RunProtects(m: Machine, e: Env, n: nat)
    ensures KeepsProtected(e.mem, Run(m, e, n).env.mem)
  {
    hide Step, KeepsProtected;
    if n == 0 {
      ProtectedReflexive(e.mem);
    } else {
      RunProtects(m, e, n - 1);
      var prev := Run(m, e, n - 1);
      StepProtects(m, prev.env);
      if prev.Completed? && !Step(m, prev.env).Stop? {
        ProtectedTransitive(e.mem, prev.env.mem, Step(m, prev.env).env.mem);
      }
    }
  }
}
