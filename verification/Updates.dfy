/**
 What a step writes back to the user, as a list in the order in which it is written. The user may refuse any
 of it; the first refusal ends the step there, with everything before it written.
 */
module Updates {
  import opened Bits
  import opened FlatMemory
  import opened Machine

  datatype Update =
    | ToMem(address: Word, size: nat, data: nat)
    | ToFpu(fpu: nat)
    | ToFlag(flag: Flag, on: bool)
    | ToReg(id: RegId, value: Word)

  // A step is done; or it stopped before it wrote anything; or it is torn.
  datatype StepResult = Done(env: Env) | Stop(status: Status) | Torn(env: Env, status: Status)

  // Memory refuses only where there is none: permissions were checked when it was read.
  predicate Refused(e: Env, u: Update) {
    match u
    case ToMem(address, size, _) => !Mapped(e.mem, address, size)
    case ToFpu(_) => e.deny.writeFpu
    case ToFlag(f, _) => f in e.deny.writeFlags
    case ToReg(id, _) => id in e.deny.writeRegs
  }

  function RefusalOf(u: Update): Status {
    match u
    case ToMem(_, _, _) => ErrorWriteMem
    case ToFpu(_) => ErrorWriteFPU
    case ToFlag(_, _) => ErrorWriteFlags
    case ToReg(_, _) => ErrorWriteReg
  }

  function Apply(e: Env, u: Update): Env
    requires !Refused(e, u)
  {
    match u
    case ToMem(address, size, data) => e.(mem := StoreValue(e.mem, address, size, data))
    case ToFpu(fpu) => e.(fpu := fpu)
    case ToFlag(f, on) => e.(flags := SetTo(e.flags, f, on))
    case ToReg(id, value) => e.(regs := e.regs[id := value])
  }

  function ApplyAll(e: Env, us: seq<Update>): (r: StepResult)
    ensures !r.Stop?
  {
    if us == [] then Done(e)
    else
      var r := ApplyAll(e, us[..|us| - 1]);
      if r.Torn? then r
      else ApplyTo(r.env, us[|us| - 1])
  }

  function ApplyTo(e: Env, u: Update): (r: StepResult)
    ensures !r.Stop?
  {
    if Refused(e, u) then Torn(e, RefusalOf(u)) else Done(Apply(e, u))
  }

  // The updates that are attempted: all of them, or those up to the first that is refused.
  function Attempted(e: Env, us: seq<Update>): seq<Update> {
    if us == [] then []
    else
      var init := us[..|us| - 1];
      Attempted(e, init) + if ApplyAll(e, init).Done? then [us[|us| - 1]] else []
  }

  lemma ApplyNone(e: Env)
    ensures ApplyAll(e, []) == Done(e) && Attempted(e, []) == []
  {
  }

  lemma ApplyOneMore(e: Env, us: seq<Update>, u: Update)
    ensures ApplyAll(e, us + [u]) == if ApplyAll(e, us).Torn? then ApplyAll(e, us) else ApplyTo(ApplyAll(e, us).env, u)
    ensures Attempted(e, us + [u]) == Attempted(e, us) + if ApplyAll(e, us).Done? then [u] else []
  {
    assert (us + [u])[..|us|] == us;
  }

  lemma ApplyOne(e: Env, u: Update)
    ensures ApplyAll(e, [u]) == ApplyTo(e, u) && Attempted(e, [u]) == [u]
  {
    hide ApplyAll, Attempted, ApplyTo;
    assert [u] == [] + [u];
    ApplyNone(e);
    ApplyOneMore(e, [], u);
  }

  // Writing two lists one after the other.
  lemma {:induction false} ApplyAppend(e: Env, us: seq<Update>, vs: seq<Update>)
    ensures ApplyAll(e, us).Done? ==>
      && ApplyAll(e, us + vs) == ApplyAll(ApplyAll(e, us).env, vs)
      && Attempted(e, us + vs) == Attempted(e, us) + Attempted(ApplyAll(e, us).env, vs)
    ensures ApplyAll(e, us).Torn? ==>
      ApplyAll(e, us + vs) == ApplyAll(e, us) && Attempted(e, us + vs) == Attempted(e, us)
  {
    hide ApplyAll, Attempted;
    if vs == [] {
      assert us + vs == us;
      if ApplyAll(e, us).Done? {
        ApplyNone(ApplyAll(e, us).env);
      }
    } else {
      var init, v := vs[..|vs| - 1], vs[|vs| - 1];
      ApplyAppend(e, us, init);
      assert us + vs == us + init + [v] && vs == init + [v];
      ApplyOneMore(e, us + init, v);
      if ApplyAll(e, us).Done? {
        ApplyOneMore(ApplyAll(e, us).env, init, v);
      }
    }
  }

  // A step that is done has attempted everything.
  lemma {:induction false} DoneAttemptsAll(e: Env, us: seq<Update>)
    ensures ApplyAll(e, us).Done? ==> Attempted(e, us) == us
    ensures Attempted(e, us) <= us
  {
    hide ApplyAll, Attempted, ApplyTo;
    if us == [] {
      ApplyNone(e);
    } else {
      var init, u := us[..|us| - 1], us[|us| - 1];
      DoneAttemptsAll(e, init);
      ApplyOneMore(e, init, u);
      assert us == init + [u];
    }
  }

  // The flags in `which`, among the first k, in the order in which they are written.
  function FlagUpdates(which: set<Flag>, flags: Flags, k: nat): seq<Update>
    requires k <= |FLAG_ORDER|
  {
    if k == 0 then []
    else
      var f := FLAG_ORDER[k - 1];
      FlagUpdates(which, flags, k - 1) + if f in which then [ToFlag(f, f in flags)] else []
  }

  // The registers in `which`, among the first k, but for the program counter, which is written last.
  function RegUpdates(which: set<RegId>, regs: Regs, k: nat): seq<Update>
    requires k <= NUM_REGS
  {
    if k == 0 then []
    else RegUpdates(which, regs, k - 1) + if k - 1 in which && k - 1 != RIP then [ToReg(k - 1, regs[k - 1])] else []
  }

  // Flags, registers and the program counter.
  function LateUpdates(flagSet: set<Flag>, flags: Flags, regSet: set<RegId>, regs: Regs, pc: Word): seq<Update> {
    FlagUpdates(flagSet, flags, |FLAG_ORDER|) + RegUpdates(regSet, regs, NUM_REGS) + [ToReg(RIP, pc)]
  }

  // When nothing of it is refused

  lemma {:induction false} FlagsApplied(e: Env, which: set<Flag>, flags: Flags, k: nat)
    requires k <= |FLAG_ORDER| && which !! e.deny.writeFlags
    ensures
      var r := ApplyAll(e, FlagUpdates(which, flags, k));
      && r == Done(e.(flags := r.env.flags))
      && forall f :: f in r.env.flags <==> if f in which && f in FLAG_ORDER[..k] then f in flags else f in e.flags
  {
    hide ApplyAll, Attempted;
    if k == 0 {
      ApplyNone(e);
    } else {
      FlagsApplied(e, which, flags, k - 1);
      var f := FLAG_ORDER[k - 1];
      assert FLAG_ORDER[..k] == FLAG_ORDER[..k - 1] + [f];
      if f in which {
        ApplyOneMore(e, FlagUpdates(which, flags, k - 1), ToFlag(f, f in flags));
      } else {
        assert FlagUpdates(which, flags, k) == FlagUpdates(which, flags, k - 1);
      }
    }
  }

  lemma {:induction false} RegsApplied(e: Env, which: set<RegId>, regs: Regs, k: nat)
    requires k <= NUM_REGS && which - {RIP} !! e.deny.writeRegs
    ensures
      var r := ApplyAll(e, RegUpdates(which, regs, k));
      && r == Done(e.(regs := r.env.regs))
      && forall id: RegId :: r.env.regs[id] == if id < k && id != RIP && id in which then regs[id] else e.regs[id]
  {
    hide ApplyAll, Attempted;
    if k == 0 {
      ApplyNone(e);
    } else {
      RegsApplied(e, which, regs, k - 1);
      if k - 1 in which && k - 1 != RIP {
        ApplyOneMore(e, RegUpdates(which, regs, k - 1), ToReg(k - 1, regs[k - 1]));
      } else {
        assert RegUpdates(which, regs, k) == RegUpdates(which, regs, k - 1);
      }
    }
  }

  lemma AllFlagsListed(f: Flag)
    ensures f in FLAG_ORDER[..|FLAG_ORDER|]
  {
    match f
    case CF => assert FLAG_ORDER[0] == f;
    case PF => assert FLAG_ORDER[1] == f;
    case AF => assert FLAG_ORDER[2] == f;
    case ZF => assert FLAG_ORDER[3] == f;
    case SF => assert FLAG_ORDER[4] == f;
    case DF => assert FLAG_ORDER[5] == f;
    case OF => assert FLAG_ORDER[6] == f;
  }

  lemma LateApplied(e: Env, flagSet: set<Flag>, flags: Flags, regSet: set<RegId>, regs: Regs, pc: Word)
    requires flagSet !! e.deny.writeFlags && regSet !! e.deny.writeRegs && RIP !in e.deny.writeRegs
    ensures
      var r := ApplyAll(e, LateUpdates(flagSet, flags, regSet, regs, pc));
      && r == Done(e.(regs := r.env.regs, flags := r.env.flags))
      && (forall f :: f in r.env.flags <==> if f in flagSet then f in flags else f in e.flags)
      && forall id: RegId :: r.env.regs[id] == if id == RIP then pc else if id in regSet then regs[id] else e.regs[id]
  {
    hide ApplyAll, Attempted, FlagUpdates, RegUpdates;
    var us, vs := FlagUpdates(flagSet, flags, |FLAG_ORDER|), RegUpdates(regSet, regs, NUM_REGS);
    FlagsApplied(e, flagSet, flags, |FLAG_ORDER|);
    forall f
      ensures f in FLAG_ORDER[..|FLAG_ORDER|]
    {
      AllFlagsListed(f);
    }
    var e1 := ApplyAll(e, us).env;
    ApplyAppend(e, us, vs);
    RegsApplied(e1, regSet, regs, NUM_REGS);
    ApplyOneMore(e, us + vs, ToReg(RIP, pc));
  }

  // Whatever is refused, what the user allows is not touched.
  lemma {:induction false} DenialsKept(e: Env, us: seq<Update>)
    ensures ApplyAll(e, us).env.deny == e.deny
  {
    if us != [] {
      DenialsKept(e, us[..|us| - 1]);
    }
  }

  lemma {:induction false} TornStatus(e: Env, us: seq<Update>)
    ensures ApplyAll(e, us).Torn? ==>
      ApplyAll(e, us).status in {ErrorWriteMem, ErrorWriteFPU, ErrorWriteFlags, ErrorWriteReg}
  {
    if us != [] {
      TornStatus(e, us[..|us| - 1]);
    }
  }

  lemma {:induction false} FlagUpdatesAre(which: set<Flag>, flags: Flags, k: nat, u: Update)
    requires k <= |FLAG_ORDER| && u in FlagUpdates(which, flags, k)
    ensures u.ToFlag? && u.flag in which && u.on == (u.flag in flags)
  {
    if k != 0 && u in FlagUpdates(which, flags, k - 1) {
      FlagUpdatesAre(which, flags, k - 1, u);
    }
  }

  lemma {:induction false} RegUpdatesAre(which: set<RegId>, regs: Regs, k: nat, u: Update)
    requires k <= NUM_REGS && u in RegUpdates(which, regs, k)
    ensures u.ToReg? && u.id in which && u.id != RIP && u.value == regs[u.id]
  {
    if k != 0 && u in RegUpdates(which, regs, k - 1) {
      RegUpdatesAre(which, regs, k - 1, u);
    }
  }

  lemma LateUpdatesAre(flagSet: set<Flag>, flags: Flags, regSet: set<RegId>, regs: Regs, pc: Word, u: Update)
    requires u in LateUpdates(flagSet, flags, regSet, regs, pc)
    ensures u.ToFlag? || u.ToReg?
    ensures u.ToFlag? ==> u.flag in flagSet && u.on == (u.flag in flags)
    ensures u.ToReg? ==> if u.id == RIP then u.value == pc else u.id in regSet && u.value == regs[u.id]
  {
    hide FlagUpdates, RegUpdates;
    if u in FlagUpdates(flagSet, flags, |FLAG_ORDER|) {
      FlagUpdatesAre(flagSet, flags, |FLAG_ORDER|, u);
    } else if u in RegUpdates(regSet, regs, NUM_REGS) {
      RegUpdatesAre(regSet, regs, NUM_REGS, u);
    }
  }

  // The lists grow one by one, and what comes later is only appended.

  lemma FlagUpdatesNone(which: set<Flag>, flags: Flags)
    ensures FlagUpdates(which, flags, 0) == []
  {
  }

  lemma FlagUpdatesNext(which: set<Flag>, flags: Flags, k: nat)
    requires k < |FLAG_ORDER|
    ensures
      var f := FLAG_ORDER[k];
      FlagUpdates(which, flags, k + 1) == (
        if f in which then FlagUpdates(which, flags, k) + [ToFlag(f, f in flags)] else FlagUpdates(which, flags, k))
  {
  }

  lemma {:induction false} FlagUpdatesRest(which: set<Flag>, flags: Flags, k: nat) returns (rest: seq<Update>)
    requires k <= |FLAG_ORDER|
    ensures FlagUpdates(which, flags, |FLAG_ORDER|) == FlagUpdates(which, flags, k) + rest
    decreases |FLAG_ORDER| - k
  {
    hide FlagUpdates;
    if k == |FLAG_ORDER| {
      rest := [];
    } else {
      rest := FlagUpdatesRest(which, flags, k + 1);
      FlagUpdatesNext(which, flags, k);
      var f := FLAG_ORDER[k];
      if f in which {
        rest := [ToFlag(f, f in flags)] + rest;
      }
    }
  }

  lemma RegUpdatesNone(which: set<RegId>, regs: Regs)
    ensures RegUpdates(which, regs, 0) == []
  {
  }

  lemma RegUpdatesNext(which: set<RegId>, regs: Regs, k: nat)
    requires k < NUM_REGS
    ensures RegUpdates(which, regs, k + 1) == (
      if k in which && k != RIP then RegUpdates(which, regs, k) + [ToReg(k, regs[k])] else RegUpdates(which, regs, k))
  {
  }

  lemma {:induction false} RegUpdatesRest(which: set<RegId>, regs: Regs, k: nat) returns (rest: seq<Update>)
    requires k <= NUM_REGS
    ensures RegUpdates(which, regs, NUM_REGS) == RegUpdates(which, regs, k) + rest
    decreases NUM_REGS - k
  {
    hide RegUpdates;
    if k == NUM_REGS {
      rest := [];
    } else {
      rest := RegUpdatesRest(which, regs, k + 1);
      RegUpdatesNext(which, regs, k);
      if k in which && k != RIP {
        rest := [ToReg(k, regs[k])] + rest;
      }
    }
  }

  // The program counter does not matter to the other registers.
  lemma {:induction false} RegUpdatesSkipPc(which: set<RegId>, which': set<RegId>, regs: Regs, regs': Regs, k: nat)
    requires k <= NUM_REGS && which - {RIP} == which' - {RIP}
    requires forall id: RegId :: id in which && id != RIP ==> regs[id] == regs'[id]
    ensures RegUpdates(which, regs, k) == RegUpdates(which', regs', k)
  {
    if k != 0 {
      RegUpdatesSkipPc(which, which', regs, regs', k - 1);
      var id := k - 1;
      assert id != RIP ==> (id in which <==> id in which - {RIP}) && (id in which' <==> id in which' - {RIP});
    }
  }

  lemma LateUpdatesSplit(flagSet: set<Flag>, flags: Flags, regSet: set<RegId>, regs: Regs, pc: Word)
    ensures LateUpdates(flagSet, flags, regSet, regs, pc) ==
      FlagUpdates(flagSet, flags, |FLAG_ORDER|) + (RegUpdates(regSet, regs, NUM_REGS) + [ToReg(RIP, pc)])
  {
    hide FlagUpdates, RegUpdates;
  }

  // Nothing is mapped or unmapped.
  lemma {:induction false} KeysKept(e: Env, us: seq<Update>)
    ensures ApplyAll(e, us).env.mem.Keys == e.mem.Keys
  {
    if us != [] {
      KeysKept(e, us[..|us| - 1]);
    }
  }
}
