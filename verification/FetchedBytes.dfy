/**
 Which bytes a step can depend on: it decodes the longest run of readable and executable bytes at the program counter,
 and what bytes hold that may not be read makes no difference to any run, unless the host looks at what it only writes.
 */
module FetchedBytes {
  import opened Bits
  import opened FlatMemory
  import opened Machine
  import opened Isa
  import opened Updates

  // Fetching

  predicate CanFetch(mem: Flat, at: int) {
    at in mem && mem[at].canRead && mem[at].canExecute
  }

  // The bytes are those of memory from pc on. Each can be fetched, and no more of them could be.
  ghost predicate Window(mem: Flat, pc: int, bytes: seq<byte>) {
    && |bytes| <= 15
    && (forall at :: pc <= at < pc + |bytes| ==> CanFetch(mem, at) && bytes[at - pc] == mem[at].value)
    && (|bytes| < 15 ==> !CanFetch(mem, pc + |bytes|))
  }

  lemma OnlyWindow(mem: Flat, pc: int, bytes: seq<byte>, other: seq<byte>)
    requires Window(mem, pc, bytes) && Window(mem, pc, other)
    ensures bytes == other
  {
    hide CanFetch;
    assert |other| <= |bytes| || CanFetch(mem, pc + |bytes|);
    assert |bytes| <= |other| || CanFetch(mem, pc + |other|);
    forall k | 0 <= k < |bytes|
      ensures bytes[k] == other[k]
    {
      assert CanFetch(mem, pc + k);
    }
  }

  lemma {:induction false} LongestFetched(mem: Flat, pc: Word, n: nat)
    ensures
      var k := FetchLength(mem, pc, n);
      && (forall at :: pc <= at < pc + k ==> CanFetch(mem, at))
      && (k < n ==> !CanFetch(mem, pc + k))
  {
    hide FetchLength, Accessible;
    FetchIs(mem, pc, n);
    AccessibleIs(mem, pc, n);
    if n > 0 && !Accessible(mem, pc, n, ReadExecutable) {
      LongestFetched(mem, pc, n - 1);
      var k := FetchLength(mem, pc, n - 1);
      if k == n - 1 && CanFetch(mem, pc + k) {
        assert forall at :: pc <= at < pc + n ==> CanFetch(mem, at);
      }
    }
  }

  lemma AccessibleIs(mem: Flat, pc: Word, n: nat)
    ensures Accessible(mem, pc, n, ReadExecutable) <==> forall at :: pc <= at < pc + n ==> CanFetch(mem, at)
  {
    if forall at :: pc <= at < pc + n ==> CanFetch(mem, at) {
      forall i | pc <= i < pc + n
        ensures i in mem && Permits(mem[i], ReadExecutable)
      {
        assert CanFetch(mem, i);
      }
    }
  }

  lemma FetchIs(mem: Flat, pc: Word, n: nat)
    ensures FetchLength(mem, pc, n) ==
      if n == 0 || Accessible(mem, pc, n, ReadExecutable) then n else FetchLength(mem, pc, n - 1)
  {
  }

  lemma FetchedIsWindow(mem: Flat, pc: Word)
    ensures Window(mem, pc, FetchBytes(mem, pc))
  {
    hide FetchLength, CanFetch;
    LongestFetched(mem, pc, 15);
    var bytes := FetchBytes(mem, pc);
    forall at | pc <= at < pc + |bytes|
      ensures CanFetch(mem, at) && bytes[at - pc] == mem[at].value
    {
    }
  }

  // A step that gets anywhere has decoded the window at the program counter; there is nothing to decode exactly if the
  // byte there cannot be fetched.
  lemma StepFetches(m: Machine, e: Env, bytes: seq<byte>)
    requires Window(e.mem, e.regs[RIP], bytes)
    ensures RIP in e.deny.readRegs ==> Step(m, e) == Stop(ErrorReadReg)
    ensures RIP !in e.deny.readRegs ==> (!CanFetch(e.mem, e.regs[RIP]) <==> Step(m, e) == Stop(ErrorReadInstMem))
    ensures RIP !in e.deny.readRegs && bytes != [] && m.decode(bytes, m.addr) == None ==>
      Step(m, e) == Stop(ErrorDecode)
    ensures !Step(m, e).Stop? ==>
      && 1 <= |bytes| <= 15 && m.decode(bytes, m.addr).Some? && Decoded(m.decode(bytes, m.addr).value, m.addr)
      && PlanStep(m, e) == PlanInst(m, m.decode(bytes, m.addr).value, e)
  {
    hide Step, PlanStep, PlanInst, Decoded, FetchBytes, ApplyAll, CanFetch, Reference, OperandsReadable, RegsReadable;
    hide ReadSet, StepUpdates, NopUpdates, NextPC;
    FetchedIsWindow(e.mem, e.regs[RIP]);
    OnlyWindow(e.mem, e.regs[RIP], bytes, FetchBytes(e.mem, e.regs[RIP]));
    if bytes != [] {
      assert CanFetch(e.mem, e.regs[RIP]);
    }
    StepCases(m, e);
    StepIs(m, e);
    if bytes != [] && m.decode(bytes, m.addr).Some? {
      var inst := m.decode(bytes, m.addr).value;
      if Decoded(inst, m.addr) {
        PlanCases(m, inst, e);
        if OperandsReadable(inst, e) && Reference(m, inst, e).Halt? {
          HaltStatus(m, inst, e);
        }
      }
    }
  }

  lemma HaltStatus(m: Machine, inst: Inst, e: Env)
    requires Decoded(inst, m.addr) && OperandsReadable(inst, e) && Reference(m, inst, e).Halt?
    ensures Reference(m, inst, e).status in {UnsupportedCFI, UnsupportedStack, ErrorExecute, Fault,
                                             FloatingPointException}
  {
    hide AddressOf, CallOrReturn, PushOrPop, JumpTarget, PutResults, LoadState, Encodable, LeaveFrame, StringStep;
    hide OperandsReadable, NextPC, FormOperands;
    SignalsAreErrors();
  }

  // Bytes that may not be read

  // Memories that differ only in what bytes hold that may not be read.
  ghost predicate LooksSame(mem: Flat, mem': Flat) {
    mem'.Keys == mem.Keys && forall i :: i in mem ==> CellLooksSame(mem[i], mem'[i])
  }

  predicate CellLooksSame(c: Cell, c': Cell) {
    c' == c.(value := c'.value) && (c.canRead ==> c' == c)
  }

  // The memory operands whose values the emulator uses.
  predicate LooksAt(f: Form, i: nat) {
    match f
    case Str(op, _) => (op in {Scas, Lods} && i == 0) || (op == Movs && i == 1) || (op == Cmps && i <= 1)
    case JmpMem | CallMem | Ret | RetImm | PushMem | PopReg | Leave => i == 0
    case PopMem => i == 1
    case _ => false
  }

  predicate WriteOnlyOperand(inst: Inst, i: nat) {
    i < |inst.mems| && HintOf(inst.mems[i]) == WriteOnly
  }

  // A host instruction does not depend on what was where it only writes.
  ghost predicate Blind(m: Machine, inst: Inst) {
    forall nin: NativeIn, v: nat :: m.native(inst, nin.(mem0 := v)) == m.native(inst, nin)
  }

  // No operand is used that is reported as written only.
  ghost predicate Honest(m: Machine, inst: Inst) {
    && (forall i: nat :: WriteOnlyOperand(inst, i) ==> !LooksAt(inst.form, i))
    && (inst.form.Native? && WriteOnlyOperand(inst, 0) ==> Blind(m, inst))
  }

  // A memory operand after an instruction, in two executions: the same in both, or in each what it was.
  predicate Settled(v: nat, v': nat, was: nat, was': nat) {
    v == v' || (v == was && v' == was')
  }

  lemma LowWord(v: nat, w: Word)
    requires v < B64
    ensures SetLow(v, w) == w
  {
  }

  lemma StringAlike(m: Machine, inst: Inst, s: State, s': State, cur: Word, next: Word)
    requires Decoded(inst, m.addr) && inst.form.Str? && s' == s.(mem0 := s'.mem0, mem1 := s'.mem1)
    requires LooksAt(inst.form, 0) ==> s.mem0 == s'.mem0
    requires LooksAt(inst.form, 1) ==> s.mem1 == s'.mem1
    requires s.mem0 < B64 && s'.mem0 < B64
    ensures
      var o := StringStep(m, inst, inst.form.op, inst.form.rep, s, cur, next);
      var o' := StringStep(m, inst, inst.form.op, inst.form.rep, s', cur, next);
      && o' == Next(o.s.(mem0 := o'.s.mem0, mem1 := o'.s.mem1), o.pc)
      && Settled(o.s.mem0, o'.s.mem0, s.mem0, s'.mem0) && o.s.mem1 == s.mem1 && o'.s.mem1 == s'.mem1
  {
    hide CompareFlags, Bump, Put, Get, Stride;
    if inst.form.op == Stos {
      LowWord(s.mem0, Get(s.regs, inst.regs[0].reg));
      LowWord(s'.mem0, Get(s.regs, inst.regs[0].reg));
    } else if inst.form.op == Movs {
      LowWord(s.mem0, Low(s.mem1));
      LowWord(s'.mem0, Low(s.mem1));
    }
  }

  lemma EmulationAlike(m: Machine, inst: Inst, s: State, s': State, at: Word, cur: Word, next: Word)
    requires Decoded(inst, m.addr) && Emulated(inst.form) && s' == s.(mem0 := s'.mem0, mem1 := s'.mem1)
    requires LooksAt(inst.form, 0) ==> s.mem0 == s'.mem0
    requires LooksAt(inst.form, 1) ==> s.mem1 == s'.mem1
    requires DataOperand(inst, 0) ==> s.mem0 < B64 && s'.mem0 < B64
    requires DataOperand(inst, 1) ==> s.mem1 < B64 && s'.mem1 < B64
    ensures Alike(Emulate(m, inst, s, at, cur, next), Emulate(m, inst, s', at, cur, next), s, s')
  {
    hide Bump, Put, Get, StringStep, CondHolds, Target, SetLow, LoopBranches, Wrap;
    if inst.form.Str? {
      StringAlike(m, inst, s, s', cur, next);
    } else {
      SlotsOverwritten(m, inst, s, s', next);
    }
  }

  // What PUSH, POP and CALL leave in memory.
  lemma SlotsOverwritten(m: Machine, inst: Inst, s: State, s': State, next: Word)
    requires Decoded(inst, m.addr)
    requires DataOperand(inst, 0) ==> s.mem0 < B64 && s'.mem0 < B64
    requires DataOperand(inst, 1) ==> s.mem1 < B64 && s'.mem1 < B64
    ensures forall w: Word :: DataOperand(inst, 0) ==> SetLow(s.mem0, w) == SetLow(s'.mem0, w) == w
    ensures forall w: Word :: DataOperand(inst, 1) ==> SetLow(s.mem1, w) == SetLow(s'.mem1, w) == w
  {
  }

  // Two outcomes that differ at most in memory operands that neither execution changed.
  predicate Alike(o: Outcome, o': Outcome, s: State, s': State) {
    match (o, o')
    case (Halt(st), Halt(st')) => st == st'
    case (Next(t, pc), Next(t', pc')) =>
      && pc == pc' && t' == t.(mem0 := t'.mem0, mem1 := t'.mem1)
      && Settled(t.mem0, t'.mem0, s.mem0, s'.mem0) && Settled(t.mem1, t'.mem1, s.mem1, s'.mem1)
    case _ => false
  }

  lemma NativeAlike(m: Machine, inst: Inst, s: State, s': State, next: Word)
    requires s' == s.(mem0 := s'.mem0, mem1 := s'.mem1) && (s.mem0 != s'.mem0 ==> Blind(m, inst))
    ensures Alike(RunNative(m, inst, s, next), RunNative(m, inst, s', next), s, s')
  {
    hide Encodable, PutResults, MergeFlags, OperandValues, ReadFlagValues;
    var nin := NativeIn(OperandValues(s.regs, inst.regs), s.mem0, ReadFlagValues(inst, s.flags), s.fpu);
    var nin' := nin.(mem0 := s'.mem0);
    assert nin' == NativeIn(OperandValues(s'.regs, inst.regs), s'.mem0, ReadFlagValues(inst, s'.flags), s'.fpu);
    assert m.native(inst, nin') == m.native(inst, nin);
  }

  lemma AccessibleSame(mem: Flat, mem': Flat, a: int, n: nat, h: MemHint)
    requires LooksSame(mem, mem')
    ensures Accessible(mem, a, n, h) == Accessible(mem', a, n, h)
    ensures Accessible(mem, a, n, h) && ChecksRead(h) ==> BytesAt(mem, a, n) == BytesAt(mem', a, n)
  {
    assert mem.Keys == mem'.Keys;
    if Accessible(mem, a, n, h) && ChecksRead(h) {
      var bs, bs' := BytesAt(mem, a, n), BytesAt(mem', a, n);
      forall k | 0 <= k < n
        ensures bs[k] == bs'[k]
      {
        assert mem[a + k].canRead;
      }
    }
  }

  lemma OperandsSame(inst: Inst, e: Env, e': Env)
    requires e' == e.(mem := e'.mem) && LooksSame(e.mem, e'.mem)
    ensures OperandsReadable(inst, e) == OperandsReadable(inst, e')
    ensures OperandsReadable(inst, e) ==>
      forall i: nat :: !WriteOnlyOperand(inst, i) ==> MemValue(inst, e, i) == MemValue(inst, e', i)
  {
    hide AddressOf, Accessible, LooksSame;
    forall i: nat | i < |inst.mems|
      ensures MemReadable(inst, e, i) == MemReadable(inst, e', i)
      ensures MemReadable(inst, e, i) && !WriteOnlyOperand(inst, i) ==> MemValue(inst, e, i) == MemValue(inst, e', i)
    {
      AccessibleSame(e.mem, e'.mem, AddressOf(inst, i, e.regs), inst.mems[i].size, HintOf(inst.mems[i]));
    }
  }

  lemma ReferencesAlike(m: Machine, inst: Inst, e: Env, e': Env)
    requires Decoded(inst, m.addr) && OperandsReadable(inst, e) && OperandsReadable(inst, e') && Honest(m, inst)
    requires e' == e.(mem := e'.mem) && LooksSame(e.mem, e'.mem)
    ensures Alike(Reference(m, inst, e), Reference(m, inst, e'), LoadState(inst, e), LoadState(inst, e'))
  {
    hide AddressOf, LooksSame, RunNative, Emulate, MemValue, Decoded, OperandsReadable, Alike, LooksAt, Blind;
    hide WriteOnlyOperand;
    OperandsSame(inst, e, e');
    var s, s' := LoadState(inst, e), LoadState(inst, e');
    if inst.form.Native? {
      NativeAlike(m, inst, s, s', NextPC(m, inst, e));
    } else {
      MemValueBound(inst, e, 0);
      MemValueBound(inst, e, 1);
      MemValueBound(inst, e', 0);
      MemValueBound(inst, e', 1);
      EmulationAlike(m, inst, s, s', if |inst.mems| > 0 then AddressOf(inst, 0, s.regs) else 0, e.regs[RIP],
                     NextPC(m, inst, e));
    }
  }

  // The two lists of updates: alike, or putting back at one place what each memory had there.
  ghost predicate Twin(mem: Flat, mem': Flat, u: Update, u': Update) {
    u' == u || PutBack(mem, mem', u, u')
  }

  ghost predicate PutBack(mem: Flat, mem': Flat, u: Update, u': Update) {
    && u.ToMem? && u'.ToMem? && u'.address == u.address && u'.size == u.size
    && Mapped(mem, u.address, u.size) && u.data == ValueAt(mem, u.address, u.size)
    && Mapped(mem', u.address, u.size) && u'.data == ValueAt(mem', u.address, u.size)
  }

  ghost predicate Twins(mem: Flat, mem': Flat, us: seq<Update>, us': seq<Update>) {
    |us'| == |us| && forall i :: 0 <= i < |us| ==> Twin(mem, mem', us[i], us'[i])
  }

  // Each byte ends the same in both memories, or in each as it was.
  ghost predicate BytesSettled(was: Flat, was': Flat, mem: Flat, mem': Flat) {
    && was'.Keys == was.Keys && mem.Keys == was.Keys && mem'.Keys == was.Keys
    && forall i :: i in was ==> CellSettled(was[i], was'[i], mem[i], mem'[i])
  }

  predicate CellSettled(was: Cell, was': Cell, c: Cell, c': Cell) {
    && c == was.(value := c.value) && c' == was'.(value := c'.value)
    && (c' == c || (c == was && c' == was'))
  }

  ghost predicate SameElsewhere(was: Flat, was': Flat, e: Env, e': Env) {
    e' == e.(mem := e'.mem) && BytesSettled(was, was', e.mem, e'.mem)
  }

  ghost predicate SameResult(was: Flat, was': Flat, r: StepResult, r': StepResult) {
    match (r, r')
    case (Stop(st), Stop(st')) => st == st'
    case (Done(e), Done(e')) => SameElsewhere(was, was', e, e')
    case (Torn(e, st), Torn(e', st')) => st == st' && SameElsewhere(was, was', e, e')
    case _ => false
  }

  lemma SettledNow(mem: Flat, mem': Flat)
    requires LooksSame(mem, mem')
    ensures BytesSettled(mem, mem', mem, mem')
  {
  }

  lemma SettledLater(m0: Flat, m0': Flat, m1: Flat, m1': Flat, m2: Flat, m2': Flat)
    requires BytesSettled(m0, m0', m1, m1') && BytesSettled(m1, m1', m2, m2')
    ensures BytesSettled(m0, m0', m2, m2')
  {
    assert m2.Keys == m1.Keys == m0.Keys;
    assert m2'.Keys == m1'.Keys == m0'.Keys;
  }

  lemma SettledLooksSame(was: Flat, was': Flat, mem: Flat, mem': Flat)
    requires LooksSame(was, was') && BytesSettled(was, was', mem, mem')
    ensures LooksSame(mem, mem')
  {
    assert mem'.Keys == mem.Keys == was.Keys;
  }

  // Putting back what was there.
  lemma PutBackStore(was: Flat, mem: Flat, a: int, n: nat, i: int)
    requires Mapped(was, a, n) && Mapped(mem, a, n) && i in mem && i in was
    ensures StoreValue(mem, a, n, ValueAt(was, a, n))[i] ==
      if a <= i < a + n then mem[i].(value := was[i].value) else mem[i]
  {
    BytesRoundTrip(BytesAt(was, a, n));
  }

  lemma StoreKeys(mem: Flat, a: int, n: nat, v: nat)
    requires Mapped(mem, a, n)
    ensures StoreValue(mem, a, n, v).Keys == mem.Keys
  {
  }

  // Storing the same.
  lemma SameStore(was: Flat, was': Flat, mem: Flat, mem': Flat, a: int, n: nat, v: nat)
    requires LooksSame(was, was') && BytesSettled(was, was', mem, mem') && Mapped(mem, a, n) && Mapped(mem', a, n)
    ensures BytesSettled(was, was', StoreValue(mem, a, n, v), StoreValue(mem', a, n, v))
  {
    StoreKeys(mem, a, n, v);
    StoreKeys(mem', a, n, v);
    var r, r' := StoreValue(mem, a, n, v), StoreValue(mem', a, n, v);
    forall i | i in was
      ensures CellSettled(was[i], was'[i], r[i], r'[i])
    {
      assert CellSettled(was[i], was'[i], mem[i], mem'[i]) && CellLooksSame(was[i], was'[i]);
    }
  }

  lemma PutBackSettled(was: Flat, was': Flat, mem: Flat, mem': Flat, a: int, n: nat)
    requires BytesSettled(was, was', mem, mem') && Mapped(was, a, n) && Mapped(was', a, n)
    requires Mapped(mem, a, n) && Mapped(mem', a, n)
    ensures BytesSettled(was, was', StoreValue(mem, a, n, ValueAt(was, a, n)),
                         StoreValue(mem', a, n, ValueAt(was', a, n)))
  {
    hide StoreValue, ValueAt, Mapped;
    StoreKeys(mem, a, n, ValueAt(was, a, n));
    StoreKeys(mem', a, n, ValueAt(was', a, n));
    var r, r' := StoreValue(mem, a, n, ValueAt(was, a, n)), StoreValue(mem', a, n, ValueAt(was', a, n));
    forall i | i in was
      ensures CellSettled(was[i], was'[i], r[i], r'[i])
    {
      assert CellSettled(was[i], was'[i], mem[i], mem'[i]);
      PutBackStore(was, mem, a, n, i);
      PutBackStore(was', mem', a, n, i);
    }
  }

  lemma StoreTwins(was: Flat, was': Flat, mem: Flat, mem': Flat, u: Update, u': Update)
    requires LooksSame(was, was') && BytesSettled(was, was', mem, mem') && u.ToMem? && Twin(was, was', u, u')
    requires Mapped(mem, u.address, u.size) && Mapped(mem', u.address, u.size)
    ensures BytesSettled(was, was', StoreValue(mem, u.address, u.size, u.data),
                         StoreValue(mem', u.address, u.size, u'.data))
  {
    hide ValueAt, LooksSame, BytesSettled, Mapped;
    if u' == u {
      SameStore(was, was', mem, mem', u.address, u.size, u.data);
    } else {
      PutBackSettled(was, was', mem, mem', u.address, u.size);
    }
  }

  lemma ApplyTwin(was: Flat, was': Flat, e: Env, e': Env, u: Update, u': Update)
    requires LooksSame(was, was') && SameElsewhere(was, was', e, e') && Twin(was, was', u, u')
    ensures SameResult(was, was', ApplyTo(e, u), ApplyTo(e', u'))
  {
    hide LooksSame, BytesSettled, StoreValue;
    if u.ToMem? {
      SettledKeys(was, was', e.mem, e'.mem);
      if Mapped(e.mem, u.address, u.size) {
        StoreTwins(was, was', e.mem, e'.mem, u, u');
      }
    }
  }

  lemma SettledKeys(was: Flat, was': Flat, mem: Flat, mem': Flat)
    requires BytesSettled(was, was', mem, mem')
    ensures mem'.Keys == mem.Keys == was.Keys
  {
  }

  lemma {:induction false} ApplyTwins(e: Env, e': Env, us: seq<Update>, us': seq<Update>)
    requires LooksSame(e.mem, e'.mem) && e' == e.(mem := e'.mem) && Twins(e.mem, e'.mem, us, us')
    ensures SameResult(e.mem, e'.mem, ApplyAll(e, us), ApplyAll(e', us'))
  {
    hide LooksSame, BytesSettled, Twin, ApplyTo;
    if us == [] {
      SettledNow(e.mem, e'.mem);
    } else {
      var last := |us| - 1;
      ApplyTwins(e, e', us[..last], us'[..last]);
      var r, r' := ApplyAll(e, us[..last]), ApplyAll(e', us'[..last]);
      if r.Done? {
        ApplyTwin(e.mem, e'.mem, r.env, r'.env, us[last], us'[last]);
      }
    }
  }

  // Steps and runs

  lemma MemTwins(inst: Inst, e: Env, e': Env, i: nat, v: nat, v': nat, a: AddrSize)
    requires Decoded(inst, a) && OperandsReadable(inst, e) && OperandsReadable(inst, e') && e' == e.(mem := e'.mem)
    requires LooksSame(e.mem, e'.mem) && Settled(v, v', MemValue(inst, e, i), MemValue(inst, e', i))
    ensures Twins(e.mem, e'.mem, MemUpdates(inst, e, i, v), MemUpdates(inst, e', i, v'))
  {
    hide Decoded, OperandsReadable, AddressOf, LooksSame, ValueAt;
    if i < |inst.mems| && inst.mems[i].written {
      WrittenIsMapped(inst, e, i, a);
      WrittenIsMapped(inst, e', i, a);
      NotAgen(inst, i, a);
      var u, u' := MemUpdates(inst, e, i, v)[0], MemUpdates(inst, e', i, v')[0];
      assert Twin(e.mem, e'.mem, u, u');
    }
  }

  lemma NotAgen(inst: Inst, i: nat, a: AddrSize)
    requires Decoded(inst, a) && i < |inst.mems| && inst.mems[i].written
    ensures !inst.mems[i].agen
  {
  }

  lemma SameTwins(mem: Flat, mem': Flat, us: seq<Update>)
    ensures Twins(mem, mem', us, us)
  {
  }

  lemma TwinsAppend(mem: Flat, mem': Flat, us: seq<Update>, us': seq<Update>, vs: seq<Update>, vs': seq<Update>)
    requires Twins(mem, mem', us, us') && Twins(mem, mem', vs, vs')
    ensures Twins(mem, mem', us + vs, us' + vs')
  {
    hide Twin;
  }

  ghost predicate PlansAlike(mem: Flat, mem': Flat, p: Plan, p': Plan) {
    match (p, p')
    case (Reject(st), Reject(st')) => st == st'
    case (Write(_, us), Write(_, us')) => Twins(mem, mem', us, us')
    case _ => false
  }

  lemma UpdatesAlike(m: Machine, inst: Inst, e: Env, e': Env, s: State, s': State, pc: Word)
    requires Decoded(inst, m.addr) && OperandsReadable(inst, e) && OperandsReadable(inst, e')
    requires e' == e.(mem := e'.mem) && LooksSame(e.mem, e'.mem)
    requires Alike(Next(s, pc), Next(s', pc), LoadState(inst, e), LoadState(inst, e'))
    ensures Twins(e.mem, e'.mem, StepUpdates(inst, e, s, pc), StepUpdates(inst, e', s', pc))
  {
    hide Decoded, OperandsReadable, LooksSame, MemValue, Twins, MemUpdates, LateUpdates, WriteBackIds;
    var mem, mem' := e.mem, e'.mem;
    var us0, us0' := MemUpdates(inst, e, 0, s.mem0), MemUpdates(inst, e', 0, s'.mem0);
    var us1, us1' := MemUpdates(inst, e, 1, s.mem1), MemUpdates(inst, e', 1, s'.mem1);
    var fpu: seq<Update> := if inst.usesFpu then [ToFpu(s.fpu)] else [];
    var late := LateUpdates(inst.writtenFlags, s.flags, WriteBackIds(inst, e.regs), s.regs, pc);
    MemTwins(inst, e, e', 0, s.mem0, s'.mem0, m.addr);
    MemTwins(inst, e, e', 1, s.mem1, s'.mem1, m.addr);
    TwinsAppend(mem, mem', us0, us0', us1, us1');
    SameTwins(mem, mem', fpu);
    TwinsAppend(mem, mem', us0 + us1, us0' + us1', fpu, fpu);
    SameTwins(mem, mem', late);
    TwinsAppend(mem, mem', us0 + us1 + fpu, us0' + us1' + fpu, late, late);
  }

  lemma InstAlike(m: Machine, inst: Inst, e: Env, e': Env)
    requires Decoded(inst, m.addr) && Honest(m, inst) && e' == e.(mem := e'.mem) && LooksSame(e.mem, e'.mem)
    ensures PlansAlike(e.mem, e'.mem, PlanInst(m, inst, e), PlanInst(m, inst, e'))
  {
    hide Decoded, Honest, OperandsReadable, LooksSame, Reference, LoadState, Twins, StepUpdates, LateUpdates;
    hide WriteBackIds, ReadSet, UsedIds;
    OperandsSame(inst, e, e');
    if inst.nop {
      SameTwins(e.mem, e'.mem, NopUpdates(inst, e, NextPC(m, inst, e)));
    }
    if OperandsReadable(inst, e) {
      ReferencesAlike(m, inst, e, e');
      var o, o' := Reference(m, inst, e), Reference(m, inst, e');
      if o.Next? {
        UpdatesAlike(m, inst, e, e', o.s, o'.s, o.pc);
      }
    }
  }

  lemma SameWindow(mem: Flat, mem': Flat, pc: int, bytes: seq<byte>)
    requires LooksSame(mem, mem') && Window(mem, pc, bytes)
    ensures Window(mem', pc, bytes)
  {
    assert mem'.Keys == mem.Keys;
    forall at
      ensures CanFetch(mem', at) == CanFetch(mem, at)
    {
    }
    forall at | pc <= at < pc + |bytes|
      ensures CanFetch(mem', at) && bytes[at - pc] == mem'[at].value
    {
      assert CanFetch(mem, at);
    }
  }

  lemma SameFetch(e: Env, e': Env)
    requires e' == e.(mem := e'.mem) && LooksSame(e.mem, e'.mem)
    ensures FetchBytes(e.mem, e.regs[RIP]) == FetchBytes(e'.mem, e.regs[RIP])
  {
    hide FetchBytes, Window;
    var bytes := FetchBytes(e.mem, e.regs[RIP]);
    FetchedIsWindow(e.mem, e.regs[RIP]);
    FetchedIsWindow(e'.mem, e.regs[RIP]);
    SameWindow(e.mem, e'.mem, e.regs[RIP], bytes);
    OnlyWindow(e'.mem, e.regs[RIP], bytes, FetchBytes(e'.mem, e.regs[RIP]));
  }

  // Every instruction that the decoder reports is honest.
  ghost predicate AllHonest(m: Machine) {
    forall bytes :: m.decode(bytes, m.addr).Some? ==> Honest(m, m.decode(bytes, m.addr).value)
  }

  // A step does not depend on what bytes hold that may not be read: its result is the same, and each byte is the same
  // afterwards or was not touched.
  lemma UnreadableUnseen(m: Machine, e: Env, e': Env)
    requires AllHonest(m) && e' == e.(mem := e'.mem) && LooksSame(e.mem, e'.mem)
    ensures SameResult(e.mem, e'.mem, Step(m, e), Step(m, e'))
  {
    hide Decoded, Honest, LooksSame, PlanInst, ApplyAll, BytesSettled, FetchBytes, Twins;
    SameFetch(e, e');
    StepCases(m, e);
    StepCases(m, e');
    var bytes := FetchBytes(e.mem, e.regs[RIP]);
    if bytes != [] && m.decode(bytes, m.addr).Some? && Decoded(m.decode(bytes, m.addr).value, m.addr) {
      InstAlike(m, m.decode(bytes, m.addr).value, e, e');
    }
    StepIs(m, e);
    StepIs(m, e');
    assert PlansAlike(e.mem, e'.mem, PlanStep(m, e), PlanStep(m, e'));
    if PlanStep(m, e).Write? {
      ApplyTwins(e, e', PlanStep(m, e).updates, PlanStep(m, e').updates);
    }
  }

  // Nor does any run.
  lemma {:induction false} RunUnseen(m: Machine, e: Env, e': Env, n: nat)
    requires AllHonest(m) && e' == e.(mem := e'.mem) && LooksSame(e.mem, e'.mem)
    ensures
      var r, r' := Run(m, e, n), Run(m, e', n);
      && (if r.Completed? then r'.Completed? else r' == Stopped(r'.env, r.steps, r.status))
      && SameElsewhere(e.mem, e'.mem, r.env, r'.env) && LooksSame(r.env.mem, r'.env.mem)
  {
    hide Step, LooksSame, BytesSettled, AllHonest;
    if n == 0 {
      SettledNow(e.mem, e'.mem);
    } else {
      RunUnseen(m, e, e', n - 1);
      var p, p' := Run(m, e, n - 1), Run(m, e', n - 1);
      if p.Completed? {
        UnreadableUnseen(m, p.env, p'.env);
        var s, s' := Step(m, p.env), Step(m, p'.env);
        if !s.Stop? {
          SettledLater(e.mem, e'.mem, p.env.mem, p'.env.mem, s.env.mem, s'.env.mem);
          SettledLooksSame(e.mem, e'.mem, s.env.mem, s'.env.mem);
        }
      }
    }
  }
}
