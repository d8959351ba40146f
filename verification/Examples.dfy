/** A small program whose runs meet the hypotheses of the run theorems: they are not empty promises. */
module Examples {
  import opened Bits
  import opened FlatMemory
  import opened Machine
  import opened Isa
  import opened Updates
  import opened CacheArithmetic
  import opened StringWalk
  import opened CompareRuns
  import opened StackAlias
  import opened StoreRuns
  import opened Memcmp
  import opened Strlen
  import opened StackSteps
  import opened StackRuns
  import opened TornSteps

  // The instructions, each encoded in one byte.

  function Plain(form: Form, regs: seq<RegOperand>, mems: seq<MemOperand>): Inst {
    Inst(form, 1, 8, regs, mems, 1, 0, {}, {}, false, false, false, false)
  }

  const COUNT := RegOperand(Reg(RCX, Full64), true, true)
  const STACK := RegOperand(Reg(RSP, Full64), true, false)

  function At64(id: RegId, size: nat, read: bool): MemOperand {
    MemOperand(false, Some(Reg(id, Full64)), None, 1, 0, W64, size, read, false, !read)
  }

  function ScasInst(): Inst {
    Inst(Str(Scas, Repne), 1, 1, [RegOperand(Reg(RAX, Low8), false, false), COUNT], [At64(RDI, 1, true)], 0, 0, {DF},
         STATUS_FLAGS, true, false, false, false)
  }

  function NotInst(): Inst { Plain(Native, [COUNT], []) }

  function DecInst(): Inst { NotInst().(imm := 1) }

  function MovsInst(): Inst {
    Inst(Str(Movs, RepAny), 1, 1, [COUNT], [At64(RDI, 1, false), At64(RSI, 1, true)], 0, 0, {DF}, {}, false, false,
         false, false)
  }

  function CmpsInst(): Inst {
    Inst(Str(Cmps, Repe), 1, 1, [COUNT], [At64(RSI, 1, true), At64(RDI, 1, true)], 0, 0, {DF}, STATUS_FLAGS, true,
         false, false, false)
  }

  function JumpInst(): Inst { Plain(Jcc(JZ), [], []).(readFlags := {ZF}) }

  function CallInst(): Inst { Plain(CallRel, [STACK], [At64(RSP, 8, false)]) }

  function RetInst(): Inst { Plain(Ret, [STACK], [At64(RSP, 8, true)]) }

  function DecodeByte(b: byte): Option<Inst> {
    match b
    case 1 => Some(ScasInst())
    case 2 => Some(NotInst())
    case 3 => Some(DecInst())
    case 4 => Some(CallInst())
    case 5 => Some(RetInst())
    case 6 => Some(MovsInst())
    case 7 => Some(CmpsInst())
    case 8 => Some(JumpInst())
    case _ => None
  }

  function RunOnHost(inst: Inst, nin: NativeIn): NativeOut {
    if |nin.regs| != 1 || |inst.regs| != 1 then Raised(OtherSignal)
    else Finished([if inst.imm == 0 then B64 - 1 - nin.regs[0] else (nin.regs[0] - 1) % B64], 0, {}, 0)
  }

  function Host(): Machine {
    Machine(A64, (bs: seq<byte>, a) => if bs == [] then None else DecodeByte(bs[0]), inst => true,
                    (inst, nin) => RunOnHost(inst, nin), (w, n) => false)
  }

  // repne scasb; not rcx; dec rcx; then a call over one byte, and what it calls: ret; then rep movsb; then
  // repe cmpsb; je. At 0x2000, a string of two bytes.
  const CODE: seq<byte> := [1, 2, 3, 4, 0, 5, 6, 7, 8]
  const DATA: seq<byte> := [77, 77]

  function CodeByte(a: int): byte {
    if 0x1000 <= a < 0x1009 then CODE[a - 0x1000] else if 0x2000 <= a < 0x2002 then DATA[a - 0x2000] else 0
  }

  function StartThread(pc: Word): Thread {
    var regs: Regs := seq(NUM_REGS, i => 0);
    Thread(regs[RIP := pc][RCX := B64 - 1][RDI := 0x2000][RSP := 0x2800], {}, 0, Denials({}, {}, {}, {}, false, false))
  }

  ghost function Start(pc: Word): Env {
    EnvOf(StartThread(pc), imap a: int | 0x1000 <= a < 0x3000 :: Cell(CodeByte(a), true, true, true))
  }

  ghost predicate SameProgram(e: Env) {
    && 0x1000 <= e.regs[RIP] < 0x1010 && e.deny == Start(0).deny
    && forall a :: 0x1000 <= a < 0x3000 ==>
      && a in e.mem && e.mem[a].canRead && e.mem[a].canWrite && e.mem[a].canExecute
      && (a < 0x2000 ==> e.mem[a].value == CodeByte(a))
  }

  lemma FetchesByte(e: Env, inst: Inst)
    requires SameProgram(e) && DecodeByte(CodeByte(e.regs[RIP])) == Some(inst) && Decoded(inst, A64)
    ensures Fetched(Host(), e, inst)
  {
    hide Decoded, DecodeByte, CodeByte;
    var pc := e.regs[RIP];
    assert Accessible(e.mem, pc, MAX_INST_LENGTH, ReadExecutable);
    assert BytesAt(e.mem, pc, MAX_INST_LENGTH)[0] == e.mem[pc].value;
  }

  lemma ScasDecoded()
    ensures Decoded(ScasInst(), A64) && Comparing(ScasInst(), Scas)
  {
    hide IdsWhere;
    var inst := ScasInst();
    assert inst.regs[1].reg.id in WrittenIds(inst);
  }

  lemma HostOpsDecoded()
    ensures Decoded(NotInst(), A64) && Decoded(DecInst(), A64)
    ensures OnRegister(NotInst(), WidestOf(A64, RCX)) && OnRegister(DecInst(), WidestOf(A64, RCX))
  {
  }

  lemma CallDecoded()
    ensures Decoded(CallInst(), A64) && Pushes(CallInst(), A64)
  {
    hide IdsWhere, Pow256;
    assert CallInst().regs[0].reg.id in WrittenIds(CallInst());
  }

  lemma RetDecoded()
    ensures Decoded(RetInst(), A64) && Pops(RetInst(), A64)
  {
    hide IdsWhere, Pow256;
    assert RetInst().regs[0].reg.id in WrittenIds(RetInst());
  }

  lemma MovsDecoded()
    ensures Decoded(MovsInst(), A64) && Storing(MovsInst(), Movs)
  {
    hide IdsWhere;
    assert MovsInst().regs[0].reg.id in WrittenIds(MovsInst());
  }

  lemma CmpsDecoded()
    ensures Decoded(CmpsInst(), A64) && Comparing(CmpsInst(), Cmps)
  {
    hide IdsWhere;
    assert CmpsInst().regs[0].reg.id in WrittenIds(CmpsInst());
  }

  lemma JumpDecoded()
    ensures Decoded(JumpInst(), A64) && IsJump(JumpInst(), JZ)
  {
  }

  lemma EveryByteDecoded(b: byte)
    requires DecodeByte(b).Some?
    ensures Decoded(DecodeByte(b).value, A64)
  {
    hide Decoded, Pushes, Pops, Comparing, Storing, IsJump, OnRegister;
    ScasDecoded();
    HostOpsDecoded();
    CallDecoded();
    RetDecoded();
    MovsDecoded();
    CmpsDecoded();
    JumpDecoded();
  }

  lemma HostIsTrusted()
    ensures Trusted(Host()) && OperandFunctional(Host())
  {
    hide Decoded, DecodeByte;
    forall bytes: seq<byte> | Host().decode(bytes, A64).Some?
      ensures Decoded(Host().decode(bytes, A64).value, A64)
    {
      EveryByteDecoded(bytes[0]);
    }
  }

  lemma HostComputes()
    ensures Computes(Host(), NotInst(), Complement(A64)) && Computes(Host(), DecInst(), Decrement(A64))
  {
    assert NotInst().imm != DecInst().imm;
    forall x: Word, fl: map<Flag, bool>
      ensures Host().native(NotInst(), NativeIn([x], 0, fl, 0)) == Finished([Complement(A64)(x)], 0, {}, 0)
      ensures Host().native(DecInst(), NativeIn([x], 0, fl, 0)) == Finished([Decrement(A64)(x)], 0, {}, 0)
    {
      ComplementIs(A64, x);
    }
  }

  // Strings

  // The j-th byte of a string, going up.
  lemma ByteOfString(p: Word, j: nat)
    requires p + j < B64
    ensures Elem(W64, p, 1, j) == p + j
  {
  }

  lemma DataReadable(e: Env, a: int, h: MemHint)
    requires SameProgram(e) && 0x2000 <= a < 0x3000
    ensures Accessible(e.mem, a, 1, h)
  {
  }

  lemma ByteAt(m: Flat, a: int)
    requires Mapped(m, a, 1)
    ensures ValueAt(m, a, 1) == m[a].value
  {
    assert BytesAt(m, a, 1) == [m[a].value];
    assert FromBytes([m[a].value]) == m[a].value + 0x100 * FromBytes([]);
  }

  // The string of two bytes at 0x2000.
  lemma ScasReads(e: Env, j: nat)
    requires SameProgram(e) && Comparing(ScasInst(), Scas) && e.regs[RDI] == 0x2000 && e.flags == {} && j <= 2
    ensures ReadableAt(ScasInst(), e, Scas, j) && Right(ScasInst(), e, Scas, j) == e.mem[0x2000 + j].value
  {
    hide SameProgram, Accessible, Elem, ValueAt;
    ByteOfString(0x2000, j);
    DataReadable(e, 0x2000 + j, HintOf(ScasInst().mems[0]));
    ByteAt(e.mem, 0x2000 + j);
  }

  lemma StringHere(e: Env)
    requires e == Start(0x1000) && Comparing(ScasInst(), Scas)
    ensures StringAt(ScasInst(), e, 2)
  {
    hide Comparing, ReadableAt, Right;
    assert SameProgram(e);
    forall j: nat | j <= 2
      ensures ReadableAt(ScasInst(), e, Scas, j) && Right(ScasInst(), e, Scas, j) == CodeByte(0x2000 + j)
    {
      ScasReads(e, j);
    }
  }

  // The string length idiom leaves 2 in RCX after five steps.
  lemma LengthOfTwo() returns (e': Env)
    ensures Run(Host(), Start(0x1000), 5) == Completed(e') && e'.regs[RCX] == 2
  {
    hide Run, Decoded, Comparing, Computes, Fetched, StringAt, CodeByte, DecodeByte;
    var e := Start(0x1000);
    ScasDecoded();
    HostOpsDecoded();
    HostComputes();
    StringHere(e);
    StartFetches();
    e' := StringLength(Host(), e, ScasInst(), NotInst(), DecInst(), 2);
  }

  lemma StartFetches()
    ensures Fetched(Host(), Start(0x1000), ScasInst())
    ensures
      var e1 := MovedTo(Start(0x1000), NextPC(Host(), ScasInst(), Start(0x1000)));
      && Fetched(Host(), e1, NotInst())
      && Fetched(Host(), MovedTo(Start(0x1000), NextPC(Host(), NotInst(), e1)), DecInst())
    ensures FitsMode(Start(0x1000).regs, A64) && Get(Start(0x1000).regs, ScasInst().regs[0].reg) == 0
  {
    hide Fetched, Decoded, SameProgram, Comparing, OnRegister;
    ScasDecoded();
    HostOpsDecoded();
    var e := Start(0x1000);
    ProgramAt(0x1000);
    ProgramAt(0x1001);
    ProgramAt(0x1002);
    assert MovedTo(e, 0x1000) == e;
    FetchesByte(e, ScasInst());
    FetchesByte(MovedTo(e, 0x1001), NotInst());
    FetchesByte(MovedTo(e, 0x1002), DecInst());
  }

  lemma ProgramAt(pc: Word)
    requires 0x1000 <= pc < 0x1010
    ensures SameProgram(MovedTo(Start(0x1000), pc))
  {
  }

  // One call and its return

  lemma StackReadable(e: Env, a: int, h: MemHint)
    requires SameProgram(e) && 0x2000 <= a <= 0x2FF8
    ensures Accessible(e.mem, a, 8, h)
  {
  }

  lemma CallReadable(e: Env)
    requires SameProgram(e) && 0x2008 <= e.regs[RSP] <= 0x2800
    ensures OperandsReadable(CallInst(), e)
  {
    hide SameProgram, AddressOf, Accessible, Pushes, Decoded;
    CallDecoded();
    PushAddress(A64, CallInst(), e.regs);
    StackReadable(e, e.regs[RSP] - 8, HintOf(CallInst().mems[0]));
  }

  lemma RetReadable(e: Env)
    requires SameProgram(e) && 0x2008 <= e.regs[RSP] <= 0x2800
    ensures OperandsReadable(RetInst(), e)
  {
    hide SameProgram, AddressOf, Accessible, Pops, Decoded;
    RetDecoded();
    PopAddress(A64, RetInst(), e.regs);
    StackReadable(e, e.regs[RSP], HintOf(RetInst().mems[0]));
  }

  lemma CallSteps(m: Machine, e: Env) returns (e': Env)
    requires m == Host() && SameProgram(e) && e.regs[RIP] == 0x1003 && e.regs[RSP] == 0x2800 && FitsMode(e.regs, A64)
    ensures Link(m, e, CallInst(), e')
    ensures SameProgram(e') && e'.regs[RIP] == 0x1005 && e'.regs[RSP] == 0x27F8 && FitsMode(e'.regs, A64)
  {
    hide Step, Fetched, Decoded, OperandsReadable, Reference, Commit, Pushes, Pops, FitsMode, StoreValue, DecodeByte;
    hide SameProgram, PushContinues, PushedValue;
    CallDecoded();
    CallIs();
    FetchesByte(e, CallInst());
    CallReadable(e);
    PushReference(m, e, CallInst());
    FetchedStep(m, e, CallInst());
    PushStep(m, e, CallInst());
    StepFits(m, e);
    e' := Step(m, e).env;
    CallContinues(e);
    StepKeepsDenials(m, e);
    StoreKeepsProgram(e, e', 0x27F8, PushedValue(m, e, CallInst()));
  }

  lemma CallContinues(e: Env)
    requires e.regs[RIP] == 0x1003 && Pushes(CallInst(), A64)
    ensures PushContinues(Host(), e, CallInst()) == 0x1005
  {
    hide Pushes;
  }

  lemma StepKeepsDenials(m: Machine, e: Env)
    ensures Step(m, e).Done? ==> Step(m, e).env.deny == e.deny
  {
    hide PlanStep, ApplyAll;
    if PlanStep(m, e).Write? {
      DenialsKept(e, PlanStep(m, e).updates);
    }
  }

  lemma CallIs()
    ensures DecodeByte(CodeByte(0x1003)) == Some(CallInst()) && DecodeByte(CodeByte(0x1005)) == Some(RetInst())
  {
  }

  lemma StoreKeepsProgram(e: Env, e': Env, at: int, v: nat)
    requires SameProgram(e) && 0x2000 <= at <= 0x2FF0 && Mapped(e.mem, at, 8)
    requires e'.mem == StoreValue(e.mem, at, 8, v) && e'.deny == e.deny && 0x1000 <= e'.regs[RIP] < 0x1010
    ensures SameProgram(e')
  {
    hide CodeByte;
  }

  lemma RetSteps(m: Machine, e: Env) returns (e': Env)
    requires m == Host() && SameProgram(e) && e.regs[RIP] == 0x1005 && e.regs[RSP] == 0x27F8 && FitsMode(e.regs, A64)
    ensures Link(m, e, RetInst(), e')
  {
    hide Step, Fetched, Decoded, OperandsReadable, Reference, Commit, Pushes, Pops, FitsMode, DecodeByte, SameProgram;
    RetDecoded();
    CallIs();
    FetchesByte(e, RetInst());
    RetReadable(e);
    PopReference(m, e, RetInst());
    FetchedStep(m, e, RetInst());
    e' := Step(m, e).env;
  }

  lemma CallAndReturnNest()
    ensures
      var insts := [CallInst(), RetInst()];
      && NeverBelow(insts, A64) && Depth(insts, A64, 2) == 0 && WidthsMatch(insts, A64)
  {
    hide Pushes, Pops, Decoded;
    CallDecoded();
    RetDecoded();
    var insts := [CallInst(), RetInst()];
    NotBoth(insts[0], A64);
    NotBoth(insts[1], A64);
    DepthZero(insts, A64);
    DepthNext(insts, A64, 0);
    DepthNext(insts, A64, 1);
    assert forall j: nat, k: nat :: Matches(insts, A64, j, k) ==> j == 0 && k == 1;
  }

  // The return goes behind the call, with the stack pointer where it was.
  lemma CallReturns()
    ensures
      var e := Start(0x1003);
      && Run(Host(), e, 2).Completed?
      && Run(Host(), e, 2).env.regs[RIP] == 0x1004 && Run(Host(), e, 2).env.regs[RSP] == 0x2800
  {
    hide Step, Fetched, Decoded, FitsMode, CodeByte, DecodeByte, Run, Depth, Matches, NeverBelow, WidthsMatch, Pushes;
    hide Pops;
    hide SameProgram;
    var e0 := Start(0x1003);
    StartIsProgram();
    var e1 := CallSteps(Host(), e0);
    var e2 := RetSteps(Host(), e1);
    var es, insts := [e0, e1, e2], [CallInst(), RetInst()];
    CallDecoded();
    RetDecoded();
    CallAndReturnNest();
    assert Path(Host(), es, insts);
    assert Disciplined(Host(), es, insts);
    var j := PopsRestorePushes(Host(), es, insts, 1);
    MatchedPush(insts, A64, j, 1);
    BalancedStack(Host(), es, insts);
  }

  lemma StartIsProgram()
    ensures SameProgram(Start(0x1003)) && FitsMode(Start(0x1003).regs, A64)
    ensures Start(0x1003).regs[RIP] == 0x1003 && Start(0x1003).regs[RSP] == 0x2800
  {
  }

  // A call that may not move the stack pointer fails, and leaves its return address in memory.
  lemma TornCall()
    ensures
      var e := Start(0x1003).(deny := Start(0x1003).deny.(writeRegs := {RSP}));
      && 0x27F8 in e.mem && e.mem[0x27F8].value == 0
      && Step(Host(), e).Torn? && 0x27F8 in Step(Host(), e).env.mem && Step(Host(), e).env.mem[0x27F8].value == 4
  {
    hide Step, Fetched, Decoded, FitsMode, CodeByte, DecodeByte, Pushes, Pops, SameProgram, PlanStep, WritesGranted;
    hide StoreValue, PushedValue, Start;
    var e0 := Start(0x1003);
    var e := e0.(deny := e0.deny.(writeRegs := {RSP}));
    StartIsProgram();
    assert Allowing(e) == e0 && Allowing(e0) == e0 by { StartAllows(e0); }
    var e1 := CallSteps(Host(), e0);
    CallDecoded();
    PushStep(Host(), e0, CallInst());
    CallIsPlanned(e, e0);
    TornExactly(Host(), e);
    TornMemory(Host(), e);
    ReturnAddressStored(e0);
  }

  lemma StartAllows(e: Env)
    requires e == Start(0x1003)
    ensures e.deny == Denials({}, {}, {}, {}, false, false)
  {
  }

  lemma CallIsPlanned(e: Env, e0: Env)
    requires Allowing(e) == e0 && Fetched(Host(), e0, CallInst()) && Step(Host(), e0).Done? && RSP in e.deny.writeRegs
    ensures PlanStep(Host(), e).Write? && !WritesGranted(PlanStep(Host(), e).inst, e)
  {
    hide PlanInst, Decoded, FetchLength, OperandsReadable, Reference, UsedIds, NopUpdates, StepUpdates, ApplyAll;
    PlanAllowing(Host(), e);
    StepCases(Host(), e0);
    PlanCases(Host(), CallInst(), e0);
    assert CallInst().regs[0].reg.id in WrittenIds(CallInst());
  }

  lemma ReturnAddressStored(e: Env)
    requires e == Start(0x1003) && Mapped(e.mem, 0x27F8, 8) && Pushes(CallInst(), A64)
    ensures e.mem[0x27F8].value == 0
    ensures
      var mem := StoreValue(e.mem, 0x27F8, 8, PushedValue(Host(), e, CallInst()));
      0x27F8 in mem && mem[0x27F8].value == 4
  {
    hide StoreValue, Pushes, Mapped;
    FirstByteStored(e.mem, 0x27F8, 8, 0x1004);
  }

  lemma FirstByteStored(m: Flat, a: int, n: nat, v: nat)
    requires Mapped(m, a, n) && n > 0
    ensures a in StoreValue(m, a, n, v) && StoreValue(m, a, n, v)[a].value == v % 0x100
  {
    hide Store;
  }
}
