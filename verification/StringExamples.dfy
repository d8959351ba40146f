/** Strings copied and compared by the program of module Examples. */
module StringExamples {
  import opened FlatMemory
  import opened Machine
  import opened Isa
  import opened StringWalk
  import opened StoreRuns
  import opened Memmove
  import opened CompareRuns
  import opened StringSearch
  import opened Memcmp
  import opened Examples

  // rep movsb of the two bytes at 0x2000 to 0x2100

  ghost function CopyStart(): Env {
    var e := Start(0x1006);
    e.(regs := e.regs[RCX := 2][RSI := 0x2000][RDI := 0x2100])
  }

  lemma CopyStartIs()
    ensures
      var e := CopyStart();
      && SameProgram(e) && FitsMode(e.regs, A64) && e.flags == {}
      && e.regs[RIP] == 0x1006 && e.regs[RCX] == 2 && e.regs[RSI] == 0x2000 && e.regs[RDI] == 0x2100
      && e.mem[0x2000].value == e.mem[0x2001].value == 77
  {
  }

  lemma CopyOperands(e: Env, j: nat)
    requires Storing(MovsInst(), Movs) && e.flags == {} && e.regs[RSI] == 0x2000 && e.regs[RDI] == 0x2100 && j < 2
    ensures Dst(MovsInst(), e, Movs, j) == 0x2100 + j && Src(MovsInst(), e, j) == 0x2000 + j
  {
    hide Elem;
    ByteOfString(0x2000, j);
    ByteOfString(0x2100, j);
  }

  lemma CopyAllowed(e: Env)
    requires e == CopyStart() && Storing(MovsInst(), Movs)
    ensures Allowed(MovsInst(), e, Movs, 2) && LeavesCode(MovsInst(), e, Movs, 2)
    ensures FitsSpace(MovsInst(), e, Movs, 2)
    ensures SafeOverlap(e, Dst(MovsInst(), e, Movs, 0), Src(MovsInst(), e, 0), 2, 1)
  {
    hide SameProgram, Accessible, Dst, Src, CopyStart;
    CopyStartIs();
    CopyOperands(e, 0);
    CopyOperands(e, 1);
    forall j | 0 <= j < 2
      ensures AllowedAt(MovsInst(), e, Movs, j)
    {
      CopyOperands(e, j);
      DataReadable(e, 0x2100 + j, HintOf(MovsInst().mems[0]));
      DataReadable(e, 0x2000 + j, HintOf(MovsInst().mems[1]));
    }
  }

  // The hypotheses of StringStored can be met, and what it says of this copy.
  lemma CopiesTwo() returns (e': Env)
    ensures Run(Host(), CopyStart(), 2) == Completed(e')
    ensures e'.regs[RCX] == 0 && e'.regs[RSI] == 0x2002 && e'.regs[RDI] == 0x2102 && e'.regs[RIP] == 0x1007
    ensures 0x2100 in e'.mem && 0x2101 in e'.mem && e'.mem[0x2100].value == e'.mem[0x2101].value == 77
  {
    hide Run, Decoded, Storing, Fetched, Allowed, LeavesCode, FitsSpace, SafeOverlap, SameProgram, CopyStart, FitsMode;
    hide MemoryStored, RegsWalked, DecodeByte;
    var e := CopyStart();
    CopyStartIs();
    MovsDecoded();
    MovsIsThere();
    FetchesByte(e, MovsInst());
    CopyAllowed(e);
    e' := StringStored(Host(), e, MovsInst(), Movs);
    CopiedRegs(e, e'.regs);
    CopiedBytes(e, e'.mem);
  }

  lemma MovsIsThere()
    ensures DecodeByte(CodeByte(0x1006)) == Some(MovsInst())
  {
  }

  lemma CopiedRegs(e: Env, regs: Regs)
    requires e == CopyStart() && Storing(MovsInst(), Movs) && RegsWalked(Host(), MovsInst(), e, Movs, 2, regs)
    ensures regs[RCX] == 0 && regs[RSI] == 0x2002 && regs[RDI] == 0x2102 && regs[RIP] == 0x1007
  {
    hide CopyStart;
    CopyStartIs();
  }

  lemma CopiedBytes(e: Env, after: Flat)
    requires e == CopyStart() && Storing(MovsInst(), Movs) && MemoryStored(MovsInst(), e, Movs, 2, after)
    ensures 0x2100 in after && 0x2101 in after && after[0x2100].value == after[0x2101].value == 77
  {
    hide Dst, Src, Storing, CopyStart;
    CopyStartIs();
    CopyOperands(e, 0);
    var dst, src := Lowest(e, Dst(MovsInst(), e, Movs, 0), 2, 1), Lowest(e, Src(MovsInst(), e, 0), 2, 1);
    assert dst == 0x2100 && src == 0x2000;
    assert CopiedAt(e.mem, after, dst, src, 0) && CopiedAt(e.mem, after, dst, src, 1);
  }

  // repe cmpsb of "MM" at 0x2000 with "M\0" at 0x2001, and je

  ghost function CompareStart(): Env {
    var e := Start(0x1007);
    e.(regs := e.regs[RCX := 2][RSI := 0x2000][RDI := 0x2001])
  }

  lemma CompareStartIs()
    ensures
      var e := CompareStart();
      && SameProgram(e) && SameProgram(MovedTo(e, 0x1008)) && FitsMode(e.regs, A64) && e.flags == {}
      && e.regs[RIP] == 0x1007 && e.regs[RCX] == 2 && e.regs[RSI] == 0x2000 && e.regs[RDI] == 0x2001
      && e.mem[0x2000].value == 77 && e.mem[0x2001].value == 77 && e.mem[0x2002].value == 0
  {
  }

  lemma ComparedBytes(e: Env, j: nat)
    requires e == CompareStart() && Comparing(CmpsInst(), Cmps) && j < 2
    ensures ReadableAt(CmpsInst(), e, Cmps, j)
    ensures Left(CmpsInst(), e, Cmps, j) == 77 && Right(CmpsInst(), e, Cmps, j) == if j == 0 then 77 else 0
  {
    hide SameProgram, Accessible, Elem, ValueAt, CompareStart;
    CompareStartIs();
    ByteOfString(0x2000, j);
    ByteOfString(0x2001, j);
    DataReadable(e, 0x2000 + j, HintOf(CmpsInst().mems[0]));
    DataReadable(e, 0x2001 + j, HintOf(CmpsInst().mems[1]));
    ByteAt(e.mem, 0x2000 + j);
    ByteAt(e.mem, 0x2001 + j);
  }

  lemma CompareFetches()
    ensures
      var e := CompareStart();
      && Fetched(Host(), e, CmpsInst()) && NextPC(Host(), CmpsInst(), e) == 0x1008
      && Fetched(Host(), MovedTo(e, 0x1008), JumpInst()) && NextPC(Host(), JumpInst(), MovedTo(e, 0x1008)) == 0x1009
  {
    hide Fetched, Decoded, SameProgram, CompareStart, FetchLength;
    var e := CompareStart();
    CompareStartIs();
    CmpsDecoded();
    JumpDecoded();
    FetchesByte(e, CmpsInst());
    FetchesByte(MovedTo(e, 0x1008), JumpInst());
  }

  // The strings differ at the second byte, where the comparison stops, above.
  lemma ComparesTwo() returns (e': Env)
    ensures Run(Host(), CompareStart(), 2) == Completed(e') && e'.regs[RCX] == 0 && ZF !in e'.flags && CF !in e'.flags
  {
    hide Fetched, Comparing, CompareStart, ReadableAt, Left, Right, Decoded, Run, SameProgram, FitsMode, WalkRegs;
    var e := CompareStart();
    CompareStartIs();
    CompareFetches();
    CmpsDecoded();
    forall j: nat | j < 2
      ensures ReadableAt(CmpsInst(), e, Cmps, j)
      ensures Left(CmpsInst(), e, Cmps, j) == 77 && Right(CmpsInst(), e, Cmps, j) == if j == 0 then 77 else 0
    {
      ComparedBytes(e, j);
    }
    assert !SameElement(CmpsInst(), e, Cmps, 1);
    e' := RepeCmpsCompares(Host(), e, CmpsInst(), 2);
  }

  // So the branch is not taken.
  lemma BranchesOnTwo() returns (n: nat, e': Env)
    ensures n <= 2 && Run(Host(), CompareStart(), n + 1) == Completed(e') && e'.regs[RIP] == 0x1009
  {
    hide Fetched, Comparing, CompareStart, ReadableAt, Left, Right, Decoded, Run, SameProgram, FitsMode, WalkRegs;
    hide NextPC;
    var e := CompareStart();
    CompareStartIs();
    CompareFetches();
    CmpsDecoded();
    JumpDecoded();
    forall j: nat | j < 2
      ensures ReadableAt(CmpsInst(), e, Cmps, j)
      ensures Left(CmpsInst(), e, Cmps, j) == 77 && Right(CmpsInst(), e, Cmps, j) == if j == 0 then 77 else 0
    {
      ComparedBytes(e, j);
    }
    assert Lefts(CmpsInst(), e, 2)[1] != Rights(CmpsInst(), e, 2)[1];
    n, e' := CompareThenBranch(Host(), e, CmpsInst(), JumpInst(), JZ);
  }
}
