/** The program of module Examples on paged memory, run by the executor. */
module PagedExample {
  import opened Bits
  import opened FlatMemory
  import F = FlatMemory
  import opened Machine
  import opened Isa
  import opened Trace
  import opened Requests
  import opened StackAlias
  import opened Examples
  import opened PageTables
  import opened PagedMemory
  import opened MicroExecutor

  lemma PageSize()
    ensures Pow2(12) == 0x1000
  {
    assert Pow2(4) == 16 && Pow2(8) == 256;
  }

  predicate InProgram(a: int) {
    0x1000 <= a < 0x3000
  }

  ghost function Blank(): Flat {
    imap a: int | InProgram(a) :: Cell(0, true, true, true)
  }

  // One map, on two pages, with nothing in it.
  lemma BlankProgram(g: Geometry, r: Region, t: Table)
    requires g == Geometry(B64, 0x1000) && r == Region(false, 0x1000, 0x3000, true, true, true, seq(0x2000, _ => 0))
    requires Overlaid(g, map[], r, t)
    ensures ValidTable(t) && FlatOf(g, t) == Blank()
  {
    hide PageOf, Covered, Overlaid;
    AddedView(g, map[], r, t, 0);
    forall a: int | a >= 0
      ensures a in FlatOf(g, t) <==> InProgram(a)
      ensures InProgram(a) ==> FlatOf(g, t)[a] == Cell(0, true, true, true)
    {
      AddedView(g, map[], r, t, a);
    }
    SameMemory(FlatOf(g, t), Blank());
  }

  lemma Assembled(code: Flat, data: Flat)
    requires Mapped(Blank(), 0x1000, |CODE|) && code == F.Store(Blank(), 0x1000, CODE)
    requires Mapped(code, 0x2000, |DATA|) && data == F.Store(code, 0x2000, DATA)
    ensures data == Start(0x1000).mem
  {
    hide F.Store, StartThread;
    var m := Start(0x1000).mem;
    forall a | a in m
      ensures data[a] == m[a]
    {
      assert InProgram(a);
    }
    SameMemory(data, m);
  }

  method BlankMemory() returns (memory: Memory)
    ensures memory.Valid() && memory.View() == Blank()
    ensures fresh(memory) && fresh(memory.maps.Values)
  {
    hide Memory.Regular, Overlaid, Ordinary, PageOf, FlatOf, Blank;
    PageSize();
    memory := new Memory(64, 12);
    var m := new MemoryMap.Array(0x1000, 0x3000, true, true, true);
    ghost var t := memory.Tab();
    assert t == map[];
    var added := memory.AddMap(m);
    BlankProgram(memory.Geom(), m.State(), memory.Tab());
  }

  method LoadProgram() returns (p: Process)
    ensures p.memory.Valid() && p.memory.View() == Start(0x1000).mem
    ensures fresh(p) && fresh(p.memory) && fresh(p.memory.maps.Values)
  {
    hide Memory.Valid, Memory.View, Memory.Tab, Start, Blank;
    var memory := BlankMemory();
    p := new Process(memory);
    StoreProgram(p);
  }

  method StoreProgram(p: Process)
    requires p.memory.Valid() && p.memory.View() == Blank()
    modifies p.memory`maps, p.memory.maps.Values
    ensures p.memory.Valid() && p.memory.View() == Start(0x1000).mem
    ensures fresh(p.memory.maps.Values - old(p.memory.maps.Values))
  {
    hide Memory.Valid, Memory.View, Memory.Tab, Memory.Regular, Memory.Takes, BoundsKept, F.Store, Start, Hold;
    var stored := p.WriteMemory(0x1000, CODE);
    ghost var code := p.memory.View();
    stored := p.WriteMemory(0x2000, DATA);
    Assembled(code, p.memory.View());
  }

  // The executor computes the length of the string, given memory to run in.
  method LengthOnExecutor() returns (length: Word)
    ensures length == 2
  {
    hide Run, Trusted, OperandFunctional, FitsMode, Host, Start, StartThread, KeepsProtected, Executor.Served;
    hide Executor.User;
    hide Memory.View, Memory.Valid, Memory.Tab, StepCalls, NoWrites, DecidedEarly;
    var p := LoadProgram();
    var x := new Executor(Host(), p, StartThread(0x1000));
    var ok := x.Init(true);
    StartServed(x);
    var e' := LengthOfTwo();
    var status, done;
    ghost var traces;
    status, done, traces := x.Execute(5, _ => {});
    length := x.user.regs[RCX];
    UserRegs(x);
  }

  lemma UserRegs(x: Executor)
    ensures x.User().regs == x.user.regs
  {
  }

  lemma StartServed(x: Executor)
    requires x.Served() && x.process.memory.View() == Start(0x1000).mem && x.user == StartThread(0x1000)
      && x.m == Host()
    ensures x.User() == Start(0x1000) && Trusted(x.m) && OperandFunctional(x.m) && FitsMode(x.User().regs, x.m.addr)
  {
    HostIsTrusted();
  }
}
