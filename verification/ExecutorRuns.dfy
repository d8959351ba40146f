/** What Executor.Execute promises about one call, put together over several. */
module ExecutorRuns {
  import opened FlatMemory
  import opened Machine
  import opened Isa
  import opened Protection
  import opened StackAlias
  import opened Trace
  import opened Requests
  import opened PagedMemory
  import opened MicroExecutor
  import opened StackSteps

  // An executor that may run.
  ghost predicate Ready(x: Executor)
    reads x, x.process.memory, x.process.memory.maps.Values
  {
    x.initialized && Trusted(x.m) && OperandFunctional(x.m) && FitsMode(x.user.regs, x.m.addr) && x.Served()
  }

  // Nothing that one executor writes belongs to the other.
  ghost predicate Apart(x: Executor, y: Executor)
    reads x.process.memory, y.process.memory
  {
    && x != y && x.process.memory != y.process.memory
    && x.process.memory.maps.Values !! y.process.memory.maps.Values
  }

  // Whatever two executors have left over from earlier instructions, in their caches, their staged operands or
  // the host's flags, equal states of the user stay equal, also where the user refuses a write, and the user sees
  // the same calls.
  method LeftoversUnseen(x: Executor, y: Executor, n: nat, hostX: nat -> Flags, hostY: nat -> Flags)
    returns (statusX: Status, statusY: Status, ghost callsX: seq<seq<Call>>, ghost callsY: seq<seq<Call>>)
    requires Ready(x) && Ready(y) && Apart(x, y) && x.m == y.m && x.User() == y.User()
    modifies x, x.process.memory`maps, x.process.memory.maps.Values
    modifies y, y.process.memory`maps, y.process.memory.maps.Values
    ensures statusX == statusY && x.User() == y.User() && callsX == callsY
  {
    hide FitsMode, Run, KeepsProtected, Trusted, OperandFunctional, Executor.Served, StepCalls;
    var doneX, doneY;
    statusX, doneX, callsX := x.Execute(n, hostX);
    statusY, doneY, callsY := y.Execute(n, hostY);
    assert |callsX| == |callsY|;
    assert callsX == callsY;
  }

  // Executing k and then, if they succeed, n instructions is executing k + n.
  method InTwoParts(x: Executor, k: nat, n: nat, host: nat -> Flags) returns (status: Status, done: nat)
    requires Ready(x)
    modifies x, x.process.memory`maps, x.process.memory.maps.Values
    ensures Run(x.m, old(x.User()), k + n) == (
      if status == Good then Completed(x.User()) else Stopped(x.User(), done, status))
    ensures x.process.memory.Valid() && x.process.memory.View() == x.User().mem
    ensures KeepsProtected(old(x.process.memory.View()), x.process.memory.View())
  {
    hide FitsMode, Run, KeepsProtected, Trusted, OperandFunctional, StepCalls, NoWrites, DecidedEarly;
    hide Executor.Served, Memory.Valid, Memory.View;
    x.ViewIs();
    RunAppend(x.m, x.User(), k, n);
    RunStops(x.m, x.User(), k, k + n);
    RunNone(x.m, x.User());
    ghost var traces;
    status, done, traces := x.Execute(k, host);
    x.ViewIs();
    if status != Good {
      return;
    }
    ghost var between := x.User();
    RunNone(x.m, between);
    status, done, traces := x.Execute(n, host);
    x.ViewIs();
    done := k + done;
    ProtectedTransitive(old(x.User()).mem, between.mem, x.User().mem);
  }

  // In every run registers hold values of the mode's width.
  lemma {:induction false} RunKeepsFit(m: Machine, e: Env, n: nat)
    requires FitsMode(e.regs, m.addr)
    ensures FitsMode(Run(m, e, n).env.regs, m.addr)
  {
    hide Step, FitsMode;
    if n != 0 {
      RunKeepsFit(m, e, n - 1);
      var r := Run(m, e, n - 1);
      RunOneMore(m, e, n - 1);
      if r.Completed? && !Step(m, r.env).Stop? {
        StepFits(m, r.env);
      }
    }
  }
}
