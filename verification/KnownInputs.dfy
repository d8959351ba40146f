/**
 Which addresses become known inputs (godefroid/policies.py:118-138 and 244-292), over whole runs: those read before
 they are written, and computed addresses that lie in range or come from a known input.
 */
module KnownInputs {
  import opened Areas
  import opened InputPolicy

  // Event k makes its address an input: a read always does; a computation does if its result is one already, lies in
  // pointer space or among the arguments, or has a part that is one, other than zero.
  ghost predicate Makes(p: Policy, es: seq<Event>, k: nat)
    requires k < |es|
    decreases k, 1
  {
    match es[k]
    case Read(_, _, _, _) => true
    case Write(_, _) => false
    case Compute(a, parts, _) =>
      || KnownBefore(p, es, k, a)
      || p.pointersStart <= a < p.pointersEnd
      || p.start <= a < p.end
      || exists i :: 0 <= i < |parts| && parts[i] != 0 && KnownBefore(p, es, k, parts[i])
  }

  ghost predicate KnownBefore(p: Policy, es: seq<Event>, k: nat, a: int)
    requires k <= |es|
    decreases k, 0
  {
    exists j: nat :: j < k && Makes(p, es, j) && es[j].addr == a
  }

  ghost predicate LastMade(p: Policy, es: seq<Event>, k: nat) {
    k < |es| && Makes(p, es, k) && NotMadeLater(p, es, k)
  }

  ghost predicate NotMadeLater(p: Policy, es: seq<Event>, k: nat)
    requires k < |es|
  {
    forall j: nat :: k < j < |es| && Makes(p, es, j) ==> es[j].addr != es[k].addr
  }

  // What happens later does not matter.
  lemma {:induction false} MakesPrefix(p: Policy, es: seq<Event>, n: nat, k: nat)
    requires k < n <= |es|
    ensures Makes(p, es[..n], k) <==> Makes(p, es, k)
    decreases k
  {
    forall a
      ensures KnownBefore(p, es[..n], k, a) <==> KnownBefore(p, es, k, a)
    {
      forall j: nat | j < k
        ensures Makes(p, es[..n], j) <==> Makes(p, es, j)
      {
        MakesPrefix(p, es, n, j);
      }
    }
  }

  lemma KnownPrefix(p: Policy, es: seq<Event>, n: nat, k: nat, a: int)
    requires k <= n <= |es|
    ensures KnownBefore(p, es[..n], k, a) <==> KnownBefore(p, es, k, a)
  {
    forall j: nat | j < k
      ensures Makes(p, es[..n], j) <==> Makes(p, es, j)
    {
      MakesPrefix(p, es, n, j);
    }
  }

  // The known inputs are the addresses made so, each with the size of the last event that made it.
  ghost predicate KnownAre(p: Policy, es: seq<Event>, inputs: map<int, nat>) {
    && (forall a :: a in inputs <==> KnownBefore(p, es, |es|, a))
    && forall k: nat :: LastMade(p, es, k) ==> es[k].addr in inputs && inputs[es[k].addr] == es[k].size
  }

  ghost predicate SameRanges(p: Policy, q: Policy) {
    && p.start == q.start && p.end == q.end && p.addressSize == q.addressSize
    && p.pointersStart == q.pointersStart && p.pointersEnd == q.pointersEnd
  }

  // One event, on the known inputs.
  lemma EventInputs(l: Log, e: Event)
    requires !l.aborted && !NextLog(l, e).aborted
    ensures SameRanges(l.policy, NextLog(l, e).policy)
    ensures
      var p := l.policy;
      var made :=
        match e
        case Read(_, _, _, _) => true
        case Write(_, _) => false
        case Compute(a, parts, _) =>
          || a in p.inputs || p.pointersStart <= a < p.pointersEnd || p.start <= a < p.end
          || exists i :: 0 <= i < |parts| && parts[i] != 0 && parts[i] in p.inputs;
      NextLog(l, e).policy.inputs == if made then p.inputs[e.addr := e.size] else p.inputs
  {
  }

  lemma MadeNow(p: Policy, es: seq<Event>, inputs: map<int, nat>)
    requires es != [] && KnownAre(p, es[..|es| - 1], inputs)
    ensures
      var e := es[|es| - 1];
      Makes(p, es, |es| - 1) <==>
        match e
        case Read(_, _, _, _) => true
        case Write(_, _) => false
        case Compute(a, parts, _) =>
          || a in inputs || p.pointersStart <= a < p.pointersEnd || p.start <= a < p.end
          || exists i :: 0 <= i < |parts| && parts[i] != 0 && parts[i] in inputs
  {
    hide LastMade, KnownBefore;
    var last := |es| - 1;
    forall a
      ensures a in inputs <==> KnownBefore(p, es, last, a)
    {
      KnownPrefix(p, es, last, last, a);
    }
  }

  lemma KnownLater(p: Policy, es: seq<Event>, a: int)
    requires es != []
    ensures
      var last := |es| - 1;
      KnownBefore(p, es, |es|, a) <==>
        KnownBefore(p, es[..last], last, a) || (Makes(p, es, last) && es[last].addr == a)
  {
    hide Makes;
    var last := |es| - 1;
    KnownPrefix(p, es, last, last, a);
  }

  lemma LastBefore(p: Policy, es: seq<Event>, k: nat)
    requires es != [] && LastMade(p, es, k)
    ensures
      var last := |es| - 1;
      k == last || (LastMade(p, es[..last], k) && !(Makes(p, es, last) && es[last].addr == es[k].addr))
  {
    hide Makes;
    var last := |es| - 1;
    if k < last {
      forall j: nat | j < last
        ensures Makes(p, es[..last], j) <==> Makes(p, es, j)
      {
        MakesPrefix(p, es, last, j);
      }
    }
  }

  lemma KnownNext(p: Policy, es: seq<Event>, before: map<int, nat>, after: map<int, nat>)
    requires es != [] && KnownAre(p, es[..|es| - 1], before)
    requires
      var e := es[|es| - 1];
      after == if Makes(p, es, |es| - 1) then before[e.addr := e.size] else before
    ensures KnownAre(p, es, after)
  {
    hide Makes, KnownBefore, LastMade;
    forall a
      ensures a in after <==> KnownBefore(p, es, |es|, a)
    {
      KnownLater(p, es, a);
    }
    forall k: nat | LastMade(p, es, k)
      ensures k < |es| && es[k].addr in after && after[es[k].addr] == es[k].size
    {
      LastIs(p, es, k);
      LastBefore(p, es, k);
    }
  }

  lemma LastIs(p: Policy, es: seq<Event>, k: nat)
    requires LastMade(p, es, k)
    ensures k < |es| && Makes(p, es, k)
  {
  }

  lemma NothingKnown(p: Policy)
    ensures KnownAre(p, [], map[])
  {
  }

  // In every run that does not abort.
  lemma {:induction false} KnownExactly(p: Policy, es: seq<Event>)
    requires Initial(p) && !Play(p, es).aborted
    ensures KnownAre(p, es, Play(p, es).policy.inputs) && SameRanges(p, Play(p, es).policy)
  {
    hide NextLog, KnownAre, Makes;
    if es == [] {
      NothingKnown(p);
    } else {
      var init := es[..|es| - 1];
      AbortedStays(Play(p, init), es[|es| - 1]);
      KnownExactly(p, init);
      EventInputs(Play(p, init), es[|es| - 1]);
      MadeNow(p, es, Play(p, init).policy.inputs);
      KnownNext(p, es, Play(p, init).policy.inputs, Play(p, es).policy.inputs);
    }
  }

  // So a report of the inputs has exactly the bytes of the events that were the last to make their address one.
  lemma InputsReportedExactly(p: Policy, es: seq<Event>, merged: seq<Input>, b: int)
    requires Initial(p) && !Play(p, es).aborted && Reports(Play(p, es).policy.inputs, Extents(merged))
    ensures Covers(Extents(merged), b) <==>
      exists k: nat :: LastMade(p, es, k) && es[k].addr <= b < es[k].addr + es[k].size
  {
    hide Play, Covers, NotMadeLater, Makes;
    KnownExactly(p, es);
    var inputs := Play(p, es).policy.inputs;
    if Occupied(inputs, b) {
      var a :| a in inputs && a <= b < a + inputs[a];
      var i: nat :| i < |es| && Makes(p, es, i) && es[i].addr == a;
      var k := LastFrom(p, es, i);
      assert es[k].addr == a;
    }
    if k: nat :| LastMade(p, es, k) && es[k].addr <= b < es[k].addr + es[k].size {
      assert es[k].addr in inputs;
    }
  }

  lemma {:induction false} LastFrom(p: Policy, es: seq<Event>, k: nat) returns (j: nat)
    requires k < |es| && Makes(p, es, k)
    ensures LastMade(p, es, j) && es[j].addr == es[k].addr
    decreases |es| - k
  {
    hide Makes;
    if i: nat :| k < i < |es| && Makes(p, es, i) && es[i].addr == es[k].addr {
      j := LastFrom(p, es, i);
    } else {
      j := k;
    }
  }
}
