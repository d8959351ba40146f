/** REP MOVS as memmove, and REP STOS as a fill, once the whole count has run. */
module Memmove {
  import opened Bits
  import opened FlatMemory
  import opened Machine
  import opened Isa
  import opened StringWalk
  import opened StoreRuns

  ghost predicate Apart(a: int, b: int, n: int) {
    a + n <= b || b + n <= a
  }

  // No element is stored over one still to be read, or over another.
  ghost predicate Independent(inst: Inst, e: Env, op: StrOp, k: nat)
    requires Storing(inst, op)
  {
    && (forall i, j :: 0 <= i < j < k ==> Apart(Dst(inst, e, op, i), Dst(inst, e, op, j), inst.opBytes))
    && (op == Movs ==> forall i, j :: 0 <= i < j < k ==> Apart(Dst(inst, e, op, i), Src(inst, e, j), inst.opBytes))
  }

  // The byte that belongs at offset r of the j-th element.
  ghost function Wanted(inst: Inst, e: Env, op: StrOp, j: nat, r: nat): byte
    requires Storing(inst, op) && AllowedAt(inst, e, op, j) && r < inst.opBytes
  {
    if op == Movs then e.mem[Src(inst, e, j) + r].value
    else ToBytes(Get(e.regs, inst.regs[0].reg), inst.opBytes)[r]
  }

  lemma SourceUntouched(inst: Inst, e: Env, j: nat, r: nat, k: nat)
    requires Storing(inst, Movs) && Independent(inst, e, Movs, k) && j < k && r < inst.opBytes
    ensures !Touches(inst, e, Movs, j, Src(inst, e, j) + r)
  {
    hide Elem, StringShape;
    forall i | 0 <= i < j
      ensures !(Dst(inst, e, Movs, i) <= Src(inst, e, j) + r < Dst(inst, e, Movs, i) + inst.opBytes)
    {
      assert Apart(Dst(inst, e, Movs, i), Src(inst, e, j), inst.opBytes);
    }
  }

  lemma StoredByte(m: Flat, a: int, n: nat, v: nat, r: nat)
    requires Mapped(m, a, n) && r < n
    ensures StoreValue(m, a, n, v)[a + r].value == ToBytes(v, n)[r]
  {
  }

  lemma CopiedByte(m: Flat, from: int, n: nat, r: nat)
    requires Mapped(m, from, n) && r < n
    ensures ToBytes(ValueAt(m, from, n), n)[r] == m[from + r].value
  {
    BytesRoundTrip(BytesAt(m, from, n));
  }

  lemma UntouchedKept(inst: Inst, e: Env, op: StrOp, k: nat, a: int)
    requires Storing(inst, op) && Allowed(inst, e, op, k) && !Touches(inst, e, op, k, a) && a in e.mem
    ensures StoreElems(inst, e, op, k)[a] == e.mem[a]
  {
    hide Touches, AllowedAt, Storing;
  }

  lemma SourceMapped(inst: Inst, e: Env, j: nat, r: nat)
    requires Storing(inst, Movs) && AllowedAt(inst, e, Movs, j) && r < inst.opBytes
    ensures Src(inst, e, j) + r in e.mem
  {
    hide Elem, StringShape;
  }

  lemma DestinationMapped(inst: Inst, e: Env, op: StrOp, j: nat, r: nat)
    requires Storing(inst, op) && AllowedAt(inst, e, op, j) && r < inst.opBytes
    ensures Dst(inst, e, op, j) + r in e.mem
  {
    hide Elem, StringShape;
  }

  lemma LastStored(inst: Inst, e: Env, op: StrOp, j: nat, r: nat)
    requires Storing(inst, op) && Allowed(inst, e, op, j) && AllowedAt(inst, e, op, j)
      && Independent(inst, e, op, j + 1)
    requires r < inst.opBytes
    ensures Allowed(inst, e, op, j + 1) && Dst(inst, e, op, j) + r in e.mem
    ensures StoreElems(inst, e, op, j + 1)[Dst(inst, e, op, j) + r].value == Wanted(inst, e, op, j, r)
  {
    hide Elem, HintOf, WidthBound, Stride, Storing, Touches, Independent, ToBytes, FromBytes, StoreValue, ValueAt, Get;
    hide StoreElems, AllowedAt, Allowed, Mapped, Dst, Src, SamePermissions;
    StoringIs(inst, op);
    StoreElemsNext(inst, e, op, j);
    DestinationMapped(inst, e, op, j, r);
    var before, dst, n := StoreElems(inst, e, op, j), Dst(inst, e, op, j), inst.opBytes;
    if op == Movs {
      SourceUntouched(inst, e, j, r, j + 1);
      SourceMapped(inst, e, j, r);
      var src := Src(inst, e, j);
      UntouchedKept(inst, e, op, j, src + r);
      CopiedByte(before, src, n, r);
      StoredByte(before, dst, n, ValueAt(before, src, n), r);
    } else {
      StoredByte(before, dst, n, Get(e.regs, inst.regs[0].reg), r);
    }
  }

  lemma KeptByNext(inst: Inst, e: Env, op: StrOp, k: nat, a: int)
    requires Storing(inst, op) && Allowed(inst, e, op, k) && AllowedAt(inst, e, op, k) && a in e.mem
    requires a < Dst(inst, e, op, k) || Dst(inst, e, op, k) + inst.opBytes <= a
    ensures Allowed(inst, e, op, k + 1)
    ensures StoreElems(inst, e, op, k + 1)[a] == StoreElems(inst, e, op, k)[a]
  {
    hide Elem, HintOf, WidthBound, Stride, Storing, ToBytes, FromBytes, ValueAt, Get, AllowedAt, Touches, StoreElems;
    StoreElemsNext(inst, e, op, k);
  }

  lemma PrefixIsIndependent(inst: Inst, e: Env, op: StrOp, j: nat, k: nat)
    requires Storing(inst, op) && Allowed(inst, e, op, k) && Independent(inst, e, op, k) && j < k
    ensures Independent(inst, e, op, j) && Allowed(inst, e, op, j) && AllowedAt(inst, e, op, j)
    ensures forall i :: 0 <= i < j ==> Apart(Dst(inst, e, op, i), Dst(inst, e, op, j), inst.opBytes)
  {
    hide AllowedAt, Storing, Dst, Src, Apart;
  }

  lemma {:induction false} ElementStored(inst: Inst, e: Env, op: StrOp, k: nat, j: nat, r: nat)
    requires Storing(inst, op) && Allowed(inst, e, op, k) && Independent(inst, e, op, k) && j < k && r < inst.opBytes
    ensures AllowedAt(inst, e, op, j) && Dst(inst, e, op, j) + r in e.mem
    ensures StoreElems(inst, e, op, k)[Dst(inst, e, op, j) + r].value == Wanted(inst, e, op, j, r)
  {
    hide Elem, HintOf, WidthBound, Stride, Storing, ToBytes, FromBytes, Get, Wanted, StoreElems, AllowedAt, Allowed;
    hide Independent, SamePermissions, Dst;
    var before := k - 1;
    PrefixIsIndependent(inst, e, op, before, k);
    if j < before {
      ElementStored(inst, e, op, before, j, r);
      KeptByNext(inst, e, op, before, Dst(inst, e, op, j) + r);
    } else {
      LastStored(inst, e, op, j, r);
    }
  }

  // Strings that do not wrap around the address space

  predicate Upwards(e: Env) { DF !in e.flags }

  // The lowest address of a string of c elements of n bytes whose first element is at p.
  function Lowest(e: Env, p: int, c: nat, n: int): int {
    if Upwards(e) then p else p - (c - 1) * n
  }

  // The string fits in the address space of its pointer.
  predicate NoWrap(e: Env, p: int, c: nat, n: int, w: Width) {
    if Upwards(e) then p + c * n <= WidthBound(w) else p - (c - 1) * n >= 0
  }

  // Copying may not run over elements it has yet to read: the strings are disjoint, or the
  // destination trails the source in the direction of the copy.
  predicate SafeOverlap(e: Env, dst: int, src: int, c: nat, n: int) {
    || Lowest(e, dst, c, n) + c * n <= Lowest(e, src, c, n)
    || Lowest(e, src, c, n) + c * n <= Lowest(e, dst, c, n)
    || if Upwards(e) then dst <= src else src <= dst
  }

  lemma ElemAt(e: Env, inst: Inst, w: Width, p: int, c: nat, j: nat)
    requires inst.opBytes in {1, 2, 4, 8} && j < c
    requires NoWrap(e, Elem(w, p, Stride(inst, e.flags), 0), c, inst.opBytes, w)
    ensures Elem(w, p, Stride(inst, e.flags), j) == Elem(w, p, Stride(inst, e.flags), 0) + j * Stride(inst, e.flags)
    ensures Elem(w, p, Stride(inst, e.flags), j)
      == Lowest(e, Elem(w, p, Stride(inst, e.flags), 0), c, inst.opBytes)
         + (if Upwards(e) then j else c - 1 - j) * inst.opBytes
  {
    hide WidthBound;
    var n, inc, b := inst.opBytes, Stride(inst, e.flags), WidthBound(w);
    var first := Elem(w, p, inc, 0);
    Scaled(c, j, n);
    assert 0 * inc == 0;
    assert first == p % b;
    StepWithin(p, b, first, j * inc);
  }

  lemma Scaled(c: nat, j: nat, n: int)
    requires j < c && n > 0
    ensures 0 <= j * n <= (c - 1) * n && c * n == (c - 1) * n + n
    ensures (c - 1 - j) * n == (c - 1) * n - j * n && j * -n == -(j * n)
  {
  }

  lemma StepWithin(p: int, b: int, first: int, offset: int)
    requires b > 0 && first == p % b && 0 <= first + offset < b
    ensures (p + offset) % b == first + offset
  {
    DivModUnique(p + offset, b, p / b, first + offset);
  }

  ghost predicate FitsSpace(inst: Inst, e: Env, op: StrOp, c: nat)
    requires Storing(inst, op)
  {
    && NoWrap(e, Dst(inst, e, op, 0), c, inst.opBytes, inst.mems[0].width)
    && (op == Movs ==> NoWrap(e, Src(inst, e, 0), c, inst.opBytes, inst.mems[1].width))
  }

  // Where element j lies, counted in elements from the low end of its string.
  function Place(e: Env, c: nat, j: nat): int {
    if Upwards(e) then j else c - 1 - j
  }

  lemma ElementsLie(inst: Inst, e: Env, op: StrOp, c: nat, j: nat)
    requires Storing(inst, op) && FitsSpace(inst, e, op, c) && j < c
    ensures Dst(inst, e, op, j) == Lowest(e, Dst(inst, e, op, 0), c, inst.opBytes) + Place(e, c, j) * inst.opBytes
    ensures op == Movs ==>
      Src(inst, e, j) == Lowest(e, Src(inst, e, 0), c, inst.opBytes) + Place(e, c, j) * inst.opBytes
  {
    hide Elem, WidthBound, Stride;
    ElemAt(e, inst, inst.mems[0].width, e.regs[RDI], c, j);
    if op == Movs {
      ElemAt(e, inst, inst.mems[1].width, e.regs[RSI], c, j);
    }
  }

  lemma PlacesApart(lo: int, lo': int, p: int, q: int, n: int)
    requires n > 0
    ensures p < q && lo <= lo' ==> lo + p * n + n <= lo' + q * n
  {
    var d := q - p;
    MultipleOutside(d, n);
    Distribute(p, d, n);
  }

  lemma PlaceWithin(p: int, c: nat, n: int)
    requires n > 0 && 0 <= p < c
    ensures 0 <= p * n && p * n + n <= c * n
  {
    Distribute(p, c - p, n);
    MultipleOutside(c - p, n);
    MultipleOutside(p, n);
  }

  lemma SafeIsIndependent(inst: Inst, e: Env, op: StrOp, c: nat)
    requires Storing(inst, op) && FitsSpace(inst, e, op, c)
    requires op == Movs ==> SafeOverlap(e, Dst(inst, e, op, 0), Src(inst, e, 0), c, inst.opBytes)
    ensures Independent(inst, e, op, c)
  {
    forall i, j | 0 <= i < j < c
      ensures Apart(Dst(inst, e, op, i), Dst(inst, e, op, j), inst.opBytes)
      ensures op == Movs ==> Apart(Dst(inst, e, op, i), Src(inst, e, j), inst.opBytes)
    {
      PairApart(inst, e, op, c, i, j);
    }
  }

  lemma PairApart(inst: Inst, e: Env, op: StrOp, c: nat, i: nat, j: nat)
    requires Storing(inst, op) && FitsSpace(inst, e, op, c) && i < j < c
    requires op == Movs ==> SafeOverlap(e, Dst(inst, e, op, 0), Src(inst, e, 0), c, inst.opBytes)
    ensures Apart(Dst(inst, e, op, i), Dst(inst, e, op, j), inst.opBytes)
    ensures op == Movs ==> Apart(Dst(inst, e, op, i), Src(inst, e, j), inst.opBytes)
  {
    hide FitsSpace, Storing, Dst, Src;
    StoringIs(inst, op);
    var n, p, q := inst.opBytes, Place(e, c, i), Place(e, c, j);
    ElementsLie(inst, e, op, c, i);
    ElementsLie(inst, e, op, c, j);
    var dst := Lowest(e, Dst(inst, e, op, 0), c, n);
    PlacesApart(dst, dst, p, q, n);
    PlacesApart(dst, dst, q, p, n);
    if op == Movs {
      var src := Lowest(e, Src(inst, e, 0), c, n);
      PlaceWithin(p, c, n);
      PlaceWithin(q, c, n);
      PlacesApart(dst, src, p, q, n);
      PlacesApart(src, dst, q, p, n);
    }
  }

  lemma OutsideUntouched(inst: Inst, e: Env, op: StrOp, c: nat, a: int)
    requires Storing(inst, op) && FitsSpace(inst, e, op, c)
    requires var lo := Lowest(e, Dst(inst, e, op, 0), c, inst.opBytes); a < lo || lo + c * inst.opBytes <= a
    ensures !Touches(inst, e, op, c, a)
  {
    hide FitsSpace, Storing, Dst;
    StoringIs(inst, op);
    forall j | 0 <= j < c
      ensures !(Dst(inst, e, op, j) <= a < Dst(inst, e, op, j) + inst.opBytes)
    {
      ElementsLie(inst, e, op, c, j);
      PlaceWithin(Place(e, c, j), c, inst.opBytes);
    }
  }

  // The element and the offset in it that hold byte i of a string.
  lemma ByteOfElement(e: Env, c: nat, n: int, i: nat) returns (j: nat, r: nat)
    requires n > 0 && i < c * n
    ensures j < c && r < n && i == Place(e, c, j) * n + r
  {
    var q := i / n;
    assert i == q * n + i % n;
    QuotientBelow(q, c, n);
    r := i % n;
    j := if Upwards(e) then q else c - 1 - q;
  }

  lemma QuotientBelow(q: int, c: int, n: int)
    requires n > 0
    ensures q * n < c * n ==> q < c
  {
    MultipleOutside(q - c, n);
    Distribute(c, q - c, n);
  }

  // After REP MOVS or REP STOS has run, byte i of the destination is byte i of what the source held
  // at the start, or of the pattern; everything else is as it was.
  lemma WholeString(inst: Inst, e: Env, op: StrOp, c: nat, i: nat)
    requires Storing(inst, op) && Allowed(inst, e, op, c) && FitsSpace(inst, e, op, c) && i < c * inst.opBytes
    requires op == Movs ==> SafeOverlap(e, Dst(inst, e, op, 0), Src(inst, e, 0), c, inst.opBytes)
    ensures Lowest(e, Dst(inst, e, op, 0), c, inst.opBytes) + i in e.mem
    ensures op == Movs ==>
      CopiedAt(e.mem, StoreElems(inst, e, op, c), Lowest(e, Dst(inst, e, op, 0), c, inst.opBytes),
               Lowest(e, Src(inst, e, 0), c, inst.opBytes), i)
    ensures op == Stos ==>
      FilledAt(StoreElems(inst, e, op, c), Lowest(e, Dst(inst, e, op, 0), c, inst.opBytes),
               ToBytes(Get(e.regs, inst.regs[0].reg), inst.opBytes), i)
  {
    hide FitsSpace, Storing, Dst, Src, SafeOverlap, Lowest, Allowed, AllowedAt, StoreElems, Independent, ToBytes, Get;
    StoringIs(inst, op);
    var j, r := ByteOfElement(e, c, inst.opBytes, i);
    SafeIsIndependent(inst, e, op, c);
    ElementStored(inst, e, op, c, j, r);
    ElementsLie(inst, e, op, c, j);
    if op == Movs {
      SourceMapped(inst, e, j, r);
    } else {
      DivModUnique(i, inst.opBytes, Place(e, c, j), r);
    }
  }

  // Byte i of the destination is byte i of the source as it was.
  ghost predicate CopiedAt(before: Flat, after: Flat, dst: int, src: int, i: int) {
    dst + i in before && src + i in before && dst + i in after && after[dst + i].value == before[src + i].value
  }

  ghost predicate FilledAt(after: Flat, dst: int, pattern: seq<byte>, i: int)
    requires |pattern| > 0
  {
    dst + i in after && after[dst + i].value == pattern[i % |pattern|]
  }

  // What storing c elements makes of memory: a memmove (MOVS) or a fill (STOS) of what was there.
  ghost predicate MemoryStored(inst: Inst, e: Env, op: StrOp, c: nat, after: Flat)
    requires Storing(inst, op)
  {
    var n, dst := inst.opBytes, Lowest(e, Dst(inst, e, op, 0), c, inst.opBytes);
    && SamePermissions(e.mem, after)
    && (forall a :: a in e.mem && !(dst <= a < dst + c * n) ==> after[a] == e.mem[a])
    && (op == Movs ==>
          forall i :: 0 <= i < c * n ==> CopiedAt(e.mem, after, dst, Lowest(e, Src(inst, e, 0), c, n), i))
    && (op == Stos ==>
          forall i :: 0 <= i < c * n ==> FilledAt(after, dst, ToBytes(Get(e.regs, inst.regs[0].reg), n), i))
  }

  lemma StoredMemory(inst: Inst, e: Env, op: StrOp, c: nat)
    requires Storing(inst, op) && Allowed(inst, e, op, c) && FitsSpace(inst, e, op, c)
    requires op == Movs ==> SafeOverlap(e, Dst(inst, e, op, 0), Src(inst, e, 0), c, inst.opBytes)
    ensures MemoryStored(inst, e, op, c, StoreElems(inst, e, op, c))
  {
    hide FitsSpace, Storing, Dst, Src, SafeOverlap, Lowest, Allowed, AllowedAt, StoreElems, ToBytes, Get, Touches;
    StoringIs(inst, op);
    var n, dst, after := inst.opBytes, Lowest(e, Dst(inst, e, op, 0), c, inst.opBytes), StoreElems(inst, e, op, c);
    forall a | a in e.mem && !(dst <= a < dst + c * n)
      ensures after[a] == e.mem[a]
    {
      OutsideUntouched(inst, e, op, c, a);
      UntouchedKept(inst, e, op, c, a);
    }
    if op == Movs {
      var src := Lowest(e, Src(inst, e, 0), c, n);
      forall i | 0 <= i < c * n
        ensures CopiedAt(e.mem, after, dst, src, i)
      {
        WholeString(inst, e, op, c, i);
      }
    } else {
      forall i | 0 <= i < c * n
        ensures FilledAt(after, dst, ToBytes(Get(e.regs, inst.regs[0].reg), n), i)
      {
        WholeString(inst, e, op, c, i);
      }
    }
  }

  // The registers after the last iteration.
  ghost predicate RegsWalked(m: Machine, inst: Inst, e: Env, op: StrOp, c: nat, regs: Regs) {
    && regs[RIP] == NextPC(m, inst, e) && regs[RCX] == e.regs[RCX] - c
    && (forall id: RegId :: id !in StringPointers(op) + {RCX, RIP} ==> regs[id] == e.regs[id])
    && (forall id: RegId :: id in StringPointers(op) ==>
          regs[id] == Wrap(m.addr, e.regs[id] + c * Stride(inst, e.flags)))
  }

  lemma WalkedRegs(m: Machine, inst: Inst, e: Env, op: StrOp, c: nat)
    requires c <= e.regs[RCX]
    ensures
      var regs := WalkRegs(m.addr, e.regs, op, Stride(inst, e.flags), c);
      RegsWalked(m, inst, e, op, c, regs[RIP := NextPC(m, inst, e)])
  {
    hide Wrap, Stride, NextPC;
  }

  // The whole run, from a count c > 0: c steps, each iteration its own. The count ends at 0, the
  // pointers have moved by c elements, the program counter is past the instruction for the first
  // time, and memory is as after a memmove (MOVS) or a fill (STOS) of the original contents.
  lemma StringStored(m: Machine, e: Env, inst: Inst, op: StrOp) returns (e': Env)
    requires Fetched(m, e, inst) && Storing(inst, op) && FitsMode(e.regs, m.addr) && e.regs[RCX] > 0
    requires Allowed(inst, e, op, e.regs[RCX]) && LeavesCode(inst, e, op, e.regs[RCX])
    requires FitsSpace(inst, e, op, e.regs[RCX])
    requires op == Movs ==> SafeOverlap(e, Dst(inst, e, op, 0), Src(inst, e, 0), e.regs[RCX], inst.opBytes)
    ensures Run(m, e, e.regs[RCX]) == Completed(e')
    ensures e' == e.(regs := e'.regs, mem := e'.mem)
    ensures RegsWalked(m, inst, e, op, e.regs[RCX], e'.regs)
    ensures MemoryStored(inst, e, op, e.regs[RCX], e'.mem)
    ensures forall k: nat :: k < e.regs[RCX] ==> StillAt(Run(m, e, k), e.regs[RIP])
  {
    hide FitsSpace, Storing, SafeOverlap, Lowest, Allowed, AllowedAt, StoreElems, StoreEnv, Touches, Dst, Src;
    hide WalkRegs, MemoryStored, RegsWalked, Fetched, LeavesCode, NextPC, Step, Stride, FitsMode;
    var c := e.regs[RCX];
    StoreRun(m, e, inst, op, c);
    StoreEnvIs(m, e, inst, op, c);
    e' := StoreEnv(m, inst, e, op, c);
    StoredMemory(inst, e, op, c);
    WalkedRegs(m, inst, e, op, c);
    forall k: nat | k < c
      ensures StillAt(Run(m, e, k), e.regs[RIP])
    {
      FewerAllowed(inst, e, op, k, c);
      StoreRun(m, e, inst, op, k);
      StoreEnvIs(m, e, inst, op, k);
      WalkLeaves(m.addr, e.regs, op, Stride(inst, e.flags), k, RIP);
    }
  }

  lemma FewerAllowed(inst: Inst, e: Env, op: StrOp, j: nat, k: nat)
    requires Storing(inst, op) && Allowed(inst, e, op, k) && LeavesCode(inst, e, op, k) && j <= k
    ensures Allowed(inst, e, op, j) && LeavesCode(inst, e, op, j)
  {
    hide AllowedAt, Storing, Dst;
    assert forall a :: Touches(inst, e, op, j, a) ==> Touches(inst, e, op, k, a);
  }
}
