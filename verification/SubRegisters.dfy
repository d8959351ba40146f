/**
 Aliased registers (section 3.4.1.1 of the Intel 64 and IA-32 SDM, Volume 1) as eight byte lanes, an
 account of them that knows nothing of shifts and masks: a write through an alias sets the lanes it
 names, and a 32-bit write clears the upper four as well.
 */
module SubRegisters {
  import opened Bits
  import opened FlatMemory
  import opened Machine
  import opened Isa

  function FirstLane(p: Part): nat {
    if p == High8 then 1 else 0
  }

  function LaneCount(p: Part): nat {
    match p
    case Low8 | High8 => 1
    case Low16 => 2
    case Low32 => 4
    case Full64 => 8
  }

  function Lanes(v: Word): (bs: seq<byte>)
    ensures |bs| == 8
  {
    ToBytes(v, 8)
  }

  datatype Write = Write(reg: Reg, value: Word)

  // What one write puts into a lane of a register, if it touches it.
  function Touched(w: Write, id: RegId, lane: nat): Option<byte> {
    var p := w.reg.part;
    if w.reg.id != id then None
    else if FirstLane(p) <= lane < FirstLane(p) + LaneCount(p) then
      Some(ToBytes(w.value, LaneCount(p))[lane - FirstLane(p)])
    else if p == Low32 then Some(0)
    else None
  }

  // The last write to touch a lane determines it.
  function LastTouch(before: byte, ws: seq<Write>, id: RegId, lane: nat): byte {
    if ws == [] then before
    else
      match Touched(ws[|ws| - 1], id, lane)
      case Some(b) => b
      case None => LastTouch(before, ws[..|ws| - 1], id, lane)
  }

  // The n lanes from `first` on, as the last writes left them.
  function LastLanes(v: Word, ws: seq<Write>, id: RegId, first: nat, n: nat): (bs: seq<byte>)
    requires first + n <= 8
    ensures |bs| == n
    ensures forall i :: 0 <= i < n ==> bs[i] == LastTouch(Lanes(v)[first + i], ws, id, first + i)
  {
    if n == 0 then []
    else LastLanes(v, ws, id, first, n - 1) + [LastTouch(Lanes(v)[first + n - 1], ws, id, first + n - 1)]
  }

  // The register storage after a list of writes.
  function After(regs: Regs, ws: seq<Write>): Regs {
    if ws == [] then regs
    else
      var r, w := After(regs, ws[..|ws| - 1]), ws[|ws| - 1];
      r[w.reg.id := Splice(r[w.reg.id], w.reg.part, w.value)]
  }

  // Bytes of a value put together from a low and a high part

  lemma {:induction false} BytesOfSum(l: nat, n: nat, h: nat, k: nat)
    requires l < Pow256(n)
    ensures ToBytes(l + Pow256(n) * h, n + k) == ToBytes(l, n) + ToBytes(h, k)
  {
    if n != 0 {
      var v, rest := l + Pow256(n) * h, l / 0x100 + Pow256(n - 1) * h;
      assert Pow256(n) * h == 0x100 * (Pow256(n - 1) * h) by {
        Associates(0x100, Pow256(n - 1), h);
      }
      DivModUnique(v, 0x100, rest, l % 0x100);
      assert l / 0x100 < Pow256(n - 1);
      BytesOfSum(l / 0x100, n - 1, h, k);
    }
  }

  lemma Associates(a: int, b: int, c: int)
    ensures a * b * c == a * (b * c)
  {
  }

  lemma {:induction false} NoBytes(n: nat)
    ensures ToBytes(0, n) == seq(n, _ => 0)
  {
    if n != 0 {
      NoBytes(n - 1);
    }
  }

  // The n low bytes of a value do not depend on what is above them.
  lemma LowBytes(v: nat, n: nat)
    ensures ToBytes(v % Pow256(n), n) == ToBytes(v, n)
  {
    hide Pow256, ToBytes;
    var h := v / Pow256(n);
    Halves(v, Pow256(n));
    BytesOfSum(v % Pow256(n), n, h, 0);
    assert ToBytes(v, n + 0) == ToBytes(v, n);
    assert |ToBytes(h, 0)| == 0;
  }

  lemma Halves(v: nat, d: nat)
    requires d > 0
    ensures v == v % d + d * (v / d) && v % d < d && v / d >= 0
  {
  }

  // The n low bytes of a value, and what is above them.
  function LowPart(v: nat, n: nat): nat {
    Halves(v, Pow256(n));
    v % Pow256(n)
  }

  function HighPart(v: nat, n: nat): nat {
    Halves(v, Pow256(n));
    v / Pow256(n)
  }

  lemma SplitLanes(v: Word, n: nat)
    requires n <= 8
    ensures Lanes(v) == ToBytes(LowPart(v, n), n) + ToBytes(HighPart(v, n), 8 - n)
  {
    hide Pow256, ToBytes;
    Halves(v, Pow256(n));
    BytesOfSum(v % Pow256(n), n, v / Pow256(n), 8 - n);
  }

  // Single writes and reads

  // A write of the n low bytes.
  lemma LowWriteLanes(v: Word, x: nat, n: nat, s: Word)
    requires n <= 8 && s == x % Pow256(n) + Pow256(n) * (v / Pow256(n))
    ensures Lanes(s) == ToBytes(x, n) + Lanes(v)[n..]
  {
    hide Pow256, ToBytes;
    Halves(x, Pow256(n));
    BytesOfSum(x % Pow256(n), n, v / Pow256(n), 8 - n);
    LowBytes(x, n);
    SplitLanes(v, n);
  }

  // A value put together from its low byte, the next, and the rest.
  lemma ThreeParts(l: byte, y: byte, h: nat)
    requires l + 0x100 * (y + 0x100 * h) < B64
    ensures Lanes(l + 0x100 * (y + 0x100 * h)) == ToBytes(l, 1) + ToBytes(y, 1) + ToBytes(h, 6)
  {
    hide ToBytes, Pow256;
    Pow256Values();
    BytesOfSum(l, 1, y + 0x100 * h, 7);
    BytesOfSum(y, 1, h, 6);
  }

  lemma SecondByteLanes(v: Word, x: nat, s: Word)
    requires s == v / B16 * B16 + x % B8 * B8 + v % B8
    ensures Lanes(s) == Lanes(v)[..1] + ToBytes(x, 1) + Lanes(v)[2..]
  {
    hide ToBytes, Pow256, Lanes;
    var h, y, l := v / B16, v / B8 % B8, v % B8;
    assert v == l + 0x100 * (y + 0x100 * h) by {
      SpliceHigh8(v, v / B8);
      Halves(v, B16);
      ModOfMod(v, B8, B8);
      Halves(v % B16, B8);
      DivModUnique(v / B8, B8, h, v % B16 / B8);
    }
    ThreeParts(l, y, h);
    ThreeParts(l, x % B8, h);
    Pow256Values();
    LowBytes(x, 1);
  }

  lemma SpliceLanes(v: Word, p: Part, x: Word)
    ensures
      var s, n := Lanes(Splice(v, p, x)), LaneCount(p);
      match p
      case High8 => s == Lanes(v)[..1] + ToBytes(x, 1) + Lanes(v)[2..]
      case Low32 => s == ToBytes(x, 4) + seq(4, _ => 0)
      case _ => s == ToBytes(x, n) + Lanes(v)[n..]
  {
    hide Lanes, ToBytes, Pow256;
    Pow256Values();
    var s := Splice(v, p, x);
    match p {
      case Low8 => LowWriteLanes(v, x, 1, s);
      case Low16 => LowWriteLanes(v, x, 2, s);
      case High8 =>
        SpliceHigh8(v, x);
        SecondByteLanes(v, x, s);
      case Low32 =>
        LowWriteLanes(0, x, 4, s);
        ZeroLanes();
      case Full64 => LowWriteLanes(v, x, 8, s);
    }
  }

  lemma ZeroLanes()
    ensures Lanes(0)[4..] == seq(4, _ => 0)
  {
    NoBytes(8);
  }

  // One write changes exactly the lanes it touches.
  lemma OneWrite(regs: Regs, w: Write, id: RegId, lane: nat)
    requires lane < 8
    ensures
      var s := regs[w.reg.id := Splice(regs[w.reg.id], w.reg.part, w.value)];
      Lanes(s[id])[lane] == match Touched(w, id, lane) case Some(b) => b case None => Lanes(regs[id])[lane]
  {
    hide Lanes, Splice, ToBytes;
    SpliceLanes(regs[w.reg.id], w.reg.part, w.value);
  }

  // Reading an alias is reading its lanes.
  lemma SliceIsLanes(v: Word, p: Part)
    ensures Slice(v, p) == FromBytes(Lanes(v)[FirstLane(p)..FirstLane(p) + LaneCount(p)])
  {
    Pow256Values();
    hide Pow256, ToBytes, FromBytes;
    var n := LaneCount(p);
    if p == High8 {
      SecondByteLanes(v, v / B8, v);
      LowBytes(v / B8, 1);
      assert Lanes(v)[1..2] == ToBytes(v / B8 % B8, 1);
      ValueRoundTrip(v / B8 % B8, 1);
    } else {
      SplitLanes(v, n);
      assert Lanes(v)[..n] == ToBytes(v % Pow256(n), n);
      ValueRoundTrip(v % Pow256(n), n);
    }
  }

  // Registers with the same lanes are the same.
  lemma LanesDetermine(v: Word, w: Word)
    requires forall i :: 0 <= i < 8 ==> Lanes(v)[i] == Lanes(w)[i]
    ensures v == w
  {
    Pow256Values();
    ValueRoundTrip(v, 8);
    ValueRoundTrip(w, 8);
    assert Lanes(v) == Lanes(w);
  }

  // Any list of writes, through any mix of aliases of any registers: each lane of each register
  // holds what the last write that touches it put there.
  lemma {:induction false} EveryLane(regs: Regs, ws: seq<Write>, id: RegId, lane: nat)
    requires lane < 8
    ensures Lanes(After(regs, ws)[id])[lane] == LastTouch(Lanes(regs[id])[lane], ws, id, lane)
  {
    hide Lanes, Splice, Touched;
    if ws != [] {
      var before, w := After(regs, ws[..|ws| - 1]), ws[|ws| - 1];
      EveryLane(regs, ws[..|ws| - 1], id, lane);
      OneWrite(before, w, id, lane);
    }
  }

  // So reading any alias after them puts together the last bytes written to it.
  lemma AliasAfterWrites(regs: Regs, ws: seq<Write>, r: Reg)
    ensures Get(After(regs, ws), r) ==
      FromBytes(LastLanes(regs[r.id], ws, r.id, FirstLane(r.part), LaneCount(r.part)))
  {
    hide Lanes, Slice, LastTouch, After;
    var first, n, v := FirstLane(r.part), LaneCount(r.part), After(regs, ws)[r.id];
    SliceIsLanes(v, r.part);
    var lanes := LastLanes(regs[r.id], ws, r.id, first, n);
    forall i | 0 <= i < n
      ensures Lanes(v)[first..first + n][i] == lanes[i]
    {
      EveryLane(regs, ws, r.id, first + i);
    }
    assert Lanes(v)[first..first + n] == lanes;
  }

  // Writes through AL and AH, and through aliases of different registers, commute.
  lemma WritesCommute(regs: Regs, w1: Write, w2: Write)
    requires w1.reg.id != w2.reg.id || {w1.reg.part, w2.reg.part} == {Low8, High8}
    ensures After(regs, [w1, w2]) == After(regs, [w2, w1])
  {
    hide Lanes, After;
    var x, y := After(regs, [w1, w2]), After(regs, [w2, w1]);
    forall id: RegId
      ensures x[id] == y[id]
    {
      forall lane | 0 <= lane < 8
        ensures Lanes(x[id])[lane] == Lanes(y[id])[lane]
      {
        EveryLane(regs, [w1, w2], id, lane);
        EveryLane(regs, [w2, w1], id, lane);
        TwoTouches(Lanes(regs[id])[lane], w1, w2, id, lane);
        TwoTouches(Lanes(regs[id])[lane], w2, w1, id, lane);
        assert Touched(w1, id, lane) == None || Touched(w2, id, lane) == None;
      }
      LanesDetermine(x[id], y[id]);
    }
  }

  lemma TwoTouches(before: byte, w1: Write, w2: Write, id: RegId, lane: nat)
    ensures LastTouch(before, [w1, w2], id, lane) ==
      if Touched(w2, id, lane).Some? then Touched(w2, id, lane).value
      else if Touched(w1, id, lane).Some? then Touched(w1, id, lane).value
      else before
  {
    assert [w1, w2][..1] == [w1];
    assert [w1][..0] == [];
    assert LastTouch(before, [w1], id, lane) == (
      if Touched(w1, id, lane).Some? then Touched(w1, id, lane).value else before);
  }

  // Reading back what was just written.
  lemma SliceOfSplice(v: Word, p: Part, x: Word)
    requires x < PartBound(p)
    ensures Slice(Splice(v, p, x), p) == x
  {
    hide Lanes, Slice, Splice;
    Pow256Values();
    SpliceLanes(v, p, x);
    SliceIsLanes(Splice(v, p, x), p);
    var n := LaneCount(p);
    assert Lanes(Splice(v, p, x))[FirstLane(p)..FirstLane(p) + n] == ToBytes(x, n);
    ValueRoundTrip(x, n);
  }

  lemma PutGet(a: AddrSize, regs: Regs, r: Reg, v: Word)
    requires PartFits(r, a) && v < PartBound(r.part)
    ensures Get(Put(a, regs, r, v), r) == v
  {
    hide Slice, Splice;
    var whole := Splice(regs[r.id], r.part, v);
    SliceOfSplice(regs[r.id], r.part, v);
    if Narrow(r.part) {
      SliceOfLowHalf(whole, r.part);
    }
  }
}
