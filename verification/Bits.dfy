/** Machine integers as bounded mathematical integers: register slices and little-endian bytes. */
module Bits {
  const B8 := 0x100
  const B16 := 0x1_0000
  const B32 := 0x1_0000_0000
  const B64 := 0x1_0000_0000_0000_0000

  type byte = x: int | 0 <= x < 0x100

  // The executor's uintptr_t.
  type Word = x: int | 0 <= x < 0x1_0000_0000_0000_0000

  // The part of a 64-bit register that an alias of it names, such as AL, AH, AX, EAX and RAX.
  datatype Part = Low8 | High8 | Low16 | Low32 | Full64

  function PartBound(p: Part): nat {
    match p
    case Low8 => B8
    case High8 => B8
    case Low16 => B16
    case Low32 => B32
    case Full64 => B64
  }

  // The bits of v that the alias p names.
  function Slice(v: Word, p: Part): (r: Word)
    ensures r < PartBound(p)
  {
    match p
    case Low8 => v % B8
    case High8 => v / B8 % B8
    case Low16 => v % B16
    case Low32 => v % B32
    case Full64 => v
  }

  // Register v after writing x through the alias p: a 32-bit write clears the upper half,
  // narrower ones keep everything outside the alias.
  function Splice(v: Word, p: Part, x: Word): Word {
    match p
    case Low8 => v - v % B8 + x % B8
    case High8 => SpliceHigh8(v, x); v - v / B8 % B8 * B8 + x % B8 * B8
    case Low16 => v - v % B16 + x % B16
    case Low32 => x % B32
    case Full64 => x
  }

  lemma SpliceHigh8(v: Word, x: Word)
    ensures 0 <= v - v / B8 % B8 * B8 + x % B8 * B8 < B64
    ensures v - v / B8 % B8 * B8 + x % B8 * B8 == v / B16 * B16 + x % B8 * B8 + v % B8
  {
    var q := v / B8;
    assert v == q * B8 + v % B8;
    assert q == q / B8 * B8 + q % B8;
    assert v / B16 == q / B8;
  }

  // Little-endian bytes

  function Pow256(n: nat): (r: nat)
    ensures r >= 1
  {
    if n == 0 then 1 else 0x100 * Pow256(n - 1)
  }

  function FromBytes(bs: seq<byte>): nat {
    if bs == [] then 0 else bs[0] + 0x100 * FromBytes(bs[1..])
  }

  // The n low bytes of v.
  function ToBytes(v: nat, n: nat): (bs: seq<byte>)
    ensures |bs| == n
  {
    if n == 0 then [] else [v % 0x100] + ToBytes(v / 0x100, n - 1)
  }

  lemma {:induction false} FromBytesBound(bs: seq<byte>)
    ensures FromBytes(bs) < Pow256(|bs|)
  {
    if bs != [] {
      FromBytesBound(bs[1..]);
    }
  }

  lemma {:induction false} BytesRoundTrip(bs: seq<byte>)
    ensures ToBytes(FromBytes(bs), |bs|) == bs
  {
    if bs != [] {
      BytesRoundTrip(bs[1..]);
      var rest := FromBytes(bs[1..]);
      assert FromBytes(bs) / 0x100 == rest && FromBytes(bs) % 0x100 == bs[0];
    }
  }

  lemma {:induction false} ValueRoundTrip(v: nat, n: nat)
    requires v < Pow256(n)
    ensures FromBytes(ToBytes(v, n)) == v
  {
    if n != 0 {
      assert v / 0x100 < Pow256(n - 1);
      ValueRoundTrip(v / 0x100, n - 1);
    }
  }

  lemma {:induction false} Pow256Monotone(m: nat, n: nat)
    requires m <= n
    ensures Pow256(m) <= Pow256(n)
  {
    if m < n {
      Pow256Monotone(m, n - 1);
    }
  }

  lemma Pow256Values()
    ensures Pow256(1) == B8 && Pow256(2) == B16 && Pow256(4) == B32 && Pow256(8) == B64
  {
    assert Pow256(2) == 0x100 * Pow256(1);
    assert Pow256(3) == 0x100 * Pow256(2);
    assert Pow256(4) == 0x100 * Pow256(3);
    assert Pow256(5) == 0x100 * Pow256(4);
    assert Pow256(6) == 0x100 * Pow256(5);
    assert Pow256(7) == 0x100 * Pow256(6);
    assert Pow256(8) == 0x100 * Pow256(7);
  }

  lemma DivModUnique(v: int, d: int, q: int, r: int)
    requires 0 <= r < d && v == q * d + r
    ensures v / d == q && v % d == r
  {
    var q1, r1 := v / d, v % d;
    assert (q - q1) * d == r1 - r;
    MultipleOutside(q - q1, d);
  }

  lemma MultipleOutside(k: int, d: int)
    requires d > 0
    ensures k >= 1 ==> k * d >= d
    ensures k <= -1 ==> k * d <= -d
  {
  }

  lemma Distribute(p: int, d: int, n: int)
    ensures (p + d) * n == p * n + d * n
  {
  }

  // Reducing modulo a multiple of d first does not matter modulo d.
  lemma ModOfMod(v: int, k: int, d: int)
    requires 0 < d && 0 < k
    ensures k * d > 0
    ensures v % (k * d) % d == v % d
    ensures v / d == v / (k * d) * k + v % (k * d) / d
  {
    assert k * d > 0;
    var h, l := v / (k * d), v % (k * d);
    var q, r := l / d, l % d;
    assert v == (h * k + q) * d + r by {
      assert v == h * (k * d) + l;
      assert h * (k * d) == h * k * d;
    }
    DivModUnique(v, d, h * k + q, r);
  }

  lemma ModOfMod32(v: int)
    ensures v % B64 % B32 == v % B32 && v % B32 % B16 == v % B16 && v % B32 % B8 == v % B8
    ensures v / B8 == v / B32 * 0x100_0000 + v % B32 / B8
    ensures v / B16 == v / B32 * B16 + v % B32 / B16
    ensures v % B64 % B16 == v % B16
  {
    ModOfMod(v, B32, B32);
    ModOfMod(v, B16, B16);
    ModOfMod(v, 0x100_0000, B8);
    ModOfMod(v, 0x1_0000_0000_0000, B16);
  }

  // Slices and splices in a register that is only 32 bits wide are unaffected by whatever the
  // upper half of the storage holds.
  predicate Narrow(p: Part) { p != Full64 }

  lemma SliceOfLowHalf(v: Word, p: Part)
    requires Narrow(p)
    ensures Slice(v, p) == Slice(v % B32, p)
  {
    ModOfMod32(v);
    if p == High8 {
      assert (v / B32 * 0x100_0000 + v % B32 / B8) % B8 == v % B32 / B8 % B8 by {
        var q := v % B32 / B8;
        DivModUnique(v / B8, B8, v / B32 * B16 + q / B8, q % B8);
      }
    }
  }

  lemma SpliceOfLowHalf(v: Word, p: Part, x: Word)
    requires Narrow(p)
    ensures Splice(v, p, x) % B32 == Splice(v % B32, p, x) % B32
  {
    ModOfMod32(v);
    var h, l := v / B32, v % B32;
    assert v == h * B32 + l;
    match p {
      case Low8 => SameLowHalf(h, v - v % B8 + x % B8, l - l % B8 + x % B8);
      case Low16 => SameLowHalf(h, v - v % B16 + x % B16, l - l % B16 + x % B16);
      case Low32 =>
      case High8 =>
        SpliceHigh8(v, x);
        SpliceHigh8(l, x);
        SameLowHalf(h, v / B16 * B16 + x % B8 * B8 + v % B8, l / B16 * B16 + x % B8 * B8 + l % B8);
    }
  }

  lemma SameLowHalf(h: int, a: int, b: int)
    requires a == h * B32 + b
    ensures a % B32 == b % B32
  {
    DivModUnique(a, B32, h + b / B32, b % B32);
  }
}
