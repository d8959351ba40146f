/**
 What the flags of a comparison mean (status flags, section 3.4.3.1 of the Intel 64 and IA-32
 SDM, Volume 1), and what the unsigned conditional branches decide from them. SF and OF depend on
 how the host shifts by 64 or more, and are left open.
 */
module Compare {
  import opened Bits
  import opened Machine
  import opened Isa

  // Set bits of a byte.
  function Ones(v: nat, bits: nat): nat {
    if bits == 0 then 0 else v % 2 + Ones(v / 2, bits - 1)
  }

  lemma ParityIsOfOnes(r: byte)
    ensures ParityFlag(r) <==> Ones(r, 8) % 2 == 0
  {
    hide Ones;
    EightOnes(r);
    EightParity(r, r / 2, r / 4, r / 8, r / 16, r / 32, r / 64, r / 128);
  }

  lemma EightOnes(r: byte)
    ensures Ones(r, 8) ==
      r % 2 + r / 2 % 2 + r / 4 % 2 + r / 8 % 2 + r / 16 % 2 + r / 32 % 2 + r / 64 % 2 + r / 128 % 2
  {
    FourOnes(r, 4);
    FourOnes(r / 16, 0);
    HalvesOfHalves(r);
  }

  lemma EightParity(a: nat, b: nat, c: nat, d: nat, e: nat, f: nat, g: nat, h: nat)
    ensures (a + b + c + d + e + f + g + h) % 2
      == (a % 2 + b % 2 + c % 2 + d % 2 + e % 2 + f % 2 + g % 2 + h % 2) % 2
  {
    SumParity(a, b, c, d);
    SumParity(e, f, g, h);
    SumParity(a + b + c + d, e + f + g + h, 0, 0);
    SumParity(a % 2 + b % 2 + c % 2 + d % 2, e % 2 + f % 2 + g % 2 + h % 2, 0, 0);
  }

  lemma FourOnes(v: nat, n: nat)
    ensures Ones(v, n + 4) == v % 2 + v / 2 % 2 + v / 4 % 2 + v / 8 % 2 + Ones(v / 16, n)
  {
    assert Ones(v, n + 4) == v % 2 + Ones(v / 2, n + 3);
    assert Ones(v / 2, n + 3) == v / 2 % 2 + Ones(v / 4, n + 2);
    assert Ones(v / 4, n + 2) == v / 4 % 2 + Ones(v / 8, n + 1);
    assert Ones(v / 8, n + 1) == v / 8 % 2 + Ones(v / 16, n);
  }

  lemma HalvesOfHalves(r: byte)
    ensures r / 16 / 2 == r / 32 && r / 16 / 4 == r / 64 && r / 16 / 8 == r / 128
  {
  }

  lemma SumParity(a: nat, b: nat, c: nat, d: nat)
    ensures (a + b + c + d) % 2 == (a % 2 + b % 2 + c % 2 + d % 2) % 2
  {
  }

  // Bit 4 of the difference differs from that of the operands' exclusive or by the borrow.
  lemma BorrowOutOfBit3(lhs: Word, rhs: Word)
    ensures ((lhs - rhs) % B64 / 16 + lhs / 16 + rhs / 16) % 2 == 1 <==> lhs % 16 < rhs % 16
  {
    var res := (lhs - rhs) % B64;
    var l, r := lhs / 16, rhs / 16;
    var borrow := if lhs % 16 < rhs % 16 then 1 else 0;
    var low := lhs % 16 - rhs % 16 + 16 * borrow;
    var wrap := if lhs < rhs then 1 else 0;
    assert res == lhs - rhs + wrap * B64;
    assert res == (l - r - borrow + wrap * 0x1000_0000_0000_0000) * 16 + low;
    DivModUnique(res, 16, l - r - borrow + wrap * 0x1000_0000_0000_0000, low);
    BorrowParity(l, r, borrow, wrap);
  }

  lemma BorrowParity(l: int, r: int, borrow: int, wrap: int)
    ensures (l - r - borrow + wrap * 0x1000_0000_0000_0000 + l + r) % 2 == borrow % 2
  {
    var k := l - borrow + wrap * 0x800_0000_0000_0000;
    assert l - r - borrow + wrap * 0x1000_0000_0000_0000 + l + r == 2 * k + borrow;
  }

  lemma CompareBits(m: Machine, flags: Flags, lhs: Word, rhs: Word, opBytes: int)
    requires opBytes in {1, 2, 4, 8}
    ensures
      var f, res := CompareFlags(m, flags, lhs, rhs, opBytes), (lhs - rhs) % B64;
      && (ZF in f <==> res == 0)
      && (CF in f <==> lhs < rhs)
      && (AF in f <==> (res / 16 + lhs / 16 + rhs / 16) % 2 == 1)
      && (PF in f <==> ParityFlag(res % B8))
      && (DF in f <==> DF in flags)
  {
    hide ParityFlag, PartBound, PartOf;
  }

  lemma CompareMeans(m: Machine, flags: Flags, lhs: Word, rhs: Word, opBytes: int)
    requires opBytes in {1, 2, 4, 8}
    ensures
      var f := CompareFlags(m, flags, lhs, rhs, opBytes);
      && (ZF in f <==> lhs == rhs)
      && (CF in f <==> lhs < rhs)
      && (AF in f <==> lhs % 16 < rhs % 16)
      && (PF in f <==> Ones((lhs - rhs) % 0x100, 8) % 2 == 0)
      && (DF in f <==> DF in flags)
  {
    hide CompareFlags, ParityFlag, Ones;
    CompareBits(m, flags, lhs, rhs, opBytes);
    BorrowOutOfBit3(lhs, rhs);
    DifferenceIs(lhs, rhs);
    ParityIsOfOnes((lhs - rhs) % B64 % B8);
  }

  lemma DifferenceIs(lhs: Word, rhs: Word)
    ensures (lhs - rhs) % B64 == 0 <==> lhs == rhs
    ensures (lhs - rhs) % B64 % B8 == (lhs - rhs) % 0x100
  {
    ModOfMod(lhs - rhs, 0x100_0000_0000_0000, B8);
  }

  // The relation each unsigned branch stands for.
  predicate Relation(c: Cond, lhs: Word, rhs: Word)
    requires c in {JZ, JNZ, JB, JNB, JBE, JNBE}
  {
    match c
    case JZ => lhs == rhs
    case JNZ => lhs != rhs
    case JB => lhs < rhs
    case JNB => lhs >= rhs
    case JBE => lhs <= rhs
    case JNBE => lhs > rhs
  }

  lemma BranchDecides(m: Machine, flags: Flags, lhs: Word, rhs: Word, opBytes: int, c: Cond)
    requires opBytes in {1, 2, 4, 8} && c in {JZ, JNZ, JB, JNB, JBE, JNBE}
    ensures CondHolds(c, CompareFlags(m, flags, lhs, rhs, opBytes)) <==> Relation(c, lhs, rhs)
  {
    hide CompareFlags;
    CompareMeans(m, flags, lhs, rhs, opBytes);
  }

  function Negated(c: Cond): Cond {
    match c
    case JO => JNO
    case JNO => JO
    case JB => JNB
    case JNB => JB
    case JZ => JNZ
    case JNZ => JZ
    case JBE => JNBE
    case JNBE => JBE
    case JS => JNS
    case JNS => JS
    case JP => JNP
    case JNP => JP
    case JL => JNL
    case JNL => JL
    case JLE => JNLE
    case JNLE => JLE
  }

  // Of each pair of opposite branches exactly one is taken, and both look at the same flags.
  lemma OppositeBranches(c: Cond, flags: Flags)
    ensures CondHolds(c, flags) <==> !CondHolds(Negated(c), flags)
    ensures CondFlags(c) == CondFlags(Negated(c))
  {
  }

  // Only the last of several comparisons shows in the flags.
  lemma LastCompareCounts(m: Machine, flags: Flags, l: Word, r: Word, lhs: Word, rhs: Word, opBytes: int)
    requires opBytes in {1, 2, 4, 8}
    ensures CompareFlags(m, CompareFlags(m, flags, l, r, opBytes), lhs, rhs, opBytes)
      == CompareFlags(m, flags, lhs, rhs, opBytes)
  {
    hide ParityFlag, PartBound, PartOf;
    var x := CompareFlags(m, CompareFlags(m, flags, l, r, opBytes), lhs, rhs, opBytes);
    var y := CompareFlags(m, flags, lhs, rhs, opBytes);
    forall f: Flag
      ensures f in x <==> f in y
    {
      match f
      case CF => case PF => case AF => case ZF => case SF => case DF => case OF =>
    }
  }
}
