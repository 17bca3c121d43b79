/** Bitwise operators on natural numbers. */
module Bits {
  import opened NumberTheory

  /** x & y */
  function BitAnd(x: nat, y: nat): (r: nat)
  {
    if x == 0 || y == 0 then 0 else 2 * BitAnd(x / 2, y / 2) + if x % 2 == 1 && y % 2 == 1 then 1 else 0
  }

  /** x ^ y */
  function BitXor(x: nat, y: nat): (r: nat)
  {
    if x == 0 && y == 0 then 0 else 2 * BitXor(x / 2, y / 2) + if x % 2 != y % 2 then 1 else 0
  }

  lemma {:induction false} AndSelf(x: nat)
    ensures BitAnd(x, x) == x
  {
    if x > 0 {
      AndSelf(x / 2);
    }
  }

  lemma {:induction false} XorZero(x: nat, y: nat)
    ensures BitXor(x, y) == 0 <==> x == y
  {
    if x != 0 || y != 0 {
      XorZero(x / 2, y / 2);
    }
  }

  lemma Powers()
    ensures Pow(2, 7) == 128 && Pow(2, 8) == 256
  {
    assert Pow(2, 4) == 16;
    PowAdd(2, 4, 4);
    PowAdd(2, 4, 3);
  }

  lemma XorByte(x: nat, y: nat)
    requires x < 256 && y < 256
    ensures BitXor(x, y) < 256 && (x < 128 && y < 128 ==> BitXor(x, y) < 128)
  {
    Powers();
    XorBelow(x, y, 8);
    if x < 128 && y < 128 {
      XorBelow(x, y, 7);
    }
  }

  lemma {:induction false} XorBelow(x: nat, y: nat, n: nat)
    requires x < Pow(2, n) && y < Pow(2, n)
    ensures BitXor(x, y) < Pow(2, n)
    decreases n
  {
    if n > 0 {
      XorBelow(x / 2, y / 2, n - 1);
    }
  }

  lemma {:induction false} XorComplement(x: nat, n: nat)
    requires x < Pow(2, n)
    ensures BitXor(x, Pow(2, n) - 1 - x) == Pow(2, n) - 1
    decreases n
  {
    if n > 0 {
      assert (Pow(2, n) - 1 - x) / 2 == Pow(2, n - 1) - 1 - x / 2;
      XorComplement(x / 2, n - 1);
    }
  }

  // ----- machine words -----

  /** A machine word as a number. */
  function Number(x: bv32): (n: nat)
    ensures n < 0x1_0000_0000
  {
    x as nat
  }

  function Plus(x: bv32, y: bv32): bv32
  {
    x + y
  }

  function Xor(x: bv32, y: bv32): bv32
  {
    x ^ y
  }

  /** A machine word counted bit by bit. */
  function ByBits(x: bv32): (n: nat)
    decreases x
  {
    if x == 0 then 0 else
      Smaller(x);
      2 * ByBits(x >> 1) + if x & 1 == 1 then 1 else 0
  }

  lemma Smaller(x: bv32)
    requires x != 0
    ensures x >> 1 < x
  {
  }

  function Joined(h: bv32, l: bv32): bv32
  {
    (h << 1) | (l & 1)
  }

  lemma JoinedNumber(h: bv32, l: bv32)
    requires h < 0x8000_0000 && l < 2
    ensures Number(Joined(h, l)) == 2 * Number(h) + Number(l) && Number(l) == if l == 1 then 1 else 0
  {
  }

  lemma SplitBits(x: bv32)
    ensures x == Joined(x >> 1, x & 1) && x >> 1 < 0x8000_0000 && x & 1 < 2 && Number(0) == 0
  {
  }

  lemma ByBitsStep(x: bv32)
    ensures ByBits(x) == if x == 0 then 0 else 2 * ByBits(x >> 1) + if x & 1 == 1 then 1 else 0
  {
  }

  /** The two agree. */
  function Counted(x: bv32): (n: nat)
    ensures n == ByBits(x) == Number(x)
    decreases x
  {
    hide Number, Joined, ByBits;
    SplitBits(x);
    ByBitsStep(x);
    if x == 0 then 0 else
      Smaller(x);
      JoinedNumber(x >> 1, x & 1);
      2 * Counted(x >> 1) + Number(x & 1)
  }

  lemma HalfBits(x: bv32)
    ensures ByBits(x >> 1) == ByBits(x) / 2 && (x & 1 == 1 <==> ByBits(x) % 2 == 1)
    ensures x == 0 ==> ByBits(x) == 0
  {
  }

  lemma {:induction false} PositiveBits(x: bv32)
    requires x != 0
    ensures ByBits(x) > 0
    decreases x
  {
    Smaller(x);
    OneIfHalfless(x);
    if x >> 1 != 0 {
      PositiveBits(x >> 1);
    }
  }

  lemma OneIfHalfless(x: bv32)
    requires x != 0
    ensures x >> 1 != 0 || x & 1 == 1
  {
  }

  lemma XorHalves(x: bv32, y: bv32, z: bv32)
    requires z == x ^ y
    ensures z >> 1 == (x >> 1) ^ (y >> 1) && (z & 1 == 1 <==> ((x & 1 == 1) != (y & 1 == 1)))
  {
  }

  lemma XorIs(x: bv32, y: bv32)
    ensures Xor(x, y) == x ^ y
  {
  }

  lemma XorZeros(x: bv32, y: bv32)
    requires x == 0 && y == 0
    ensures ByBits(Xor(x, y)) == 0 && ByBits(x) == 0 && ByBits(y) == 0
  {
  }

  lemma {:induction false} XorByBits(x: bv32, y: bv32)
    ensures ByBits(Xor(x, y)) == BitXor(ByBits(x), ByBits(y))
    decreases ByBits(x) + ByBits(y)
  {
    hide ByBits, Xor;
    if x == 0 && y == 0 {
      XorZeros(x, y);
    } else {
      HalfBits(x);
      HalfBits(y);
      HalfBits(Xor(x, y));
      XorIs(x, y);
      XorIs(x >> 1, y >> 1);
      XorHalves(x, y, Xor(x, y));
      PositiveBits(if x != 0 then x else y);
      XorByBits(x >> 1, y >> 1);
    }
  }

  /** The exclusive or of machine words, as numbers. */
  lemma XorWords(x: bv32, y: bv32)
    ensures Number(Xor(x, y)) == BitXor(Number(x), Number(y))
  {
    hide Number, ByBits, BitXor, Xor;
    XorByBits(x, y);
    assert Counted(x) == Number(x) && Counted(y) == Number(y) && Counted(Xor(x, y)) == Number(Xor(x, y));
  }

  lemma Joined28(h: bv32, l: bv32)
    requires h < 16 && l < 0x1000_0000
    ensures Number((h << 28) | (l & 0x0FFF_FFFF)) == 0x1000_0000 * Number(h) + Number(l) && Number(l) < 0x1000_0000
    ensures Number(l << 4) == 16 * Number(l)
  {
  }

  lemma Split28(x: bv32) returns (h: bv32, l: bv32)
    ensures x == (h << 28) | (l & 0x0FFF_FFFF) && x << 4 == l << 4 && h < 16 && l < 0x1000_0000
  {
    h, l := x >> 28, x & 0x0FFF_FFFF;
  }

  lemma Times16(n: nat, h: nat, l: nat)
    requires n == 0x1000_0000 * h + l && l < 0x1000_0000
    ensures n * 16 % 0x1_0000_0000 == 16 * l
  {
  }

  lemma ShiftLeft4(x: bv32)
    ensures Number(x << 4) == Number(x) * 16 % 0x1_0000_0000
  {
    hide Number;
    var h, l := Split28(x);
    Joined28(h, l);
    Times16(Number(x), Number(h), Number(l));
  }

  lemma Joined5(h: bv32, l: bv32)
    requires h < 0x800_0000 && l < 32
    ensures Number((h << 5) | (l & 31)) == 32 * Number(h) + Number(l) && Number(l) < 32
  {
  }

  lemma Split5(x: bv32)
    ensures x == ((x >> 5) << 5) | ((x & 31) & 31) && x >> 5 < 0x800_0000 && x & 31 < 32
  {
  }

  lemma Over32(n: nat, h: nat, l: nat)
    requires n == 32 * h + l && l < 32
    ensures h == n / 32
  {
  }

  lemma ShiftRight5(x: bv32)
    ensures Number(x >> 5) == Number(x) / 32
  {
    hide Number;
    Split5(x);
    Joined5(x >> 5, x & 31);
    Over32(Number(x), Number(x >> 5), Number(x & 31));
  }

  lemma NextBits(x: bv32)
    requires x + 1 != 0
    ensures (x + 1) >> 1 == (if x & 1 == 1 then (x >> 1) + 1 else x >> 1) && ((x + 1) & 1 == 1 <==> x & 1 != 1)
    ensures x & 1 == 1 ==> (x + 1) >> 1 != 0
  {
  }

  lemma {:induction false} NextByBits(x: bv32, y: bv32)
    requires y == x + 1 && y != 0
    ensures ByBits(y) == ByBits(x) + 1
    decreases ByBits(x)
  {
    hide ByBits;
    NextBits(x);
    HalfBits(x);
    HalfBits(y);
    if x & 1 == 1 {
      NextByBits(x >> 1, y >> 1);
    }
  }

  lemma Greatest(x: bv32, y: bv32)
    requires y == x + 1 && y == 0
    ensures Number(x) == 0xFFFF_FFFF && Number(y) == 0
  {
  }

  lemma Following(x: bv32, y: bv32)
    requires y == x + 1
    ensures ByBits(y) == (ByBits(x) + 1) % 0x1_0000_0000
  {
    hide Number, ByBits;
    if y == 0 {
      Greatest(x, y);
    } else {
      NextByBits(x, y);
    }
    assert Counted(x) == Number(x) && Counted(y) == Number(y);
  }

  lemma PlusZero(x: bv32)
    ensures ByBits(Plus(x, 0)) == ByBits(x) && ByBits(0) == 0
  {
  }

  lemma PlusNext(x: bv32, p: bv32)
    ensures ByBits(Plus(x, p + 1)) == (ByBits(Plus(x, p)) + 1) % 0x1_0000_0000
  {
    hide ByBits;
    Following(x + p, x + (p + 1));
  }

  lemma Before(y: bv32) returns (p: bv32)
    requires y != 0
    ensures y == p + 1
  {
    p := y - 1;
  }

  lemma {:induction false} PlusByBits(x: bv32, y: bv32)
    ensures ByBits(Plus(x, y)) == (ByBits(x) + ByBits(y)) % 0x1_0000_0000
    decreases ByBits(y)
  {
    hide ByBits, Plus, Number;
    assert Counted(x) == Number(x);
    if y == 0 {
      PlusZero(x);
    } else {
      var p := Before(y);
      NextByBits(p, y);
      PlusNext(x, p);
      PlusByBits(x, p);
    }
  }

  /** The wrapped sum of machine words, as numbers. */
  lemma PlusWords(x: bv32, y: bv32)
    ensures Number(Plus(x, y)) == (Number(x) + Number(y)) % 0x1_0000_0000
  {
    hide Number, ByBits, Plus;
    PlusByBits(x, y);
    assert Counted(x) == Number(x) && Counted(y) == Number(y) && Counted(Plus(x, y)) == Number(Plus(x, y));
  }

  lemma JoinedHalves(h: nat, l: nat)
    requires h < 0x1_0000 && l < 0x1_0000
    ensures ((0x1_0000 * h + l) as bv32) as int == 0x1_0000 * h + l
  {
  }

  /** A number below 2^32 as a machine word. */
  lemma WordOf(n: nat)
    requires n < 0x1_0000_0000
    ensures Number(n as bv32) == n
  {
    assert n == 0x1_0000 * (n / 0x1_0000) + n % 0x1_0000;
    JoinedHalves(n / 0x1_0000, n % 0x1_0000);
  }

  lemma Joined11(h: bv32, l: bv32)
    requires h < 0x20_0000 && l < 2048
    ensures Number((h << 11) | (l & 2047)) == 2048 * Number(h) + Number(l) && Number(l) < 2048
  {
  }

  lemma Split11(x: bv32)
    ensures x == ((x >> 11) << 11) | ((x & 2047) & 2047) && x >> 11 < 0x20_0000 && x & 2047 < 2048
  {
  }

  lemma Over2048(n: nat, h: nat, l: nat)
    requires n == 2048 * h + l && l < 2048
    ensures h == n / 2048
  {
  }

  lemma ShiftRight11(x: bv32)
    ensures Number(x >> 11) == Number(x) / 2048
  {
    hide Number;
    Split11(x);
    Joined11(x >> 11, x & 2047);
    Over2048(Number(x), Number(x >> 11), Number(x & 2047));
  }

  lemma Joined2(h: bv32, l: bv32)
    requires h < 0x4000_0000 && l < 4
    ensures Number((h << 2) | (l & 3)) == 4 * Number(h) + Number(l) && Number(l) < 4
  {
  }

  lemma Split2(x: bv32)
    ensures x == ((x >> 2) << 2) | ((x & 3) & 3) && x >> 2 < 0x4000_0000 && x & 3 < 4
  {
  }

  lemma Rest4(n: nat, h: nat, l: nat)
    requires n == 4 * h + l && l < 4
    ensures l == n % 4
  {
  }

  lemma LowTwo(x: bv32)
    ensures Number(x & 3) == Number(x) % 4
  {
    hide Number;
    Split2(x);
    Joined2(x >> 2, x & 3);
    Rest4(Number(x), Number(x >> 2), Number(x & 3));
  }

  lemma Joined8(h: bv32, l: bv32)
    requires h < 0x100_0000 && l < 256
    ensures Number((h << 8) | (l & 0xFF)) == 256 * Number(h) + Number(l) && Number(l) < 256
  {
  }

  lemma Split8(x: bv32)
    ensures x == ((x >> 8) << 8) | ((x & 0xFF) & 0xFF) && x >> 8 < 0x100_0000 && x & 0xFF < 256
  {
  }

  lemma Over256(n: nat, h: nat, l: nat)
    requires n == 256 * h + l && l < 256
    ensures h == n / 256 && l == n % 256
  {
  }

  lemma ShiftRight8(x: bv32)
    ensures Number(x >> 8) == Number(x) / 256 && Number(x & 0xFF) == Number(x) % 256
  {
    hide Number;
    Split8(x);
    Joined8(x >> 8, x & 0xFF);
    Over256(Number(x), Number(x >> 8), Number(x & 0xFF));
  }
}
