/** The Blowfish block functions and key expansion (src/crypto/blowfish.c), for arbitrary tables P and S. */
module Blowfish {
  import opened Bits
  import opened Bytes
  import opened NumberTheory

  const P_LEN := 18
  const S_LEN := 1024

  /** The contents of `struct blowfish_ctx`. */
  datatype Box = Box(p: seq<bv32>, s: seq<bv32>)

  predicate Sized(b: Box)
  {
    |b.p| == P_LEN && |b.s| == S_LEN
  }

  datatype Halves = Halves(l: bv32, r: bv32)

  function Octet(x: bv32): (i: nat)
    ensures i < 256
  {
    (x & 0xFF) as bv8 as int
  }

  function F(s: seq<bv32>, x: bv32): bv32
    requires |s| == S_LEN
  {
    Plus(Xor(Plus(s[Octet(x >> 24)], s[Octet(x >> 16) + 256]), s[Octet(x >> 8) + 512]), s[Octet(x) + 768])
  }

  lemma OctetReads(x: bv32)
    ensures Octet(x) == Number(x) % 256
  {
    assert Octet(x) == Number(x & 0xFF);
    hide Number, Octet;
    ShiftRight8(x);
  }

  lemma Sixteen(x: bv32) returns (y: bv32, z: bv32)
    ensures y == x >> 8 && z == x >> 16 && z == y >> 8
  {
    y, z := x >> 8, x >> 16;
  }

  lemma TwentyFour(x: bv32) returns (z: bv32, w: bv32)
    ensures z == x >> 16 && w == x >> 24 && w == z >> 8
  {
    z, w := x >> 16, x >> 24;
  }

  lemma Shifts(x: bv32, y: bv32, z: bv32, w: bv32)
    requires y == x >> 8 && z == y >> 8 && w == z >> 8
    ensures Number(y) == Number(x) / 256 && Number(z) == Number(x) / 0x1_0000 && Number(w) == Number(x) / 0x100_0000
    ensures Number(w) < 256
  {
    hide Number;
    ShiftRight8(x);
    ShiftRight8(y);
    ShiftRight8(z);
  }

  /** The four bytes of a word. */
  lemma Octets(x: bv32) returns (y: bv32, z: bv32, w: bv32)
    ensures y == x >> 8 && z == x >> 16 && w == x >> 24
    ensures Octet(x) == Number(x) % 256 && Octet(y) == Number(x) / 256 % 256
    ensures Octet(z) == Number(x) / 0x1_0000 % 256 && Octet(w) == Number(x) / 0x100_0000
  {
    hide Number, Octet;
    y, z := Sixteen(x);
    z, w := TwentyFour(x);
    Shifts(x, y, z, w);
    OctetReads(x);
    OctetReads(y);
    OctetReads(z);
    OctetReads(w);
  }

  /** F as arithmetic, on the four bytes of its argument from the highest down. */
  lemma FReads(s: seq<bv32>, x: bv32, n: nat)
    requires |s| == S_LEN && n == Number(x)
    ensures Number(F(s, x))
         == (BitXor((Number(s[n / 0x100_0000]) + Number(s[256 + n / 0x1_0000 % 256])) % U32,
                    Number(s[512 + n / 256 % 256])) + Number(s[768 + n % 256])) % U32
  {
    hide Number, Octet, Plus, Xor, BitXor;
    var y, z, w := Octets(x);
    PlusWords(s[Octet(w)], s[Octet(z) + 256]);
    XorWords(Plus(s[Octet(w)], s[Octet(z) + 256]), s[Octet(y) + 512]);
    PlusWords(Xor(Plus(s[Octet(w)], s[Octet(z) + 256]), s[Octet(y) + 512]), s[Octet(x) + 768]);
  }

  // ----- the block functions -----

  /** Two rounds of encode_one, with the entries `i` and `i + 1` of P. */
  function RoundPair(b: Box, h: Halves, i: nat): Halves
    requires Sized(b) && i + 1 < P_LEN
  {
    var l := Xor(h.l, b.p[i]);
    var r := Xor(Xor(h.r, F(b.s, l)), b.p[i + 1]);
    Halves(Xor(l, F(b.s, r)), r)
  }

  function RoundPairs(b: Box, h: Halves, n: nat): Halves
    requires Sized(b) && 2 * n < P_LEN
  {
    if n == 0 then h else RoundPair(b, RoundPairs(b, h, n - 1), 2 * (n - 1))
  }

  /** Two rounds of decode_one, entered with `i`. */
  function UnroundPair(b: Box, h: Halves, i: nat): Halves
    requires Sized(b) && i + 1 < P_LEN
  {
    var l := Xor(h.l, b.p[i + 1]);
    var r := Xor(Xor(h.r, F(b.s, l)), b.p[i]);
    Halves(Xor(l, F(b.s, r)), r)
  }

  function UnroundPairs(b: Box, h: Halves, n: nat): Halves
    requires Sized(b) && 2 * n < P_LEN
  {
    if n == 0 then h else UnroundPair(b, UnroundPairs(b, h, n - 1), P_LEN - 2 * n)
  }

  function Encoded(b: Box, h: Halves): Halves
    requires Sized(b)
  {
    var e := RoundPairs(b, h, |b.p| / 2 - 1);
    Halves(Xor(e.r, b.p[17]), Xor(e.l, b.p[16]))
  }

  function Decoded(b: Box, h: Halves): Halves
    requires Sized(b)
  {
    var e := UnroundPairs(b, h, |b.p| / 2 - 1);
    Halves(Xor(e.r, b.p[0]), Xor(e.l, b.p[1]))
  }

  /** The rounds from `i` on as the cipher is usually drawn: mask one half, mix it into the other, swap. */
  function Feistel(b: Box, l: bv32, r: bv32, i: nat): Halves
    requires Sized(b) && i <= 16
    decreases 16 - i
  {
    if i == 16 then Halves(Xor(r, b.p[17]), Xor(l, b.p[16])) else
      var m := Xor(l, b.p[i]);
      Feistel(b, Xor(r, F(b.s, m)), m, i + 1)
  }

  lemma TwoSwaps(b: Box, h: Halves, i: nat)
    requires Sized(b) && i + 1 < 16
    ensures Feistel(b, h.l, h.r, i) == Feistel(b, RoundPair(b, h, i).l, RoundPair(b, h, i).r, i + 2)
  {
    hide F, Xor;
  }

  lemma {:induction false} PairsAreRounds(b: Box, h: Halves, n: nat)
    requires Sized(b) && n <= 8
    ensures Feistel(b, h.l, h.r, 0) == Feistel(b, RoundPairs(b, h, n).l, RoundPairs(b, h, n).r, 2 * n)
  {
    hide F, Xor, RoundPair, Feistel;
    if n > 0 {
      PairsAreRounds(b, h, n - 1);
      TwoSwaps(b, RoundPairs(b, h, n - 1), 2 * n - 2);
    }
  }

  /** encode_one, two rounds at a time and without swapping, is the usual network of sixteen rounds. */
  lemma EncodedIsFeistel(b: Box, h: Halves)
    requires Sized(b)
    ensures Encoded(b, h) == Feistel(b, h.l, h.r, 0)
  {
    hide F, Xor, RoundPair;
    PairsAreRounds(b, h, 8);
  }

  lemma XorTwice(x: bv32, y: bv32)
    ensures Xor(Xor(x, y), y) == x
  {
  }

  lemma XorSwap(x: bv32, y: bv32, z: bv32)
    ensures Xor(Xor(x, y), z) == Xor(Xor(x, z), y)
  {
  }

  lemma RetraceStep(b: Box, e: Halves, i: nat)
    requires Sized(b) && i + 3 < P_LEN
    ensures var d := RoundPair(b, e, i); UnroundPair(b, Halves(Xor(d.r, b.p[i + 3]), Xor(d.l, b.p[i + 2])), i + 2) == Halves(Xor(e.r, b.p[i + 1]), Xor(e.l, b.p[i]))
  {
    hide F, Xor;
    var d := RoundPair(b, e, i);
    var l := Xor(e.l, b.p[i]);
    XorTwice(d.r, b.p[i + 3]);
    XorSwap(l, F(b.s, d.r), b.p[i + 2]);
    XorTwice(Xor(l, b.p[i + 2]), F(b.s, d.r));
    XorTwice(l, b.p[i + 2]);
    XorSwap(e.r, F(b.s, l), b.p[i + 1]);
    XorTwice(Xor(e.r, b.p[i + 1]), F(b.s, l));
  }

  /** After `n` pairs of decoding rounds the halves are those of encoding after 8 - n pairs, swapped and masked with
      the entries of P that come next. */
  lemma {:induction false} DecodingRetraces(b: Box, h: Halves, n: nat)
    requires Sized(b) && n <= 8
    ensures var e := RoundPairs(b, h, 8 - n); UnroundPairs(b, Encoded(b, h), n) == Halves(Xor(e.r, b.p[17 - 2 * n]), Xor(e.l, b.p[16 - 2 * n]))
  {
    hide RoundPair, UnroundPair, Xor;
    if n > 0 {
      DecodingRetraces(b, h, n - 1);
      RetraceStep(b, RoundPairs(b, h, 8 - n), 16 - 2 * n);
    }
  }

  /** decode_one undoes encode_one, whatever the tables hold. */
  lemma DecodedEncoded(b: Box, h: Halves)
    requires Sized(b)
    ensures Decoded(b, Encoded(b, h)) == h
  {
    hide RoundPair, UnroundPair, Xor;
    DecodingRetraces(b, h, |b.p| / 2 - 1);
    XorTwice(h.l, b.p[0]);
    XorTwice(h.r, b.p[1]);
  }

  // ----- decoding is encoding with P backwards -----

  function Backwards(b: Box): (c: Box)
    requires Sized(b)
    ensures Sized(c)
  {
    Box(seq(P_LEN, i requires 0 <= i < P_LEN => b.p[P_LEN - 1 - i]), b.s)
  }

  lemma {:induction false} UnroundsAreBackwards(b: Box, h: Halves, n: nat)
    requires Sized(b) && n <= 8
    ensures UnroundPairs(b, h, n) == RoundPairs(Backwards(b), h, n)
  {
    hide F, Xor;
    if n > 0 {
      UnroundsAreBackwards(b, h, n - 1);
    }
  }

  lemma DecodingIsBackwards(b: Box, h: Halves)
    requires Sized(b)
    ensures Decoded(b, h) == Encoded(Backwards(b), h)
  {
    hide RoundPair, UnroundPair, Xor;
    UnroundsAreBackwards(b, h, |b.p| / 2 - 1);
  }

  /** encode_one undoes decode_one: both are permutations of the blocks. */
  lemma EncodedDecoded(b: Box, h: Halves)
    requires Sized(b)
    ensures Encoded(b, Decoded(b, h)) == h
  {
    var c := Backwards(b);
    assert Backwards(c).p == b.p;
    DecodingIsBackwards(b, h);
    DecodingIsBackwards(c, Encoded(c, h));
    DecodedEncoded(c, h);
  }

  // ----- the cyclic reader -----

  /** The big-endian word that starts at position `j` of the endlessly repeated bytes. */
  function CyclicWord(data: seq<byte>, j: nat): bv32
    requires |data| > 0
  {
    CyclicBits(data, j, 4)
  }

  /** (d << 8) | c */
  function Shifted(d: bv32, c: byte): bv32
  {
    (d << 8) | (c as bv32)
  }

  function CyclicBits(data: seq<byte>, j: nat, n: nat): bv32
    requires |data| > 0
  {
    if n == 0 then 0 else Shifted(CyclicBits(data, j, n - 1), CyclicByte(data, j + n - 1))
  }

  function CyclicByte(data: seq<byte>, k: nat): byte
    requires |data| > 0
  {
    data[k % |data|]
  }

  lemma ShiftedReads(d: bv32, c: byte)
    requires Number(d) < 0x100_0000
    ensures Number(Shifted(d, c)) == 256 * Number(d) + c as nat
  {
    hide Number;
    Below24(d);
    ByteWord(c);
    Joined8(d, c as bv32);
  }

  lemma ByteWord(c: byte)
    ensures c as bv32 < 256 && (c as bv32) & 0xFF == c as bv32
    ensures Number(c as bv32) == c as nat
  {
    WordOf(c as nat);
  }

  lemma Below24(d: bv32)
    requires Number(d) < 0x100_0000
    ensures d < 0x100_0000
  {
  }

  lemma {:induction false} CyclicBitsRead(data: seq<byte>, j: nat, n: nat)
    requires |data| > 0 && 0 < n <= 4
    ensures Number(CyclicBits(data, j, n)) < Pow(256, n)
    ensures Number(CyclicBits(data, j, n))
         == 256 * (if n == 1 then 0 else Number(CyclicBits(data, j, n - 1))) + CyclicByte(data, j + n - 1) as nat
  {
    hide Shifted, Number, CyclicByte;
    ByteWord(0);
    assert Pow(256, 1) == 256 && Pow(256, 2) == 0x1_0000;
    assert Pow(256, 3) == 0x100_0000 && Pow(256, 4) == 0x1_0000_0000;
    if n > 1 {
      CyclicBitsRead(data, j, n - 1);
    }
    ShiftedReads(CyclicBits(data, j, n - 1), CyclicByte(data, j + n - 1));
  }

  /** The word read at `j` is the number of four bytes, the first one highest, taken around the end of the data. */
  lemma CyclicWordReads(data: seq<byte>, j: nat)
    requires |data| > 0
    ensures Number(CyclicWord(data, j))
         == 0x100_0000 * data[j % |data|] as nat + 0x1_0000 * data[(j + 1) % |data|] as nat
            + 0x100 * data[(j + 2) % |data|] as nat + data[(j + 3) % |data|] as nat
  {
    hide Shifted, Number;
    CyclicBitsRead(data, j, 1);
    CyclicBitsRead(data, j, 2);
    CyclicBitsRead(data, j, 3);
    CyclicBitsRead(data, j, 4);
  }

  /** Reading depends on the repeated bytes only: writing the key down twice changes nothing. */
  lemma {:induction false} RepeatedBytes(data: seq<byte>, j: nat, n: nat)
    requires |data| > 0
    ensures CyclicBits(data + data, j, n) == CyclicBits(data, j, n)
  {
    hide Shifted, CyclicByte;
    if n > 0 {
      RepeatedBytes(data, j, n - 1);
      RepeatedByte(data, j + n - 1);
    }
  }

  lemma RepeatedByte(data: seq<byte>, k: nat)
    requires |data| > 0
    ensures CyclicByte(data + data, k) == CyclicByte(data, k)
  {
    RemainderOfDouble(k, |data|);
  }

  lemma RemainderOfDouble(k: nat, m: nat)
    requires m > 0
    ensures k % (2 * m) == k % m || k % (2 * m) == k % m + m
  {
    var q, r := k / (2 * m), k % (2 * m);
    assert k == q * (2 * m) + r;
    if r < m {
      DivModUnique(k, m, 2 * q, r);
    } else {
      DivModUnique(k, m, 2 * q + 1, r - m);
    }
  }

  /** cyclic_buffer_get_u32, from the position `current`, which it moves on. */
  method CyclicRead(data: seq<byte>, current: nat) returns (d: bv32, next: nat)
    requires current < |data|
    ensures d == CyclicWord(data, current) && next == (current + 4) % |data|
  {
    hide Shifted;
    d, next := 0, current;
    for i := 0 to 4
      invariant d == CyclicBits(data, current, i) && next == (current + i) % |data| < |data|
    {
      d := Shifted(d, data[next]);
      next := next + 1;
      if next >= |data| {
        next := 0;
      }
      StepRemainder(current + i, |data|);
    }
  }

  lemma StepRemainder(k: nat, m: nat)
    requires m > 0
    ensures (k + 1) % m == if k % m + 1 >= m then 0 else k % m + 1
  {
    assert k == (k / m) * m + k % m;
    if k % m + 1 >= m {
      assert (k / m + 1) * m == (k / m) * m + m;
      DivModUnique(k + 1, m, k / m + 1, 0);
    } else {
      DivModUnique(k + 1, m, k / m, k % m + 1);
    }
  }
}
