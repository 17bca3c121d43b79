/** Values of the XTEA cipher, computed on machine words. */
module XteaVectors {
  import opened Bits
  import opened Bytes
  import opened Xtea

  type Pair = (bv32, bv32)

  datatype KeyBits = KeyBits(k0: bv32, k1: bv32, k2: bv32, k3: bv32)

  function Whole(x: bv32): word
  {
    x as word
  }

  function Words(p: Pair): Block
  {
    Block(Whole(p.0), Whole(p.1))
  }

  function KeyWords(k: KeyBits): Key
  {
    [Whole(k.k0), Whole(k.k1), Whole(k.k2), Whole(k.k3)]
  }

  function Pick(k: KeyBits, i: bv32): bv32
  {
    if i == 0 then k.k0 else if i == 1 then k.k1 else if i == 2 then k.k2 else k.k3
  }

  function Half(v: bv32, w: bv32, sum: bv32, key: bv32): bv32
  {
    Plus(v, MixBits(w, sum, key))
  }

  function RoundBits(k: KeyBits, p: Pair, sum: bv32, next: bv32): Pair
  {
    var a := Half(p.0, p.1, sum, Pick(k, sum & 3));
    (a, Half(p.1, a, next, Pick(k, (next >> 11) & 3)))
  }

  /** `n` rounds on machine words. */
  function Walk(k: KeyBits, p: Pair, sum: bv32, n: nat): Pair
    decreases n
  {
    if n == 0 then p else Walk(k, RoundBits(k, p, sum, Plus(sum, 0x9E37_79B9)), Plus(sum, 0x9E37_79B9), n - 1)
  }

  lemma There(x: bv32)
    ensures Whole(x) as bv32 == x && Whole(x) as nat == Number(x)
  {
  }

  lemma MixWord(v: bv32, sum: bv32, key: bv32)
    ensures Mix(Whole(v), Whole(sum), Whole(key)) == Whole(MixBits(v, sum, key))
  {
    hide MixBits;
    There(v);
    There(sum);
    There(key);
  }

  lemma PlusWord(x: bv32, y: bv32)
    ensures Add(Whole(x), Whole(y)) == Whole(Plus(x, y))
  {
    hide Number, Plus, Whole;
    There(x);
    There(y);
    There(Plus(x, y));
    PlusWords(x, y);
  }

  lemma HalfRound(v: bv32, w: bv32, sum: bv32, key: bv32)
    ensures Add(Whole(v), Mix(Whole(w), Whole(sum), Whole(key))) == Whole(Half(v, w, sum, key))
  {
    hide Mix, MixBits, Plus, Add, Whole;
    MixWord(w, sum, key);
    PlusWord(v, MixBits(w, sum, key));
  }

  lemma Digits(i: bv32)
    ensures Number(i) == 0 ==> i == 0
    ensures Number(i) == 1 ==> i == 1
    ensures Number(i) == 2 ==> i == 2
    ensures Number(i) == 3 ==> i == 3
    ensures Number(0) == 0 && Number(1) == 1 && Number(2) == 2 && Number(3) == 3
  {
  }

  lemma Picked(k: KeyBits, i: bv32)
    requires Number(i) < 4
    ensures KeyWords(k)[Number(i)] == Whole(Pick(k, i))
  {
    hide Number, Whole;
    Digits(i);
  }

  lemma Keys(k: KeyBits, sum: bv32)
    ensures EvenKey(KeyWords(k), Whole(sum)) == Whole(Pick(k, sum & 3))
    ensures OddKey(KeyWords(k), Whole(sum)) == Whole(Pick(k, (sum >> 11) & 3))
  {
    hide Number, Whole, Pick, KeyWords;
    There(sum);
    LowTwo(sum);
    ShiftRight11(sum);
    LowTwo(sum >> 11);
    Picked(k, sum & 3);
    Picked(k, (sum >> 11) & 3);
  }

  lemma OneRound(k: KeyBits, p: Pair, sum: bv32, next: bv32)
    requires Whole(next) == Add(Whole(sum), DELTA)
    ensures Round(KeyWords(k), Words(p), Whole(sum)) == Words(RoundBits(k, p, sum, next))
  {
    hide Mix, Half, Whole, Add, EvenKey, OddKey, Pick, KeyWords;
    Keys(k, sum);
    Keys(k, next);
    HalfRound(p.0, p.1, sum, Pick(k, sum & 3));
    HalfRound(p.1, RoundBits(k, p, sum, next).0, next, Pick(k, (next >> 11) & 3));
  }

  lemma Delta()
    ensures Whole(0x9E37_79B9) == DELTA && Whole(0) == SumAt(0)
  {
  }

  /** `n` rounds on machine words are `n` rounds of the cipher. */
  lemma {:induction false} WalkRounds(k: KeyBits, b: Block, p: Pair, sum: bv32, i: nat, n: nat)
    requires Words(p) == Rounds(KeyWords(k), b, i) && Whole(sum) == SumAt(i)
    ensures Words(Walk(k, p, sum, n)) == Rounds(KeyWords(k), b, i + n)
    decreases n
  {
    hide Round, RoundBits, SumAt, Words, Whole, Plus, KeyWords, Add;
    if n > 0 {
      var next := Plus(sum, 0x9E37_79B9);
      Delta();
      PlusWord(sum, 0x9E37_79B9);
      SumStep(i);
      OneRound(k, p, sum, next);
      WalkRounds(k, b, RoundBits(k, p, sum, next), next, i + 1, n - 1);
    }
  }

  lemma Sums()
    ensures Whole(0) == SumAt(0) && Whole(0xF1BB_CDC8) == SumAt(8)
    ensures Whole(0xE377_9B90) == SumAt(16) && Whole(0xD533_6958) == SumAt(24)
  {
  }

  lemma NoRounds(k: Key, b: Block)
    ensures Rounds(k, b, 0) == b
  {
  }

  lemma Counting0()
    ensures Walk(KeyBits(0x0001_0203, 0x0405_0607, 0x0809_0A0B, 0x0C0D_0E0F),
                 (0x4142_4344, 0x4546_4748), 0, 8) == (0x8F65_016F, 0xCE36_8FE5)
  {
  }

  lemma Counting1()
    ensures Walk(KeyBits(0x0001_0203, 0x0405_0607, 0x0809_0A0B, 0x0C0D_0E0F),
                 (0x8F65_016F, 0xCE36_8FE5), 0xF1BB_CDC8, 8) == (0xDEA0_B0B4, 0x0966_B066)
  {
  }

  lemma Counting2()
    ensures Walk(KeyBits(0x0001_0203, 0x0405_0607, 0x0809_0A0B, 0x0C0D_0E0F),
                 (0xDEA0_B0B4, 0x0966_B066), 0xE377_9B90, 8) == (0xC1CD_CCFE, 0x6F59_3666)
  {
  }

  lemma Counting3()
    ensures Walk(KeyBits(0x0001_0203, 0x0405_0607, 0x0809_0A0B, 0x0C0D_0E0F),
                 (0xC1CD_CCFE, 0x6F59_3666), 0xD533_6958, 8) == (0x497D_F3D0, 0x7261_2CB5)
  {
  }

  lemma CountingRounds(n: nat)
    requires n == ROUNDS
    ensures Rounds(KeyWords(KeyBits(0x0001_0203, 0x0405_0607, 0x0809_0A0B, 0x0C0D_0E0F)),
                   Words((0x4142_4344, 0x4546_4748)), n) == Words((0x497D_F3D0, 0x7261_2CB5))
  {
    Sums();
    hide Walk, Rounds, Words, Whole, SumAt;
    var k := KeyBits(0x0001_0203, 0x0405_0607, 0x0809_0A0B, 0x0C0D_0E0F);
    var b := Words((0x4142_4344, 0x4546_4748));
    NoRounds(KeyWords(k), b);
    Counting0(); WalkRounds(k, b, (0x4142_4344, 0x4546_4748), 0, 0, 8);
    Counting1(); WalkRounds(k, b, (0x8F65_016F, 0xCE36_8FE5), 0xF1BB_CDC8, 8, 8);
    Counting2(); WalkRounds(k, b, (0xDEA0_B0B4, 0x0966_B066), 0xE377_9B90, 16, 8);
    Counting3(); WalkRounds(k, b, (0xC1CD_CCFE, 0x6F59_3666), 0xD533_6958, 24, 8);
  }

  /** The published vector for the key of the bytes 0 to 15 and the text ABCDEFGH, the words little-endian. */
  lemma CountingBuffer(n: nat)
    requires n == 32
    ensures Encoded([0x0001_0203, 0x0405_0607, 0x0809_0A0B, 0x0C0D_0E0F], n,
                    [0x44, 0x43, 0x42, 0x41, 0x48, 0x47, 0x46, 0x45])
         == [0xD0, 0xF3, 0x7D, 0x49, 0xB5, 0x2C, 0x61, 0x72]
  {
    hide Rounds;
    var k: Key := [0x0001_0203, 0x0405_0607, 0x0809_0A0B, 0x0C0D_0E0F];
    var s: seq<byte> := [0x44, 0x43, 0x42, 0x41, 0x48, 0x47, 0x46, 0x45];
    CountingRounds(n);
    CountingBytes();
    assert s[..8] == s && s[8..] == [];
  }

  lemma CountingBytes()
    ensures ToBlock([0x44, 0x43, 0x42, 0x41, 0x48, 0x47, 0x46, 0x45]) == Block(0x4142_4344, 0x4546_4748)
    ensures FromBlock(Block(0x497D_F3D0, 0x7261_2CB5)) == [0xD0, 0xF3, 0x7D, 0x49, 0xB5, 0x2C, 0x61, 0x72]
  {
  }

  lemma NoZeroth0()
    ensures Walk(KeyBits(0, 0x0405_0607, 0x0809_0A0B, 0x0C0D_0E0F),
                 (0x4142_4344, 0x4546_4748), 0, 8) == (0xC35A_FE11, 0x5CC6_2617)
  {
  }

  lemma NoZeroth1()
    ensures Walk(KeyBits(0, 0x0405_0607, 0x0809_0A0B, 0x0C0D_0E0F),
                 (0xC35A_FE11, 0x5CC6_2617), 0xF1BB_CDC8, 8) == (0x94B2_B375, 0x6CC8_9B66)
  {
  }

  lemma NoZeroth2()
    ensures Walk(KeyBits(0, 0x0405_0607, 0x0809_0A0B, 0x0C0D_0E0F),
                 (0x94B2_B375, 0x6CC8_9B66), 0xE377_9B90, 8) == (0x23D7_A396, 0xF30A_2DA9)
  {
  }

  lemma NoZeroth3()
    ensures Walk(KeyBits(0, 0x0405_0607, 0x0809_0A0B, 0x0C0D_0E0F),
                 (0x23D7_A396, 0xF30A_2DA9), 0xD533_6958, 8) == (0x39F8_F2CA, 0x172D_C891)
  {
  }

  lemma NoFirst0()
    ensures Walk(KeyBits(0x0001_0203, 0, 0x0809_0A0B, 0x0C0D_0E0F),
                 (0x4142_4344, 0x4546_4748), 0, 8) == (0x88B1_1FCC, 0xD3E1_F696)
  {
  }

  lemma NoFirst1()
    ensures Walk(KeyBits(0x0001_0203, 0, 0x0809_0A0B, 0x0C0D_0E0F),
                 (0x88B1_1FCC, 0xD3E1_F696), 0xF1BB_CDC8, 8) == (0x4CDD_4FFD, 0xD656_AF07)
  {
  }

  lemma NoFirst2()
    ensures Walk(KeyBits(0x0001_0203, 0, 0x0809_0A0B, 0x0C0D_0E0F),
                 (0x4CDD_4FFD, 0xD656_AF07), 0xE377_9B90, 8) == (0xCCB5_9DA3, 0xF500_EE2A)
  {
  }

  lemma NoFirst3()
    ensures Walk(KeyBits(0x0001_0203, 0, 0x0809_0A0B, 0x0C0D_0E0F),
                 (0xCCB5_9DA3, 0xF500_EE2A), 0xD533_6958, 8) == (0xC99A_977B, 0xFBB0_B561)
  {
  }

  lemma NoSecond0()
    ensures Walk(KeyBits(0x0001_0203, 0x0405_0607, 0, 0x0C0D_0E0F),
                 (0x4142_4344, 0x4546_4748), 0, 8) == (0x461F_C183, 0x315B_EDDB)
  {
  }

  lemma NoSecond1()
    ensures Walk(KeyBits(0x0001_0203, 0x0405_0607, 0, 0x0C0D_0E0F),
                 (0x461F_C183, 0x315B_EDDB), 0xF1BB_CDC8, 8) == (0xEE8F_CB6E, 0x8244_6A39)
  {
  }

  lemma NoSecond2()
    ensures Walk(KeyBits(0x0001_0203, 0x0405_0607, 0, 0x0C0D_0E0F),
                 (0xEE8F_CB6E, 0x8244_6A39), 0xE377_9B90, 8) == (0xFD47_059C, 0xF3C0_4FF4)
  {
  }

  lemma NoSecond3()
    ensures Walk(KeyBits(0x0001_0203, 0x0405_0607, 0, 0x0C0D_0E0F),
                 (0xFD47_059C, 0xF3C0_4FF4), 0xD533_6958, 8) == (0x8BCC_1444, 0x4CF0_12F8)
  {
  }

  lemma NoThird0()
    ensures Walk(KeyBits(0x0001_0203, 0x0405_0607, 0x0809_0A0B, 0),
                 (0x4142_4344, 0x4546_4748), 0, 8) == (0x1540_4097, 0x1270_F16B)
  {
  }

  lemma NoThird1()
    ensures Walk(KeyBits(0x0001_0203, 0x0405_0607, 0x0809_0A0B, 0),
                 (0x1540_4097, 0x1270_F16B), 0xF1BB_CDC8, 8) == (0xF212_5A4C, 0x996C_14D6)
  {
  }

  lemma NoThird2()
    ensures Walk(KeyBits(0x0001_0203, 0x0405_0607, 0x0809_0A0B, 0),
                 (0xF212_5A4C, 0x996C_14D6), 0xE377_9B90, 8) == (0xFCD2_BAC5, 0xFABF_E5D3)
  {
  }

  lemma NoThird3()
    ensures Walk(KeyBits(0x0001_0203, 0x0405_0607, 0x0809_0A0B, 0),
                 (0xFCD2_BAC5, 0xFABF_E5D3), 0xD533_6958, 8) == (0xC0CF_20DA, 0x97CD_7197)
  {
  }

  ghost predicate TellApart(i: nat, k: Key, l: Key, b: Block)
  {
    i < 4 && (forall j :: 0 <= j < 4 && j != i ==> k[j] == l[j]) && Encipher(k, b, ROUNDS) != Encipher(l, b, ROUNDS)
  }

  lemma WordsDiffer(p: Pair, q: Pair)
    requires p.0 != q.0
    ensures Words(p) != Words(q)
  {
    There(p.0);
    There(q.0);
  }

  lemma KeysDiffer(i: nat, k: KeyBits, l: KeyBits)
    requires (i == 0 || k.k0 == l.k0) && (i == 1 || k.k1 == l.k1) && (i == 2 || k.k2 == l.k2) && (i == 3 || k.k3 == l.k3)
    ensures forall j :: 0 <= j < 4 && j != i ==> KeyWords(k)[j] == KeyWords(l)[j]
  {
  }

  /** Every word of the key matters: two keys apart only there encode a block differently. */
  lemma EveryKeyWordCounts(i: nat)
    requires i < 4
    ensures exists k: Key, l: Key, b: Block :: TellApart(i, k, l, b)
  {
    Sums();
    hide Walk, Rounds, Words, Whole, SumAt, KeyWords;
    CountingRounds(ROUNDS);
    var c, b := KeyBits(0x0001_0203, 0x0405_0607, 0x0809_0A0B, 0x0C0D_0E0F), Words((0x4142_4344, 0x4546_4748));
    match i {
      case 0 =>
        var k := KeyBits(0, 0x0405_0607, 0x0809_0A0B, 0x0C0D_0E0F);
        NoRounds(KeyWords(k), b);
        NoZeroth0(); WalkRounds(k, b, (0x4142_4344, 0x4546_4748), 0, 0, 8);
        NoZeroth1(); WalkRounds(k, b, (0xC35A_FE11, 0x5CC6_2617), 0xF1BB_CDC8, 8, 8);
        NoZeroth2(); WalkRounds(k, b, (0x94B2_B375, 0x6CC8_9B66), 0xE377_9B90, 16, 8);
        NoZeroth3(); WalkRounds(k, b, (0x23D7_A396, 0xF30A_2DA9), 0xD533_6958, 24, 8);
        KeysDiffer(i, c, k);
        WordsDiffer((0x497D_F3D0, 0x7261_2CB5), (0x39F8_F2CA, 0x172D_C891));
        assert TellApart(i, KeyWords(c), KeyWords(k), b);
      case 1 =>
        var k := KeyBits(0x0001_0203, 0, 0x0809_0A0B, 0x0C0D_0E0F);
        NoRounds(KeyWords(k), b);
        NoFirst0(); WalkRounds(k, b, (0x4142_4344, 0x4546_4748), 0, 0, 8);
        NoFirst1(); WalkRounds(k, b, (0x88B1_1FCC, 0xD3E1_F696), 0xF1BB_CDC8, 8, 8);
        NoFirst2(); WalkRounds(k, b, (0x4CDD_4FFD, 0xD656_AF07), 0xE377_9B90, 16, 8);
        NoFirst3(); WalkRounds(k, b, (0xCCB5_9DA3, 0xF500_EE2A), 0xD533_6958, 24, 8);
        KeysDiffer(i, c, k);
        WordsDiffer((0x497D_F3D0, 0x7261_2CB5), (0xC99A_977B, 0xFBB0_B561));
        assert TellApart(i, KeyWords(c), KeyWords(k), b);
      case 2 =>
        var k := KeyBits(0x0001_0203, 0x0405_0607, 0, 0x0C0D_0E0F);
        NoRounds(KeyWords(k), b);
        NoSecond0(); WalkRounds(k, b, (0x4142_4344, 0x4546_4748), 0, 0, 8);
        NoSecond1(); WalkRounds(k, b, (0x461F_C183, 0x315B_EDDB), 0xF1BB_CDC8, 8, 8);
        NoSecond2(); WalkRounds(k, b, (0xEE8F_CB6E, 0x8244_6A39), 0xE377_9B90, 16, 8);
        NoSecond3(); WalkRounds(k, b, (0xFD47_059C, 0xF3C0_4FF4), 0xD533_6958, 24, 8);
        KeysDiffer(i, c, k);
        WordsDiffer((0x497D_F3D0, 0x7261_2CB5), (0x8BCC_1444, 0x4CF0_12F8));
        assert TellApart(i, KeyWords(c), KeyWords(k), b);
      case _ =>
        var k := KeyBits(0x0001_0203, 0x0405_0607, 0x0809_0A0B, 0);
        NoRounds(KeyWords(k), b);
        NoThird0(); WalkRounds(k, b, (0x4142_4344, 0x4546_4748), 0, 0, 8);
        NoThird1(); WalkRounds(k, b, (0x1540_4097, 0x1270_F16B), 0xF1BB_CDC8, 8, 8);
        NoThird2(); WalkRounds(k, b, (0xF212_5A4C, 0x996C_14D6), 0xE377_9B90, 16, 8);
        NoThird3(); WalkRounds(k, b, (0xFCD2_BAC5, 0xFABF_E5D3), 0xD533_6958, 24, 8);
        KeysDiffer(i, c, k);
        WordsDiffer((0x497D_F3D0, 0x7261_2CB5), (0xC0CF_20DA, 0x97CD_7197));
        assert TellApart(i, KeyWords(c), KeyWords(k), b);
    }
  }
}
