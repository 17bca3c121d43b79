/** The XTEA cipher over buffers (src/crypto/xtea.c). */
module Xtea {
  import opened Bits
  import opened Bytes

  const DELTA: word := 0x9E37_79B9
  const LAST_SUM: word := 0xC6EF_3720
  const ROUNDS := 32

  type Key = k: seq<word> | |k| == 4 witness [0, 0, 0, 0]

  datatype Block = Block(v0: word, v1: word)

  function Add(x: word, y: word): word
  {
    ((x as int + y as int) % U32) as word
  }

  function Sub(x: word, y: word): word
  {
    ((x as int - y as int) % U32) as word
  }

  function Blend(l: bv32, r: bv32, v: bv32): bv32
  {
    Plus(Xor(l, r), v)
  }

  /** ((v<<4 ^ v>>5) + v) ^ (sum + key) */
  function MixBits(v: bv32, sum: bv32, key: bv32): bv32
  {
    Xor(Blend(v << 4, v >> 5, v), Plus(sum, key))
  }

  function Mix(v: word, sum: word, key: word): word
  {
    MixBits(v as bv32, sum as bv32, key as bv32) as word
  }

  lemma BlendReads(l: bv32, r: bv32, v: bv32)
    ensures Number(Blend(l, r, v)) == (BitXor(Number(l), Number(r)) + Number(v)) % U32
  {
    hide Number, Xor, Plus;
    XorWords(l, r);
    PlusWords(Xor(l, r), v);
  }

  lemma MixBitsReads(v: bv32, sum: bv32, key: bv32)
    ensures Number(MixBits(v, sum, key))
         == BitXor((BitXor(Number(v) * 16 % U32, Number(v) / 32) + Number(v)) % U32,
                   (Number(sum) + Number(key)) % U32)
  {
    hide Number, Xor, Plus, Blend;
    ShiftLeft4(v);
    ShiftRight5(v);
    BlendReads(v << 4, v >> 5, v);
    PlusWords(sum, key);
    XorWords(Blend(v << 4, v >> 5, v), Plus(sum, key));
  }

  lemma SameNumber(x: bv32)
    ensures (x as word) as nat == Number(x)
  {
  }

  /** The mixing as arithmetic on numbers. */
  lemma MixReads(v: word, sum: word, key: word)
    ensures Mix(v, sum, key) as nat
         == BitXor((BitXor(v as nat * 16 % U32, v as nat / 32) + v as nat) % U32, (sum as nat + key as nat) % U32)
  {
    hide Number, MixBits, BitXor;
    WordOf(v as nat);
    WordOf(sum as nat);
    WordOf(key as nat);
    MixBitsReads(v as bv32, sum as bv32, key as bv32);
    SameNumber(MixBits(v as bv32, sum as bv32, key as bv32));
  }

  function EvenKey(k: Key, sum: word): word
  {
    k[sum % 4]
  }

  function OddKey(k: Key, sum: word): word
  {
    k[sum / 2048 % 4]
  }

  // ----- one block -----

  /** The running sum after `n` rounds. */
  function SumAt(n: nat): word
  {
    (n * DELTA as int % U32) as word
  }

  /** One encoding round, entered with `sum`. */
  function Round(k: Key, b: Block, sum: word): Block
  {
    var v0 := Add(b.v0, Mix(b.v1, sum, EvenKey(k, sum)));
    var next := Add(sum, DELTA);
    Block(v0, Add(b.v1, Mix(v0, next, OddKey(k, next))))
  }

  /** What one half gains from the other. */
  lemma GainReads(v: word, w: word, sum: word, key: word)
    ensures Add(v, Mix(w, sum, key)) as nat
         == (v as nat + BitXor((BitXor(w as nat * 16 % U32, w as nat / 32) + w as nat) % U32,
                               (sum as nat + key as nat) % U32)) % U32
  {
    hide Mix;
    MixReads(w, sum, key);
  }

  /**
    * A round as arithmetic: each half gains a mixture of the other half with a sum and with the key word that
    * the sum chooses, by its two lowest bits first and by the bits 11 and 12 of the next sum then.
    */
  lemma RoundReads(k: Key, b: Block, sum: word, v0: nat, v1: nat, w0: nat, s: nat, next: nat)
    requires v0 == b.v0 as nat && v1 == b.v1 as nat && s == sum as nat && next == (s + 0x9E37_79B9) % U32
    requires w0 == Round(k, b, sum).v0 as nat
    ensures w0 == (v0 + BitXor((BitXor(v1 * 16 % U32, v1 / 32) + v1) % U32, (s + k[s % 4] as nat) % U32)) % U32
    ensures Round(k, b, sum).v1 as nat
         == (v1 + BitXor((BitXor(w0 * 16 % U32, w0 / 32) + w0) % U32, (next + k[next / 2048 % 4] as nat) % U32)) % U32
  {
    hide Mix, BitXor;
    GainReads(b.v0, b.v1, sum, EvenKey(k, sum));
    GainReads(b.v1, Round(k, b, sum).v0, Add(sum, DELTA), OddKey(k, Add(sum, DELTA)));
  }

  /** One decoding round, entered with `sum`. */
  function Unround(k: Key, b: Block, sum: word): Block
  {
    var v1 := Sub(b.v1, Mix(b.v0, sum, OddKey(k, sum)));
    var next := Sub(sum, DELTA);
    Block(Sub(b.v0, Mix(v1, next, EvenKey(k, next))), v1)
  }

  function Rounds(k: Key, b: Block, n: nat): Block
  {
    if n == 0 then b else Round(k, Rounds(k, b, n - 1), SumAt(n - 1))
  }

  /** `i` decoding rounds downwards from the sum after `n` rounds. */
  function Unrounds(k: Key, b: Block, n: nat, i: nat): Block
    requires i <= n
  {
    if i == 0 then b else Unround(k, Unrounds(k, b, n, i - 1), SumAt(n - i + 1))
  }

  /** The block cipher with `n` rounds. */
  function Encipher(k: Key, b: Block, n: nat): Block
  {
    Rounds(k, b, n)
  }

  function Decipher(k: Key, b: Block, n: nat): Block
  {
    Unrounds(k, b, n, n)
  }

  lemma SumStep(n: nat)
    ensures Add(SumAt(n), DELTA) == SumAt(n + 1) && Sub(SumAt(n + 1), DELTA) == SumAt(n)
  {
    assert (n + 1) * DELTA as int == n * DELTA as int + DELTA as int;
    SumStepAux(n * DELTA as int);
  }

  lemma SumStepAux(x: int)
    ensures (x % U32 + DELTA as int) % U32 == (x + DELTA as int) % U32
    ensures ((x + DELTA as int) % U32 - DELTA as int) % U32 == x % U32
  {
  }

  /** The decoding sum starts where the encoding sum ends. */
  lemma LastSum()
    ensures SumAt(ROUNDS) == LAST_SUM
  {
  }

  lemma AddSub(x: word, y: word)
    ensures Sub(Add(x, y), y) == x && Add(Sub(x, y), y) == x
  {
  }

  lemma UnroundRound(k: Key, b: Block, n: nat)
    ensures Unround(k, Round(k, b, SumAt(n)), SumAt(n + 1)) == b
  {
    hide Mix, SumAt;
    SumStep(n);
    var r := Round(k, b, SumAt(n));
    AddSub(b.v1, Mix(r.v0, SumAt(n + 1), OddKey(k, SumAt(n + 1))));
    AddSub(b.v0, Mix(b.v1, SumAt(n), EvenKey(k, SumAt(n))));
  }

  lemma RoundUnround(k: Key, b: Block, n: nat)
    ensures Round(k, Unround(k, b, SumAt(n + 1)), SumAt(n)) == b
  {
    hide Mix, SumAt;
    SumStep(n);
    var r := Unround(k, b, SumAt(n + 1));
    AddSub(b.v1, Mix(b.v0, SumAt(n + 1), OddKey(k, SumAt(n + 1))));
    AddSub(b.v0, Mix(r.v1, SumAt(n), EvenKey(k, SumAt(n))));
  }

  lemma {:induction false} UnroundsRounds(k: Key, b: Block, n: nat, i: nat)
    requires i <= n
    ensures Unrounds(k, Rounds(k, b, n), n, i) == Rounds(k, b, n - i)
  {
    hide Round, Unround, SumAt;
    if i > 0 {
      UnroundsRounds(k, b, n, i - 1);
      UnroundRound(k, Rounds(k, b, n - i), n - i);
    }
  }

  lemma {:induction false} RoundsUnrounds(k: Key, b: Block, n: nat, i: nat)
    requires i <= n
    ensures Rounds(k, Unrounds(k, b, n, n), i) == Unrounds(k, b, n, n - i)
  {
    hide Round, Unround, SumAt;
    if i > 0 {
      RoundsUnrounds(k, b, n, i - 1);
      RoundUnround(k, Unrounds(k, b, n, n - i), i - 1);
    }
  }

  /** The two block functions are inverse to each other, for every key and number of rounds. */
  lemma CipherInverse(k: Key, b: Block, n: nat)
    ensures Decipher(k, Encipher(k, b, n), n) == b && Encipher(k, Decipher(k, b, n), n) == b
  {
    UnroundsRounds(k, b, n, n);
    RoundsUnrounds(k, b, n, n);
  }

  // ----- buffers -----

  function ToBlock(s: seq<byte>): Block
    requires |s| == 8
  {
    Block(FromLe32(s[..4]), FromLe32(s[4..]))
  }

  function FromBlock(b: Block): (s: seq<byte>)
    ensures |s| == 8
  {
    Le32(b.v0) + Le32(b.v1)
  }

  lemma ToFromBlock(b: Block)
    ensures ToBlock(FromBlock(b)) == b
  {
    var s := FromBlock(b);
    assert s[..4] == Le32(b.v0) && s[4..] == Le32(b.v1);
  }

  lemma BlockInverse(s: seq<byte>)
    requires |s| == 8
    ensures FromBlock(ToBlock(s)) == s
  {
    Le32Inverse(s[..4]);
    Le32Inverse(s[4..]);
    assert s == s[..4] + s[4..];
  }

  lemma WholeBlocks(n: nat)
    requires n % 8 == 0
    ensures (n + 8) % 8 == 0 && (n > 0 ==> n >= 8 && (n - 8) % 8 == 0)
  {
  }

  function Encoded(k: Key, n: nat, s: seq<byte>): (r: seq<byte>)
    requires |s| % 8 == 0
    ensures |r| == |s|
  {
    WholeBlocks(|s|);
    if s == [] then [] else FromBlock(Encipher(k, ToBlock(s[..8]), n)) + Encoded(k, n, s[8..])
  }

  function Decoded(k: Key, n: nat, s: seq<byte>): (r: seq<byte>)
    requires |s| % 8 == 0
    ensures |r| == |s|
  {
    WholeBlocks(|s|);
    if s == [] then [] else FromBlock(Decipher(k, ToBlock(s[..8]), n)) + Decoded(k, n, s[8..])
  }

  /** Decoding undoes encoding. */
  lemma {:induction false} DecodedEncoded(k: Key, n: nat, s: seq<byte>)
    requires |s| % 8 == 0
    ensures Decoded(k, n, Encoded(k, n, s)) == s
  {
    hide Encipher, Decipher, ToBlock, FromBlock;
    if s != [] {
      DecodedEncoded(k, n, s[8..]);
      var c := Encoded(k, n, s);
      assert c[..8] == FromBlock(Encipher(k, ToBlock(s[..8]), n)) && c[8..] == Encoded(k, n, s[8..]);
      ToFromBlock(Encipher(k, ToBlock(s[..8]), n));
      CipherInverse(k, ToBlock(s[..8]), n);
      BlockInverse(s[..8]);
      assert s == s[..8] + s[8..];
    }
  }

  /** Encoding undoes decoding: every key permutes the buffers of a length. */
  lemma {:induction false} EncodedDecoded(k: Key, n: nat, s: seq<byte>)
    requires |s| % 8 == 0
    ensures Encoded(k, n, Decoded(k, n, s)) == s
  {
    hide Encipher, Decipher, ToBlock, FromBlock;
    if s != [] {
      EncodedDecoded(k, n, s[8..]);
      var c := Decoded(k, n, s);
      assert c[..8] == FromBlock(Decipher(k, ToBlock(s[..8]), n)) && c[8..] == Decoded(k, n, s[8..]);
      ToFromBlock(Decipher(k, ToBlock(s[..8]), n));
      CipherInverse(k, ToBlock(s[..8]), n);
      BlockInverse(s[..8]);
      assert s == s[..8] + s[8..];
    }
  }

  lemma {:induction false} EncodedAppend(k: Key, n: nat, s: seq<byte>, t: seq<byte>)
    requires |s| % 8 == 0 && |t| == 8
    ensures Encoded(k, n, s + t) == Encoded(k, n, s) + FromBlock(Encipher(k, ToBlock(t), n))
  {
    hide Encipher, Decipher, ToBlock, FromBlock;
    WholeBlocks(|s|);
    if s == [] {
      assert s + t == t && t[..8] == t && t[8..] == [];
    } else {
      assert (s + t)[..8] == s[..8] && (s + t)[8..] == s[8..] + t;
      EncodedAppend(k, n, s[8..], t);
    }
  }

  lemma {:induction false} DecodedAppend(k: Key, n: nat, s: seq<byte>, t: seq<byte>)
    requires |s| % 8 == 0 && |t| == 8
    ensures Decoded(k, n, s + t) == Decoded(k, n, s) + FromBlock(Decipher(k, ToBlock(t), n))
  {
    hide Encipher, Decipher, ToBlock, FromBlock;
    WholeBlocks(|s|);
    if s == [] {
      assert s + t == t && t[..8] == t && t[8..] == [];
    } else {
      assert (s + t)[..8] == s[..8] && (s + t)[8..] == s[8..] + t;
      DecodedAppend(k, n, s[8..], t);
    }
  }

  /** Every block is encoded in its place. */
  lemma {:induction false} BlocksInPlace(k: Key, n: nat, s: seq<byte>, i: nat)
    requires |s| % 8 == 0 && 8 * i + 8 <= |s|
    ensures Encoded(k, n, s)[8 * i..8 * i + 8] == FromBlock(Encipher(k, ToBlock(s[8 * i..8 * i + 8]), n))
    ensures Decoded(k, n, s)[8 * i..8 * i + 8] == FromBlock(Decipher(k, ToBlock(s[8 * i..8 * i + 8]), n))
    decreases i
  {
    hide Encipher, Decipher, ToBlock, FromBlock;
    WholeBlocks(|s|);
    var c, d := Encoded(k, n, s), Decoded(k, n, s);
    assert c[8..] == Encoded(k, n, s[8..]) && d[8..] == Decoded(k, n, s[8..]);
    if i > 0 {
      BlocksInPlace(k, n, s[8..], i - 1);
      assert s[8..][8 * i - 8..8 * i] == s[8 * i..8 * i + 8];
      assert c[8..][8 * i - 8..8 * i] == c[8 * i..8 * i + 8];
      assert d[8..][8 * i - 8..8 * i] == d[8 * i..8 * i + 8];
    }
  }

  lemma EmptyBuffer(k: Key, n: nat)
    ensures Encoded(k, n, []) == [] == Decoded(k, n, [])
  {
  }

  // ----- the code -----

  method EncodeBlock(k: Key, data: array<byte>, at: nat)
    requires at + 8 <= data.Length
    modifies data
    ensures data[..] == Splice(old(data[..]), at, FromBlock(Encipher(k, ToBlock(old(data[at..at + 8])), ROUNDS)))
  {
    hide Mix;
    var v0 := DecodeU32(data, at);
    var v1 := DecodeU32(data, at + 4);
    ghost var b := ToBlock(data[at..at + 8]);
    assert data[at..at + 8][..4] == data[at..at + 4] && data[at..at + 8][4..] == data[at + 4..at + 8];
    var sum: word := 0;
    for i := 0 to ROUNDS
      invariant data[..] == old(data[..])
      invariant Block(v0, v1) == Rounds(k, b, i) && sum == SumAt(i)
    {
      SumStep(i);
      v0 := Add(v0, Mix(v1, sum, EvenKey(k, sum)));
      sum := Add(sum, DELTA);
      v1 := Add(v1, Mix(v0, sum, OddKey(k, sum)));
    }
    EncodeU32(data, at, v0);
    EncodeU32(data, at + 4, v1);
  }

  method DecodeBlock(k: Key, data: array<byte>, at: nat)
    requires at + 8 <= data.Length
    modifies data
    ensures data[..] == Splice(old(data[..]), at, FromBlock(Decipher(k, ToBlock(old(data[at..at + 8])), ROUNDS)))
  {
    hide Mix;
    var v0 := DecodeU32(data, at);
    var v1 := DecodeU32(data, at + 4);
    ghost var b := ToBlock(data[at..at + 8]);
    assert data[at..at + 8][..4] == data[at..at + 4] && data[at..at + 8][4..] == data[at + 4..at + 8];
    var sum := LAST_SUM;
    LastSum();
    for i := 0 to ROUNDS
      invariant data[..] == old(data[..])
      invariant Block(v0, v1) == Unrounds(k, b, ROUNDS, i) && sum == SumAt(ROUNDS - i)
    {
      SumStep(ROUNDS - i - 1);
      v1 := Sub(v1, Mix(v0, sum, OddKey(k, sum)));
      sum := Sub(sum, DELTA);
      v0 := Sub(v0, Mix(v1, sum, EvenKey(k, sum)));
    }
    EncodeU32(data, at, v0);
    EncodeU32(data, at + 4, v1);
  }

  method NextEncode(k: Key, data: array<byte>, ghost s: seq<byte>, from: nat, p: nat)
    requires from <= p && p + 8 <= data.Length == |s| && (p - from) % 8 == 0
    requires data[..] == Splice(s, from, Encoded(k, ROUNDS, s[from..p]))
    modifies data
    ensures (p + 8 - from) % 8 == 0 && data[..] == Splice(s, from, Encoded(k, ROUNDS, s[from..p + 8]))
  {
    hide Encoded, Decoded, Encipher, Decipher, ToBlock, FromBlock, Splice;
    WholeBlocks(p - from);
    EncodedAppend(k, ROUNDS, s[from..p], s[p..p + 8]);
    assert s[from..p] + s[p..p + 8] == s[from..p + 8];
    SpliceOnward(s, from, Encoded(k, ROUNDS, s[from..p]), FromBlock(Encipher(k, ToBlock(s[p..p + 8]), ROUNDS)));
    SpliceBefore(s, from, Encoded(k, ROUNDS, s[from..p]), p, p + 8);
    assert data[p..p + 8] == data[..][p..p + 8];
    EncodeBlock(k, data, p);
  }

  /** xtea_encode, over the `len` bytes from `from` on. */
  method XteaEncode(k: Key, data: array<byte>, from: nat, len: nat)
    requires from + len <= data.Length && len % 8 == 0
    modifies data
    ensures data[..] == Splice(old(data[..]), from, Encoded(k, ROUNDS, old(data[from..from + len])))
  {
    hide Encoded, Decoded, Splice;
    EmptyBuffer(k, ROUNDS);
    NothingSpliced(data[..], from);
    var p, left := from, len;
    ghost var s := data[..];
    while left > 0
      invariant from <= p && 0 <= left && p + left == from + len && left % 8 == 0 && (p - from) % 8 == 0
      invariant data[..] == Splice(s, from, Encoded(k, ROUNDS, s[from..p]))
    {
      WholeBlocks(left);
      NextEncode(k, data, s, from, p);
      left, p := left - 8, p + 8;
    }
  }

  method NextDecode(k: Key, data: array<byte>, ghost s: seq<byte>, from: nat, p: nat)
    requires from <= p && p + 8 <= data.Length == |s| && (p - from) % 8 == 0
    requires data[..] == Splice(s, from, Decoded(k, ROUNDS, s[from..p]))
    modifies data
    ensures (p + 8 - from) % 8 == 0 && data[..] == Splice(s, from, Decoded(k, ROUNDS, s[from..p + 8]))
  {
    hide Encoded, Decoded, Encipher, Decipher, ToBlock, FromBlock, Splice;
    WholeBlocks(p - from);
    DecodedAppend(k, ROUNDS, s[from..p], s[p..p + 8]);
    assert s[from..p] + s[p..p + 8] == s[from..p + 8];
    SpliceOnward(s, from, Decoded(k, ROUNDS, s[from..p]), FromBlock(Decipher(k, ToBlock(s[p..p + 8]), ROUNDS)));
    SpliceBefore(s, from, Decoded(k, ROUNDS, s[from..p]), p, p + 8);
    assert data[p..p + 8] == data[..][p..p + 8];
    DecodeBlock(k, data, p);
  }

  /** xtea_decode, over the `len` bytes from `from` on. */
  method XteaDecode(k: Key, data: array<byte>, from: nat, len: nat)
    requires from + len <= data.Length && len % 8 == 0
    modifies data
    ensures data[..] == Splice(old(data[..]), from, Decoded(k, ROUNDS, old(data[from..from + len])))
  {
    hide Encoded, Decoded, Splice;
    EmptyBuffer(k, ROUNDS);
    NothingSpliced(data[..], from);
    var p, left := from, len;
    ghost var s := data[..];
    while left > 0
      invariant from <= p && 0 <= left && p + left == from + len && left % 8 == 0 && (p - from) % 8 == 0
      invariant data[..] == Splice(s, from, Decoded(k, ROUNDS, s[from..p]))
    {
      WholeBlocks(left);
      NextDecode(k, data, s, from, p);
      left, p := left - 8, p + 8;
    }
  }
}
