/** The key expansions of src/crypto/blowfish.c, plain and salted, over the tables in place. */
module KeyExpansion {
  import opened Options
  import opened Bits
  import opened Bytes
  import opened NumberTheory
  import opened Blowfish

  // ----- what the expansions compute -----

  /** P after the first `n` words of the key have been mixed in. */
  function Mixed(p: seq<bv32>, key: seq<byte>, n: nat): (q: seq<bv32>)
    requires |key| > 0
    ensures |q| == |p|
  {
    seq(|p|, i requires 0 <= i < |p| => if i < n then Xor(p[i], CyclicWord(key, 4 * i)) else p[i])
  }

  /** The words number `w` and `w + 1` of the salt go into the halves; without a salt nothing happens. */
  function Salted(h: Halves, salt: Option<seq<byte>>, w: nat): Halves
    requires salt.Some? ==> |salt.value| > 0
  {
    match salt
    case None => h
    case Some(data) => Halves(Xor(h.l, CyclicWord(data, 4 * w)), Xor(h.r, CyclicWord(data, 4 * (w + 1))))
  }

  /** The tables and the chained halves after `n` pairs of P have been replaced. */
  function FillP(b: Box, salt: Option<seq<byte>>, n: nat): (r: (Box, Halves))
    requires Sized(b) && 2 * n <= P_LEN && (salt.Some? ==> |salt.value| > 0)
    ensures Sized(r.0)
  {
    if n == 0 then (b, Halves(0, 0)) else
      var (c, h) := FillP(b, salt, n - 1);
      var e := Encoded(c, Salted(h, salt, 2 * n - 2));
      (Box(c.p[2 * n - 2 := e.l][2 * n - 1 := e.r], c.s), e)
  }

  /** And after `n` pairs of S have been replaced. */
  function FillS(b: Box, d: Halves, salt: Option<seq<byte>>, n: nat): (r: (Box, Halves))
    requires Sized(b) && 2 * n <= S_LEN && (salt.Some? ==> |salt.value| > 0)
    ensures Sized(r.0)
  {
    if n == 0 then (b, d) else
      var (c, h) := FillS(b, d, salt, n - 1);
      var e := Encoded(c, Salted(h, salt, P_LEN + 2 * n - 2));
      (Box(c.p, c.s[2 * n - 2 := e.l][2 * n - 1 := e.r]), e)
  }

  function Expanded(b: Box, key: seq<byte>, salt: Option<seq<byte>>): (r: Box)
    requires Sized(b) && |key| > 0 && (salt.Some? ==> |salt.value| > 0)
    ensures Sized(r)
  {
    var mixed := Box(Mixed(b.p, key, |b.p|), b.s);
    var (c, h) := FillP(mixed, salt, |b.p| / 2);
    FillS(c, h, salt, |b.s| / 2).0
  }

  // ----- what holds of them -----

  /** Every key schedule yields a permutation of the blocks. */
  lemma ScheduleIsPermutation(b: Box, key: seq<byte>, salt: Option<seq<byte>>, h: Halves)
    requires Sized(b) && |key| > 0 && (salt.Some? ==> |salt.value| > 0)
    ensures Decoded(Expanded(b, key, salt), Encoded(Expanded(b, key, salt), h)) == h
    ensures Encoded(Expanded(b, key, salt), Decoded(Expanded(b, key, salt), h)) == h
  {
    hide Expanded, Encoded, Decoded;
    DecodedEncoded(Expanded(b, key, salt), h);
    EncodedDecoded(Expanded(b, key, salt), h);
  }

  predicate Zeros(data: seq<byte>)
  {
    |data| > 0 && forall i :: 0 <= i < |data| ==> data[i] == 0
  }

  lemma {:induction false} ZeroBits(data: seq<byte>, j: nat, n: nat)
    requires Zeros(data)
    ensures CyclicBits(data, j, n) == 0
  {
    if n > 0 {
      ZeroBits(data, j, n - 1);
      ShiftedZero();
    }
  }

  lemma ShiftedZero()
    ensures Shifted(0, 0) == 0
  {
  }

  lemma XorZero(x: bv32)
    ensures Xor(x, 0) == x
  {
  }

  lemma ZeroSalted(h: Halves, data: seq<byte>, w: nat)
    requires Zeros(data)
    ensures Salted(h, Some(data), w) == h
  {
    ZeroBits(data, 4 * w, 4);
    ZeroBits(data, 4 * (w + 1), 4);
    XorZero(h.l);
    XorZero(h.r);
  }

  lemma {:induction false} ZeroFillP(b: Box, data: seq<byte>, n: nat)
    requires Sized(b) && 2 * n <= P_LEN && Zeros(data)
    ensures FillP(b, Some(data), n) == FillP(b, None, n)
  {
    hide Encoded, Salted;
    if n > 0 {
      ZeroFillP(b, data, n - 1);
      var h := FillP(b, None, n - 1).1;
      ZeroSalted(h, data, 2 * n - 2);
      NoSalt(h, 2 * n - 2);
    }
  }

  lemma NoSalt(h: Halves, w: nat)
    ensures Salted(h, None, w) == h
  {
  }

  lemma {:induction false} ZeroFillS(b: Box, d: Halves, data: seq<byte>, n: nat)
    requires Sized(b) && 2 * n <= S_LEN && Zeros(data)
    ensures FillS(b, d, Some(data), n) == FillS(b, d, None, n)
  {
    hide Encoded, Salted;
    if n > 0 {
      ZeroFillS(b, d, data, n - 1);
      var h := FillS(b, d, None, n - 1).1;
      ZeroSalted(h, data, P_LEN + 2 * n - 2);
      NoSalt(h, P_LEN + 2 * n - 2);
    }
  }

  /** The salted expansion with an all-zero salt is the plain one. */
  lemma ZeroSaltIsPlain(b: Box, key: seq<byte>, data: seq<byte>)
    requires Sized(b) && |key| > 0 && Zeros(data)
    ensures Expanded(b, key, Some(data)) == Expanded(b, key, None)
  {
    hide FillP, FillS;
    var mixed := Box(Mixed(b.p, key, |b.p|), b.s);
    ZeroFillP(mixed, data, |b.p| / 2);
    var (c, h) := FillP(mixed, None, |b.p| / 2);
    ZeroFillS(c, h, data, |b.s| / 2);
  }

  /** A key and the same key written twice expand alike. */
  lemma RepeatedKey(b: Box, key: seq<byte>, salt: Option<seq<byte>>)
    requires Sized(b) && |key| > 0 && (salt.Some? ==> |salt.value| > 0)
    ensures Expanded(b, key + key, salt) == Expanded(b, key, salt)
  {
    hide FillP, FillS, Xor;
    forall i | 0 <= i < |b.p| ensures CyclicWord(key + key, 4 * i) == CyclicWord(key, 4 * i) {
      RepeatedBytes(key, 4 * i, 4);
    }
    assert Mixed(b.p, key + key, |b.p|) == Mixed(b.p, key, |b.p|);
  }

  /** A position may be reduced modulo the length. */
  lemma {:induction false} CyclicStart(data: seq<byte>, k: nat, n: nat)
    requires |data| > 0
    ensures CyclicBits(data, k % |data|, n) == CyclicBits(data, k, n)
  {
    hide Shifted;
    if n > 0 {
      CyclicStart(data, k, n - 1);
      ReducedSum(k, n - 1, |data|);
    }
  }

  lemma ReducedSum(k: nat, t: nat, m: nat)
    requires m > 0
    ensures (k % m + t) % m == (k + t) % m
  {
    var x := k % m + t;
    assert k + t == (k / m) * m + x;
    assert (k / m + x / m) * m == (k / m) * m + (x / m) * m;
    DivModUnique(k + t, m, k / m + x / m, x % m);
  }

  // ----- the chain -----

  lemma Replaced(o: seq<bv32>, c: seq<bv32>, n: nat, x: bv32, y: bv32, r: seq<bv32>)
    requires 2 * n + 1 < |c| == |o| && c == c[..2 * n] + o[2 * n..] && r == c[2 * n := x][2 * n + 1 := y]
    ensures r == r[..2 * n + 2] + o[2 * n + 2..] && r[2 * n] == x && r[2 * n + 1] == y
  {
    assert forall i :: 2 * n + 2 <= i < |c| ==> r[i] == c[i] == (c[..2 * n] + o[2 * n..])[i] == o[i];
  }

  lemma Untouched(c: seq<bv32>, n: nat, x: bv32, y: bv32, r: seq<bv32>, t: nat)
    requires 2 * n + 1 < |c| && t <= n && r == c[2 * n := x][2 * n + 1 := y]
    ensures r[..2 * t] == c[..2 * t]
  {
  }

  lemma {:induction false} RestOfP(b: Box, salt: Option<seq<byte>>, n: nat)
    requires Sized(b) && 2 * n <= P_LEN && (salt.Some? ==> |salt.value| > 0)
    ensures var c := FillP(b, salt, n).0; c.p == c.p[..2 * n] + b.p[2 * n..] && c.s == b.s
  {
    hide Encoded, Salted;
    if n > 0 {
      RestOfP(b, salt, n - 1);
      var e := FillP(b, salt, n).1;
      Replaced(b.p, FillP(b, salt, n - 1).0.p, n - 1, e.l, e.r, FillP(b, salt, n).0.p);
    }
  }

  lemma {:induction false} FrontOfP(b: Box, salt: Option<seq<byte>>, t: nat, n: nat)
    requires Sized(b) && t <= n && 2 * n <= P_LEN && (salt.Some? ==> |salt.value| > 0)
    ensures FillP(b, salt, t).0.p[..2 * t] == FillP(b, salt, n).0.p[..2 * t]
    decreases n
  {
    hide Encoded, Salted;
    if t < n {
      FrontOfP(b, salt, t, n - 1);
      var e := FillP(b, salt, n).1;
      Untouched(FillP(b, salt, n - 1).0.p, n - 1, e.l, e.r, FillP(b, salt, n).0.p, t);
    }
  }

  lemma {:induction false} RestOfS(b: Box, d: Halves, salt: Option<seq<byte>>, n: nat)
    requires Sized(b) && 2 * n <= S_LEN && (salt.Some? ==> |salt.value| > 0)
    ensures var c := FillS(b, d, salt, n).0; c.s == c.s[..2 * n] + b.s[2 * n..] && c.p == b.p
  {
    hide Encoded, Salted;
    if n > 0 {
      RestOfS(b, d, salt, n - 1);
      var e := FillS(b, d, salt, n).1;
      Replaced(b.s, FillS(b, d, salt, n - 1).0.s, n - 1, e.l, e.r, FillS(b, d, salt, n).0.s);
    }
  }

  lemma {:induction false} FrontOfS(b: Box, d: Halves, salt: Option<seq<byte>>, t: nat, n: nat)
    requires Sized(b) && t <= n && 2 * n <= S_LEN && (salt.Some? ==> |salt.value| > 0)
    ensures FillS(b, d, salt, t).0.s[..2 * t] == FillS(b, d, salt, n).0.s[..2 * t]
    decreases n
  {
    hide Encoded, Salted;
    if t < n {
      FrontOfS(b, d, salt, t, n - 1);
      var e := FillS(b, d, salt, n).1;
      Untouched(FillS(b, d, salt, n - 1).0.s, n - 1, e.l, e.r, FillS(b, d, salt, n).0.s, t);
    }
  }

  /** Words `2 * t` and `2 * t + 1`. */
  function PairAt(w: seq<bv32>, t: nat): Halves
    requires 2 * t + 1 < |w|
  {
    Halves(w[2 * t], w[2 * t + 1])
  }

  lemma LastPair(c: seq<bv32>, t: nat, e: Halves, d: seq<bv32>, r: seq<bv32>)
    requires 2 * t + 1 < |c| == |r| && d == c[2 * t := e.l][2 * t + 1 := e.r] && d[..2 * (t + 1)] == r[..2 * (t + 1)]
    ensures PairAt(r, t) == e
  {
    assert d[..2 * (t + 1)][2 * t] == e.l && d[..2 * (t + 1)][2 * t + 1] == e.r;
  }

  lemma StepOfP(b: Box, salt: Option<seq<byte>>, t: nat, c: Box, e: Halves)
    requires Sized(b) && 2 * t + 1 < P_LEN && (salt.Some? ==> |salt.value| > 0)
    requires c == FillP(b, salt, t).0 && e == FillP(b, salt, t + 1).1
    ensures FillP(b, salt, t + 1).0.p == c.p[2 * t := e.l][2 * t + 1 := e.r]
    ensures e == Encoded(c, Salted(FillP(b, salt, t).1, salt, 2 * t)) && FillP(b, salt, 0).1 == Halves(0, 0)
  {
    hide Encoded, Salted;
  }

  lemma LinkOfP(b: Box, salt: Option<seq<byte>>, t: nat, r: Box)
    requires Sized(b) && 2 * t + 1 < P_LEN && (salt.Some? ==> |salt.value| > 0) && r == FillP(b, salt, P_LEN / 2).0
    ensures FillP(b, salt, t + 1).1 == PairAt(r.p, t)
    ensures FillP(b, salt, t).0 == Box(r.p[..2 * t] + b.p[2 * t..], b.s)
  {
    hide Encoded, Salted, FillP;
    var c, e := FillP(b, salt, t).0, FillP(b, salt, t + 1).1;
    StepOfP(b, salt, t, c, e);
    RestOfP(b, salt, t);
    FrontOfP(b, salt, t, P_LEN / 2);
    FrontOfP(b, salt, t + 1, P_LEN / 2);
    LastPair(c.p, t, e, FillP(b, salt, t + 1).0.p, r.p);
  }

  lemma StepOfS(b: Box, d: Halves, salt: Option<seq<byte>>, t: nat, c: Box, e: Halves)
    requires Sized(b) && 2 * t + 1 < S_LEN && (salt.Some? ==> |salt.value| > 0)
    requires c == FillS(b, d, salt, t).0 && e == FillS(b, d, salt, t + 1).1
    ensures FillS(b, d, salt, t + 1).0.s == c.s[2 * t := e.l][2 * t + 1 := e.r]
    ensures e == Encoded(c, Salted(FillS(b, d, salt, t).1, salt, P_LEN + 2 * t)) && FillS(b, d, salt, 0).1 == d
  {
    hide Encoded, Salted;
  }

  lemma LinkOfS(b: Box, d: Halves, salt: Option<seq<byte>>, t: nat, r: Box)
    requires Sized(b) && 2 * t + 1 < S_LEN && (salt.Some? ==> |salt.value| > 0) && r == FillS(b, d, salt, S_LEN / 2).0
    ensures FillS(b, d, salt, t + 1).1 == PairAt(r.s, t)
    ensures FillS(b, d, salt, t).0 == Box(b.p, r.s[..2 * t] + b.s[2 * t..])
  {
    hide Encoded, Salted, FillS;
    var c, e := FillS(b, d, salt, t).0, FillS(b, d, salt, t + 1).1;
    StepOfS(b, d, salt, t, c, e);
    RestOfS(b, d, salt, t);
    FrontOfS(b, d, salt, t, S_LEN / 2);
    FrontOfS(b, d, salt, t + 1, S_LEN / 2);
    LastPair(c.s, t, e, FillS(b, d, salt, t + 1).0.s, r.s);
  }

  /** A block masked with the words of the salt from byte `j` of its endless repetition on. */
  predicate WithSalt(h: Halves, salt: Option<seq<byte>>, j: nat, g: Halves)
    requires salt.Some? ==> |salt.value| > 0
  {
    match salt
    case None => g == h
    case Some(data) => g == Halves(Xor(h.l, CyclicWord(data, j)), Xor(h.r, CyclicWord(data, j + 4)))
  }

  lemma SaltedIs(h: Halves, salt: Option<seq<byte>>, w: nat)
    requires salt.Some? ==> |salt.value| > 0
    ensures WithSalt(h, salt, 4 * w, Salted(h, salt, w))
  {
  }

  /** The tables half way: P replaced up to pair `t`, and P replaced with S up to pair `t`. */
  function UpToP(was: Box, now: Box, t: nat): (c: Box)
    requires Sized(was) && Sized(now) && 2 * t <= P_LEN
    ensures Sized(c)
  {
    Box(now.p[..2 * t] + was.p[2 * t..], was.s)
  }

  function UpToS(was: Box, now: Box, t: nat): (c: Box)
    requires Sized(was) && Sized(now) && 2 * t <= S_LEN
    ensures Sized(c)
  {
    Box(now.p, now.s[..2 * t] + was.s[2 * t..])
  }

  lemma ChainOfP(m: Box, salt: Option<seq<byte>>, c: Box, t: nat) returns (g: Halves)
    requires Sized(m) && (salt.Some? ==> |salt.value| > 0) && 2 * t + 1 < P_LEN && c == FillP(m, salt, P_LEN / 2).0
    ensures WithSalt(if t == 0 then Halves(0, 0) else PairAt(c.p, t - 1), salt, 8 * t, g)
    ensures PairAt(c.p, t) == Encoded(UpToP(m, c, t), g) && FillP(m, salt, P_LEN / 2).1 == PairAt(c.p, 8)
  {
    hide Encoded, Salted, FillP, WithSalt;
    LinkOfP(m, salt, t, c);
    LinkOfP(m, salt, 8, c);
    StepOfP(m, salt, t, FillP(m, salt, t).0, FillP(m, salt, t + 1).1);
    if t > 0 {
      LinkOfP(m, salt, t - 1, c);
    }
    g := Salted(FillP(m, salt, t).1, salt, 2 * t);
    SaltedIs(FillP(m, salt, t).1, salt, 2 * t);
  }

  lemma ChainOfS(b: Box, d: Halves, salt: Option<seq<byte>>, r: Box, t: nat) returns (g: Halves)
    requires Sized(b) && (salt.Some? ==> |salt.value| > 0) && 2 * t + 1 < S_LEN && r == FillS(b, d, salt, S_LEN / 2).0
    ensures WithSalt(if t == 0 then d else PairAt(r.s, t - 1), salt, 72 + 8 * t, g)
    ensures PairAt(r.s, t) == Encoded(UpToS(b, r, t), g) && r.p == b.p
  {
    hide Encoded, Salted, FillS, WithSalt;
    RestOfS(b, d, salt, S_LEN / 2);
    LinkOfS(b, d, salt, t, r);
    StepOfS(b, d, salt, t, FillS(b, d, salt, t).0, FillS(b, d, salt, t + 1).1);
    if t > 0 {
      LinkOfS(b, d, salt, t - 1, r);
    }
    g := Salted(FillS(b, d, salt, t).1, salt, P_LEN + 2 * t);
    SaltedIs(FillS(b, d, salt, t).1, salt, P_LEN + 2 * t);
  }

  /** P masked with the key, the key endlessly repeated, and S as it is. */
  predicate Masked(b: Box, key: seq<byte>, m: Box)
    requires Sized(b) && |key| > 0
  {
    Sized(m) && m.s == b.s && forall i :: 0 <= i < P_LEN ==> m.p[i] == Xor(b.p[i], CyclicWord(key, 4 * i))
  }

  /** The expansion goes through the tables with P replaced. */
  lemma Parts(b: Box, key: seq<byte>, salt: Option<seq<byte>>, m: Box) returns (c: Box, h: Halves)
    requires Sized(b) && |key| > 0 && (salt.Some? ==> |salt.value| > 0) && Masked(b, key, m)
    ensures Sized(c) && (c, h) == FillP(m, salt, P_LEN / 2) && c.s == b.s
    ensures Expanded(b, key, salt) == FillS(c, h, salt, S_LEN / 2).0
  {
    hide FillP, FillS, Xor;
    assert m.p == Mixed(b.p, key, P_LEN);
    var f := FillP(m, salt, P_LEN / 2);
    c, h := f.0, f.1;
    RestOfP(m, salt, P_LEN / 2);
  }

  /**
    * Pair `t` of the new P is a block encoded with the tables half way. The block is the pair before, or zeros,
    * masked with the salt. The old P is the given one masked with the key.
    */
  lemma PairsOfP(b: Box, key: seq<byte>, salt: Option<seq<byte>>, m: Box, r: Box, t: nat) returns (g: Halves)
    requires Sized(b) && |key| > 0 && (salt.Some? ==> |salt.value| > 0) && 2 * t + 1 < P_LEN
    requires Masked(b, key, m) && r == Expanded(b, key, salt)
    ensures WithSalt(if t == 0 then Halves(0, 0) else PairAt(r.p, t - 1), salt, 8 * t, g)
    ensures PairAt(r.p, t) == Encoded(UpToP(m, r, t), g)
  {
    hide Encoded, FillP, FillS, WithSalt, Expanded, Xor;
    var c, h := Parts(b, key, salt, m);
    RestOfS(c, h, salt, S_LEN / 2);
    g := ChainOfP(m, salt, c, t);
  }

  /** And pair `t` of the new S; the first of them follows the last pair of P. */
  lemma PairsOfS(b: Box, key: seq<byte>, salt: Option<seq<byte>>, m: Box, r: Box, t: nat) returns (g: Halves)
    requires Sized(b) && |key| > 0 && (salt.Some? ==> |salt.value| > 0) && 2 * t + 1 < S_LEN
    requires Masked(b, key, m) && r == Expanded(b, key, salt)
    ensures WithSalt(if t == 0 then PairAt(r.p, 8) else PairAt(r.s, t - 1), salt, 72 + 8 * t, g)
    ensures PairAt(r.s, t) == Encoded(UpToS(b, r, t), g)
  {
    hide Encoded, FillP, FillS, WithSalt, Expanded, Xor;
    var c, h := Parts(b, key, salt, m);
    g := ChainOfP(m, salt, c, 0);
    g := ChainOfS(c, h, salt, r, t);
  }

  // ----- the code -----

  class BlowfishCtx {
    const p: array<bv32>
    const s: array<bv32>

    ghost predicate Valid()
    {
      p.Length == P_LEN && s.Length == S_LEN
    }

    ghost function Value(): (b: Box)
      requires Valid()
      reads p, s
      ensures Sized(b)
    {
      Box(p[..], s[..])
    }

    /** blowfish_init, from given tables. */
    constructor (tables: Box)
      requires Sized(tables)
      ensures Valid() && fresh(p) && fresh(s) && p as object != s && Value() == tables
    {
      p := new bv32[P_LEN](i requires 0 <= i < P_LEN => tables.p[i]);
      s := new bv32[S_LEN](i requires 0 <= i < S_LEN => tables.s[i]);
    }

    /** encode_one */
    method EncodeOne(data: array<bv32>)
      requires Valid() && data.Length == 2 && data != p && data != s
      modifies data
      ensures Halves(data[0], data[1]) == Encoded(Value(), old(Halves(data[0], data[1])))
    {
      hide F, Xor, Plus, Octet;
      var l, r, i := data[0], data[1], 0;
      while i < 16
        invariant 0 <= i <= 16 && i % 2 == 0
        invariant Halves(l, r) == RoundPairs(Value(), old(Halves(data[0], data[1])), i / 2)
      {
        l := Xor(l, p[i]);
        r := Xor(r, F(s[..], l));
        r := Xor(r, p[i + 1]);
        l := Xor(l, F(s[..], r));
        i := i + 2;
      }
      l := Xor(l, p[16]);
      r := Xor(r, p[17]);
      data[0], data[1] := r, l;
    }

    /** decode_one */
    method DecodeOne(data: array<bv32>)
      requires Valid() && data.Length == 2 && data != p && data != s
      modifies data
      ensures Halves(data[0], data[1]) == Decoded(Value(), old(Halves(data[0], data[1])))
    {
      hide F, Xor, Plus, Octet;
      var l, r, i := data[0], data[1], 16;
      while i > 0
        invariant 0 <= i <= 16 && i % 2 == 0
        invariant Halves(l, r) == UnroundPairs(Value(), old(Halves(data[0], data[1])), (16 - i) / 2)
      {
        l := Xor(l, p[i + 1]);
        r := Xor(r, F(s[..], l));
        r := Xor(r, p[i]);
        l := Xor(l, F(s[..], r));
        i := i - 2;
      }
      l := Xor(l, p[1]);
      r := Xor(r, p[0]);
      data[0], data[1] := r, l;
    }

    /** The first loop of both expansions: the key goes into P. */
    method MixKey(key: seq<byte>)
      requires Valid() && |key| > 0 && p != s
      modifies p
      ensures Value() == Box(Mixed(old(p[..]), key, P_LEN), old(s[..]))
    {
      hide Xor;
      var j := 0;
      ghost var before := p[..];
      for i := 0 to P_LEN
        invariant p[..] == Mixed(before, key, i) && s[..] == old(s[..])
        invariant j == 4 * i % |key|
      {
        CyclicStart(key, 4 * i, 4);
        ReducedSum(4 * i, 4, |key|);
        var d;
        d, j := CyclicRead(key, j);
        p[i] := Xor(p[i], d);
      }
    }

    /** The salt goes into the chained halves; without a salt the step is absent. */
    method SaltStep(d: array<bv32>, salt: Option<seq<byte>>, j: nat, ghost w: nat) returns (next: nat)
      requires d.Length == 2 && (salt.Some? ==> |salt.value| > 0 && j == 4 * w % |salt.value|)
      modifies d
      ensures Halves(d[0], d[1]) == Salted(old(Halves(d[0], d[1])), salt, w)
      ensures salt.Some? ==> next == 4 * (w + 2) % |salt.value|
    {
      hide Xor;
      next := j;
      if salt.Some? {
        var data := salt.value;
        CyclicStart(data, 4 * w, 4);
        ReducedSum(4 * w, 4, |data|);
        CyclicStart(data, 4 * (w + 1), 4);
        ReducedSum(4 * (w + 1), 4, |data|);
        var x;
        x, next := CyclicRead(data, next);
        d[0] := Xor(d[0], x);
        x, next := CyclicRead(data, next);
        d[1] := Xor(d[1], x);
      }
    }

    /** The second loop: P is replaced, pair by pair, by a chain of encodings. */
    method ReplaceP(salt: Option<seq<byte>>, d: array<bv32>) returns (j: nat)
      requires Valid() && (salt.Some? ==> |salt.value| > 0) && p != s && d != p && d != s
      requires d.Length == 2 && d[0] == 0 && d[1] == 0
      modifies p, d
      ensures (Value(), Halves(d[0], d[1])) == FillP(old(Value()), salt, P_LEN / 2)
      ensures salt.Some? ==> j == 4 * P_LEN % |salt.value|
    {
      hide Encoded, Salted;
      ghost var mixed := Value();
      var i := 0;
      j := 0;
      while i < P_LEN
        invariant 0 <= i <= P_LEN && i % 2 == 0
        invariant (Value(), Halves(d[0], d[1])) == FillP(mixed, salt, i / 2)
        invariant salt.Some? ==> j == 4 * i % |salt.value|
      {
        j := PairP(mixed, salt, d, j, i);
        i := i + 2;
      }
    }

    method PairP(ghost mixed: Box, salt: Option<seq<byte>>, d: array<bv32>, j: nat, i: nat) returns (next: nat)
      requires Valid() && (salt.Some? ==> |salt.value| > 0 && j == 4 * i % |salt.value|) && p != s && d != p && d != s
      requires Sized(mixed) && d.Length == 2 && i % 2 == 0 && i < P_LEN
      requires (Value(), Halves(d[0], d[1])) == FillP(mixed, salt, i / 2)
      modifies p, d
      ensures (Value(), Halves(d[0], d[1])) == FillP(mixed, salt, i / 2 + 1)
      ensures salt.Some? ==> next == 4 * (i + 2) % |salt.value|
    {
      hide Encoded, Salted;
      next := SaltStep(d, salt, j, i);
      EncodeOne(d);
      ghost var before := Value();
      p[i] := d[0];
      p[i + 1] := d[1];
      assert p[..] == before.p[i := d[0]][i + 1 := d[1]];
    }

    method PairS(ghost filled: Box, ghost h: Halves, salt: Option<seq<byte>>, d: array<bv32>, j: nat, i: nat) returns (next: nat)
      requires Valid() && (salt.Some? ==> |salt.value| > 0 && j == 4 * (P_LEN + i) % |salt.value|) && p != s && d != p && d != s
      requires Sized(filled) && d.Length == 2 && i % 2 == 0 && i < S_LEN
      requires (Value(), Halves(d[0], d[1])) == FillS(filled, h, salt, i / 2)
      modifies s, d
      ensures (Value(), Halves(d[0], d[1])) == FillS(filled, h, salt, i / 2 + 1)
      ensures salt.Some? ==> next == 4 * (P_LEN + i + 2) % |salt.value|
    {
      hide Encoded, Salted;
      next := SaltStep(d, salt, j, P_LEN + i);
      EncodeOne(d);
      ghost var before := Value();
      s[i] := d[0];
      s[i + 1] := d[1];
      assert s[..] == before.s[i := d[0]][i + 1 := d[1]];
    }

    /** The third loop goes on with S. */
    method ReplaceS(salt: Option<seq<byte>>, d: array<bv32>, start: nat)
      requires Valid() && (salt.Some? ==> |salt.value| > 0 && start == 4 * P_LEN % |salt.value|) && p != s && d != p && d != s
      requires d.Length == 2
      modifies s, d
      ensures Value() == FillS(old(Value()), old(Halves(d[0], d[1])), salt, |old(s[..])| / 2).0
    {
      hide Encoded, Salted;
      ghost var filled, h := Value(), Halves(d[0], d[1]);
      var i, j := 0, start;
      while i < S_LEN
        invariant 0 <= i <= S_LEN && i % 2 == 0
        invariant (Value(), Halves(d[0], d[1])) == FillS(filled, h, salt, i / 2)
        invariant salt.Some? ==> j == 4 * (P_LEN + i) % |salt.value|
      {
        j := PairS(filled, h, salt, d, j, i);
        i := i + 2;
      }
    }

    /** blowfish_expandkey (no salt) and blowfish_expandkey1. */
    method Expand(key: seq<byte>, salt: Option<seq<byte>>)
      requires Valid() && |key| > 0 && (salt.Some? ==> |salt.value| > 0) && p != s
      modifies p, s
      ensures Value() == Expanded(old(Value()), key, salt)
    {
      hide FillP, FillS, Mixed;
      MixKey(key);
      var d := new bv32[2](_ => 0);
      var j := ReplaceP(salt, d);
      ReplaceS(salt, d, j);
    }
  }
}
