/** The Adler-32 checksum with deferred modulo (src/adler32.c; section 2.2 of RFC 1950). */
module Adler {
  import opened Bytes
  import opened NumberTheory

  const BASE := 65521
  const NMAX := 5552

  /** The two sums after the bytes of `s`, without any reduction. */
  function Sums(a: nat, b: nat, s: seq<byte>): (nat, nat)
  {
    if s == [] then (a, b) else
      var p := Sums(a, b, s[..|s| - 1]);
      var a1 := p.0 + s[|s| - 1] as int;
      (a1, p.1 + a1)
  }

  /** The definition of RFC 1950: both sums reduced modulo 65521 after every byte, starting from 1 and 0. */
  function Reduced(s: seq<byte>): (nat, nat)
  {
    if s == [] then (1, 0) else
      var p := Reduced(s[..|s| - 1]);
      var a1 := (p.0 + s[|s| - 1] as int) % BASE;
      (a1, (p.1 + a1) % BASE)
  }

  function Checksum(s: seq<byte>): int
  {
    Reduced(s).1 * 0x1_0000 + Reduced(s).0
  }

  function Mod(p: (nat, nat), m: nat): (nat, nat)
    requires m > 0
  {
    (p.0 % m, p.1 % m)
  }

  lemma {:induction false} SumsAppend(a: nat, b: nat, s: seq<byte>, t: seq<byte>)
    ensures Sums(a, b, s + t) == Sums(Sums(a, b, s).0, Sums(a, b, s).1, t)
  {
    if t == [] {
      assert s + t == s;
    } else {
      SumsAppend(a, b, s, t[..|t| - 1]);
      assert (s + t)[..|s + t| - 1] == s + t[..|t| - 1];
    }
  }

  lemma {:induction false} SumsShift(a: nat, b: nat, da: nat, db: nat, s: seq<byte>)
    ensures Sums(a + da, b + db, s) == (Sums(a, b, s).0 + da, Sums(a, b, s).1 + db + |s| * da)
  {
    if s != [] {
      SumsShift(a, b, da, db, s[..|s| - 1]);
      assert |s| * da == (|s| - 1) * da + da;
    }
  }

  lemma ModAddMultiple(x: nat, q: nat, m: nat)
    requires m > 0
    ensures (x + q * m) % m == x % m
  {
    assert (x / m + q) * m == (x / m) * m + q * m;
    DivModUnique(x + q * m, m, x / m + q, x % m);
  }

  lemma SumsMultiple(a: nat, b: nat, qa: nat, qb: nat, s: seq<byte>, m: nat)
    requires m > 0
    ensures Mod(Sums(a + qa * m, b + qb * m, s), m) == Mod(Sums(a, b, s), m)
  {
    var p := Sums(a, b, s);
    SumsShift(a, b, qa * m, qb * m, s);
    ModAddMultiple(p.0, qa, m);
    Regroup(qb, |s|, qa, m);
    ModAddMultiple(p.1, qb + |s| * qa, m);
  }

  /** The sums modulo `m` depend on the starting values modulo `m` only. */
  lemma SumsMod(a: nat, b: nat, s: seq<byte>, m: nat)
    requires m > 0
    ensures Mod(Sums(a % m, b % m, s), m) == Mod(Sums(a, b, s), m)
  {
    SumsMultiple(a % m, b % m, a / m, b / m, s, m);
    DivModParts(a, m);
    DivModParts(b, m);
  }

  lemma DivModParts(x: nat, m: nat)
    requires m > 0
    ensures x % m + (x / m) * m == x
  {
  }

  lemma Regroup(x: nat, y: nat, z: nat, m: nat)
    ensures x * m + y * (z * m) == (x + y * z) * m
  {
  }

  lemma SumsCompose(a: nat, b: nat, s: seq<byte>, t: seq<byte>, m: nat)
    requires m > 0
    ensures Mod(Sums(Sums(a, b, s).0 % m, Sums(a, b, s).1 % m, t), m) == Mod(Sums(a, b, s + t), m)
  {
    SumsAppend(a, b, s, t);
    SumsMod(Sums(a, b, s).0, Sums(a, b, s).1, t, m);
  }

  lemma ModSum(x: nat, y: nat, m: nat)
    requires m > 0
    ensures (x + y) % m == (x % m + y % m) % m
  {
    DivModParts(x, m);
    DivModParts(y, m);
    ModSumParts(x / m, x % m, y / m, y % m, m);
  }

  lemma ModSumParts(q: nat, r: nat, t: nat, u: nat, m: nat)
    requires m > 0
    ensures (r + q * m + (u + t * m)) % m == (r + u) % m
  {
    ModAddMultiple(r + u, q + t, m);
    SumTimes(q, t, m);
  }

  lemma SumTimes(q: nat, r: nat, m: nat)
    ensures (q + r) * m == q * m + r * m
  {
  }

  /** Deferring the reduction does not change the checksum. */
  lemma {:induction false} DeferredModulo(s: seq<byte>)
    ensures Mod(Sums(1, 0, s), BASE) == Reduced(s)
  {
    if s != [] {
      var front, last := s[..|s| - 1], s[|s| - 1] as int;
      DeferredModulo(front);
      var p := Sums(1, 0, front);
      ModSum(p.0, last, BASE);
      ModSum(p.1, p.0 + last, BASE);
      assert last % BASE == last;
    }
  }

  /** The sum of the bytes, and the sum of the bytes weighted with how many bytes there are from each on. */
  function Total(s: seq<byte>): nat
  {
    if s == [] then 0 else s[0] as nat + Total(s[1..])
  }

  function Weighted(s: seq<byte>): nat
  {
    if s == [] then 0 else |s| * s[0] as nat + Weighted(s[1..])
  }

  lemma SmallSums(a: nat, b: nat, x: byte)
    ensures Sums(a, b, []) == (a, b) && Sums(a, b, [x]) == (a + x as nat, b + (a + x as nat))
  {
    assert [x][..0] == [];
  }

  lemma Spread(n: nat, a: nat, x: nat)
    ensures (n - 1) * (a + x) + (a + x) == n * a + n * x
  {
  }

  lemma {:induction false} SumsAreTotals(a: nat, b: nat, s: seq<byte>)
    ensures Sums(a, b, s) == (a + Total(s), b + |s| * a + Weighted(s))
    decreases |s|
  {
    hide Sums;
    if s == [] {
      SmallSums(a, b, 0);
    } else {
      var x := s[0] as nat;
      assert [s[0]] + s[1..] == s;
      SumsAppend(a, b, [s[0]], s[1..]);
      SmallSums(a, b, s[0]);
      SumsAreTotals(a + x, b + (a + x), s[1..]);
      Spread(|s|, a, x);
    }
  }

  lemma TwoHalves(hi: nat, lo: nat)
    requires lo < 0x1_0000
    ensures (hi * 0x1_0000 + lo) % 0x1_0000 == lo && (hi * 0x1_0000 + lo) / 0x1_0000 == hi
  {
  }

  /** The checksum in closed form: below, one more than the sum of the bytes; above, the number of bytes and the bytes
      weighted, the first with that number and the last with one. */
  lemma ClosedForm(s: seq<byte>)
    ensures Checksum(s) % 0x1_0000 == (1 + Total(s)) % BASE
    ensures Checksum(s) / 0x1_0000 == (|s| + Weighted(s)) % BASE
  {
    hide Sums, Reduced, Total, Weighted;
    DeferredModulo(s);
    SumsAreTotals(1, 0, s);
    TwoHalves(Reduced(s).1, Reduced(s).0);
  }

  // ----- how long a chunk may be -----

  /** The largest value the second sum can reach over `n` bytes from reduced sums. */
  function Peak(n: nat): nat
  {
    (n + 1) * (BASE - 1) + Triangle(n) * 255
  }

  function Triangle(n: nat): (t: nat)
    ensures 2 * t == n * (n + 1)
  {
    if n == 0 then 0 else
      assert n * (n + 1) == (n - 1) * n + 2 * n;
      Triangle(n - 1) + n
  }

  lemma {:induction false} SumsBounded(a: nat, b: nat, s: seq<byte>)
    requires a < BASE && b < BASE
    ensures Sums(a, b, s).0 <= BASE - 1 + 255 * |s| && Sums(a, b, s).1 <= Peak(|s|)
  {
    if s != [] {
      SumsBounded(a, b, s[..|s| - 1]);
      assert Triangle(|s|) == Triangle(|s| - 1) + |s|;
      assert (|s| + 1) * (BASE - 1) == |s| * (BASE - 1) + (BASE - 1);
    }
  }

  function Full(n: nat): (s: seq<byte>)
    ensures |s| == n
  {
    if n == 0 then [] else Full(n - 1) + [255]
  }

  lemma {:induction false} PeakReached(n: nat)
    ensures Sums(BASE - 1, BASE - 1, Full(n)) == (BASE - 1 + 255 * n, Peak(n))
  {
    if n > 0 {
      PeakReached(n - 1);
      assert Full(n)[..n - 1] == Full(n - 1);
      assert (n + 1) * (BASE - 1) == n * (BASE - 1) + (BASE - 1);
    }
  }

  lemma PeakFits(n: nat)
    ensures Peak(n) < U32 <==> n <= NMAX
  {
    assert 2 * Triangle(NMAX) == NMAX * (NMAX + 1);
    assert 2 * Triangle(NMAX + 1) == (NMAX + 1) * (NMAX + 2);
    PeakGrows(n, NMAX);
    PeakGrows(NMAX + 1, n);
  }

  lemma {:induction false} PeakGrows(m: nat, n: nat)
    ensures m <= n ==> Peak(m) <= Peak(n)
    decreases n
  {
    if m < n {
      PeakGrows(m, n - 1);
      assert Triangle(n) == Triangle(n - 1) + n;
      assert (n + 1) * (BASE - 1) == n * (BASE - 1) + (BASE - 1);
    }
  }

  /** 5552 is the largest chunk: over n bytes, from any reduced sums, both sums stay below 2^32 exactly when n <= 5552. */
  lemma ChunkFits(n: nat)
    ensures n <= NMAX <==> (forall a: nat, b: nat, s: seq<byte> {:trigger Sums(a, b, s)} :: a < BASE && b < BASE && |s| == n ==> Sums(a, b, s).0 < U32 && Sums(a, b, s).1 < U32)
  {
    PeakFits(n);
    if n <= NMAX {
      forall a: nat, b: nat, s: seq<byte> | a < BASE && b < BASE && |s| == n ensures Sums(a, b, s).0 < U32 && Sums(a, b, s).1 < U32 {
        SumsBounded(a, b, s);
      }
    } else {
      PeakReached(n);
      assert Sums(BASE - 1, BASE - 1, Full(n)).1 >= U32;
    }
  }

  // ----- the code; additions are those of uint32 -----

  method Do1(buf: array<byte>, i: nat, a0: nat, b0: nat) returns (a: nat, b: nat)
    requires i < buf.Length
    ensures (a, b) == Mod(Sums(a0, b0, buf[i..i + 1]), U32)
  {
    a := (a0 + buf[i] as int) % U32;
    b := (b0 + a) % U32;
    assert buf[i..i + 1] == [buf[i]];
    assert Sums(a0, b0, []) == (a0, b0);
  }

  lemma Chain(buf: array<byte>, i: nat, j: nat, k: nat, a: nat, b: nat)
    requires i <= j <= k <= buf.Length
    ensures Mod(Sums(Sums(a, b, buf[i..j]).0 % U32, Sums(a, b, buf[i..j]).1 % U32, buf[j..k]), U32) == Mod(Sums(a, b, buf[i..k]), U32)
  {
    SumsCompose(a, b, buf[i..j], buf[j..k], U32);
    assert buf[i..j] + buf[j..k] == buf[i..k];
  }

  method Do2(buf: array<byte>, i: nat, a0: nat, b0: nat) returns (a: nat, b: nat)
    requires i + 2 <= buf.Length
    ensures (a, b) == Mod(Sums(a0, b0, buf[i..i + 2]), U32)
  {
    a, b := Do1(buf, i, a0, b0);
    a, b := Do1(buf, i + 1, a, b);
    Chain(buf, i, i + 1, i + 2, a0, b0);
  }

  method Do4(buf: array<byte>, i: nat, a0: nat, b0: nat) returns (a: nat, b: nat)
    requires i + 4 <= buf.Length
    ensures (a, b) == Mod(Sums(a0, b0, buf[i..i + 4]), U32)
  {
    a, b := Do2(buf, i, a0, b0);
    a, b := Do2(buf, i + 2, a, b);
    Chain(buf, i, i + 2, i + 4, a0, b0);
  }

  method Do8(buf: array<byte>, i: nat, a0: nat, b0: nat) returns (a: nat, b: nat)
    requires i + 8 <= buf.Length
    ensures (a, b) == Mod(Sums(a0, b0, buf[i..i + 8]), U32)
  {
    a, b := Do4(buf, i, a0, b0);
    a, b := Do4(buf, i + 4, a, b);
    Chain(buf, i, i + 4, i + 8, a0, b0);
  }

  method Do16(buf: array<byte>, i: nat, a0: nat, b0: nat) returns (a: nat, b: nat)
    requires i + 16 <= buf.Length
    ensures (a, b) == Mod(Sums(a0, b0, buf[i..i + 16]), U32)
  {
    a, b := Do8(buf, i, a0, b0);
    a, b := Do8(buf, i + 8, a, b);
    Chain(buf, i, i + 8, i + 16, a0, b0);
  }

  /** Over a chunk no addition wraps. */
  lemma ChunkExact(a: nat, b: nat, s: seq<byte>)
    requires a < BASE && b < BASE && |s| <= NMAX
    ensures Mod(Sums(a, b, s), U32) == Sums(a, b, s)
  {
    hide Sums, Peak, Triangle;
    SumsBounded(a, b, s);
    PeakFits(|s|);
  }

  /** One chunk: sixteen bytes at a time, then the rest one by one. The sums come out exact: nothing wraps. */
  method Chunk(buf: array<byte>, from: nat, count: nat, a0: nat, b0: nat) returns (a: nat, b: nat)
    requires from + count <= buf.Length && count <= NMAX && a0 < BASE && b0 < BASE
    ensures (a, b) == Sums(a0, b0, buf[from..from + count])
  {
    assert Sums(a0, b0, []) == (a0, b0);
    hide Sums;
    ChunkExact(a0, b0, buf[from..from + count]);
    a, b := a0, b0;
    var p: nat, k: nat := from, count;
    assert buf[from..p] == [];
    while k >= 16
      invariant p + k == from + count && from <= p
      invariant (a, b) == Mod(Sums(a0, b0, buf[from..p]), U32)
    {
      Chain(buf, from, p, p + 16, a0, b0);
      a, b := Do16(buf, p, a, b);
      p, k := p + 16, k - 16;
    }
    while k != 0
      invariant p + k == from + count && from <= p
      invariant (a, b) == Mod(Sums(a0, b0, buf[from..p]), U32)
    {
      Chain(buf, from, p, p + 1, a0, b0);
      a, b := Do1(buf, p, a, b);
      p, k := p + 1, k - 1;
    }
  }

  /** adler32 over the `len` bytes from `from` on. */
  method Adler32(buf: array<byte>, from: nat, len: nat) returns (r: int)
    requires from + len <= buf.Length
    ensures r == Checksum(buf[from..from + len]) && 0 <= r < U32
  {
    var a: nat, b: nat := 1, 0;
    var p: nat, left: nat := from, len;
    assert buf[from..p] == [];
    while left > 0
      invariant p + left == from + len && from <= p
      invariant (a, b) == Mod(Sums(1, 0, buf[from..p]), BASE)
    {
      var k := if left > NMAX then NMAX else left;
      left := left - k;
      SumsCompose(1, 0, buf[from..p], buf[p..p + k], BASE);
      assert buf[from..p] + buf[p..p + k] == buf[from..p + k];
      a, b := Chunk(buf, p, k, a, b);
      p := p + k;
      a, b := a % BASE, b % BASE;
    }
    DeferredModulo(buf[from..from + len]);
    // a is below 2^16, so a | (b << 16) is this sum
    r := a + b * 0x1_0000;
  }
}
