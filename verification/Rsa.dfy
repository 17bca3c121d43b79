/** RSA with Chinese-remainder decoding: src/crypto/rsa.c. */
module Rsa {
  import opened Bytes
  import opened NumberTheory

  // ----- numbers as big-endian bytes: mpz_import, mpz_export and mpz_sizeinbase -----

  function Import(s: seq<byte>): (v: nat)
  {
    if s == [] then 0 else 256 * Import(s[..|s| - 1]) + s[|s| - 1] as nat
  }

  function Export(v: nat): (s: seq<byte>)
  {
    if v == 0 then [] else Export(v / 256) + [(v % 256) as byte]
  }

  function StripZeros(s: seq<byte>): (r: seq<byte>)
    ensures |r| <= |s|
  {
    if s != [] && s[0] == 0 then StripZeros(s[1..]) else s
  }

  function BitLength(v: nat): nat
  {
    if v == 0 then 0 else 1 + BitLength(v / 2)
  }

  lemma {:induction false} ImportExport(v: nat)
    ensures Import(Export(v)) == v
  {
    if v > 0 {
      ImportExport(v / 256);
      var s := Export(v);
      assert s[..|s| - 1] == Export(v / 256);
    }
  }

  lemma {:induction false} ExportImport(s: seq<byte>)
    ensures Export(Import(s)) == StripZeros(s)
    decreases |s|
  {
    if s != [] {
      var front, last := s[..|s| - 1], s[|s| - 1];
      ExportImport(front);
      StripFront(s);
      assert Import(s) / 256 == Import(front) && Import(s) % 256 == last as nat;
      if Import(s) == 0 {
        assert StripZeros(front) == [];
      } else if Import(front) == 0 {
        assert StripZeros(front) == [];
        assert Export(Import(s)) == [] + [last];
      }
    }
  }

  lemma {:induction false} StripFront(s: seq<byte>)
    requires s != []
    ensures StripZeros(s) == if StripZeros(s[..|s| - 1]) == [] && s[|s| - 1] == 0 then [] else StripZeros(s[..|s| - 1]) + [s[|s| - 1]]
    decreases |s|
  {
    var front, last := s[..|s| - 1], s[|s| - 1];
    if |s| > 1 && s[0] == 0 {
      StripFront(s[1..]);
      assert s[1..][..|s| - 2] == front[1..];
    } else if |s| == 1 {
      assert front == [];
    } else {
      assert s == front + [last];
    }
  }

  /** The first byte counts most: it stands for that many times 256 to the number of bytes after it. */
  lemma {:induction false} FirstByteCounts(s: seq<byte>)
    requires s != []
    ensures Import(s) == s[0] as nat * Pow(256, |s| - 1) + Import(s[1..])
  {
    if |s| == 1 {
      assert s[..0] == [] == s[1..];
    } else {
      var front := s[..|s| - 1];
      FirstByteCounts(front);
      assert front[1..] == s[1..][..|s| - 2];
      assert s[0] as nat * Pow(256, |s| - 1) == 256 * (s[0] as nat * Pow(256, |s| - 2));
    }
  }

  lemma {:induction false} ExportGrows(a: nat, b: nat)
    requires a <= b
    ensures |Export(a)| <= |Export(b)|
    decreases b
  {
    if a > 0 {
      ExportGrows(a / 256, b / 256);
    }
  }

  lemma FourBits(v: nat)
    requires v >= 16
    ensures BitLength(v) == 4 + BitLength(v / 16)
  {
    assert v / 2 / 2 == v / 4 && v / 4 / 2 == v / 8 && v / 8 / 2 == v / 16;
    assert BitLength(v) == 1 + BitLength(v / 2);
    assert BitLength(v / 2) == 1 + BitLength(v / 4);
    assert BitLength(v / 4) == 1 + BitLength(v / 8);
    assert BitLength(v / 8) == 1 + BitLength(v / 16);
  }

  lemma EightBits(v: nat)
    requires v >= 256
    ensures BitLength(v) == 8 + BitLength(v / 256)
  {
    FourBits(v);
    FourBits(v / 16);
    assert v / 16 / 16 == v / 256;
  }

  /** The byte count in the source's macro is the length of the exported number. */
  lemma {:induction false} SizeInBytes(v: nat)
    ensures (BitLength(v) + 7) / 8 == |Export(v)|
  {
    if v >= 256 {
      SizeInBytes(v / 256);
      EightBits(v);
    } else if v > 0 {
      assert v / 256 == 0;
      SmallBits(v);
    }
  }

  lemma SmallBits(v: nat)
    requires 0 < v < 256
    ensures 1 <= BitLength(v) <= 8
  {
    if v >= 16 {
      FourBits(v);
      assert 1 <= v / 16 < 16;
    }
  }

  // ----- the key -----

  /** lambda, the exponent modulus of the key. */
  function Lambda(p: nat, q: nat): (l: nat)
    requires p >= 2 && q >= 2
  {
    Lcm(p - 1, q - 1)
  }

  /** The exponents e that rsa_setkey accepts. */
  predicate Accepted(p: nat, q: nat, e: nat)
    requires p >= 2 && q >= 2
  {
    e < Lambda(p, q) && Gcd(Lambda(p, q), e) == 1
  }

  function Private(p: nat, q: nat, e: nat): (d: nat)
    requires p >= 2 && q >= 2
  {
    LcmMultiple(p - 1, q - 1);
    Invert(e, Lambda(p, q))
  }

  function Encode(m: nat, e: nat, n: nat): (c: nat)
    requires n > 0
    ensures c < n
  {
    Pow(m, e) % n
  }

  /** x2 + ((x1 - x2) * qi mod p) * q, with the correction by p when x1 < x2. */
  function Recombine(x1: nat, x2: nat, p: nat, q: nat, qi: nat): (r: nat)
    requires p > 0
  {
    var x3 := if x1 < x2 then x1 - x2 + p else x1 - x2;
    var h: nat := (x3 * qi) % p;
    MultipleNonNegative(h, q);
    x2 + h * q
  }

  lemma MultipleNonNegative(a: nat, b: nat)
    ensures a * b >= 0
  {
  }

  function Decode(c: nat, p: nat, q: nat, e: nat): (m: nat)
    requires p >= 2 && q >= 2
  {
    var d := Private(p, q, e);
    Recombine(Pow(c, d % (p - 1)) % p, Pow(c, d % (q - 1)) % q, p, q, Invert(q, p))
  }

  // ----- recombination -----

  lemma DigitsBelow(h: nat, p: nat, x: nat, q: nat)
    requires h < p && x < q
    ensures x + h * q < p * q
  {
    var k := p - 1 - h;
    assert k * q >= 0;
    assert (h + k + 1) * q == h * q + k * q + q;
  }

  lemma RecombineRange(x1: nat, x2: nat, p: nat, q: nat, qi: nat)
    requires x1 < p && x2 < q
    ensures Recombine(x1, x2, p, q, qi) < p * q
    ensures Recombine(x1, x2, p, q, qi) % q == x2
  {
    var x3 := if x1 < x2 then x1 - x2 + p else x1 - x2;
    var h := (x3 * qi) % p;
    DigitsBelow(h, p, x2, q);
    DivModUnique(x2 + h * q, q, h, x2);
  }

  lemma RecombineResidue(x1: nat, x2: nat, p: nat, q: nat, qi: nat)
    requires x1 < p && Congruent(q * qi, 1, p)
    ensures Recombine(x1, x2, p, q, qi) % p == x1
  {
    var x3 := if x1 < x2 then x1 - x2 + p else x1 - x2;
    var h := (x3 * qi) % p;
    CongruentMod(x3 * qi, p);
    MultipleDivides(p, 0);
    CongruentTimes(h, x3 * qi, q, q, p);
    CongruentTimes(x3, x3, q * qi, 1, p);
    assert (x3 * qi) * q == x3 * (q * qi);
    CongruentTransitive(h * q, x3 * (q * qi), x3, p);
    // x2 + h * q - x1 == (h * q - x3) + (x3 + x2 - x1), and the latter is 0 or p
    MultipleDivides(p, 1);
    DividesSum(p, h * q - x3, x3 + x2 - x1);
    SameResidue(x2 + h * q, x1, p);
    DivModUnique(x1, p, 0, x1);
  }

  // ----- exponents -----

  lemma GcdSymmetric(a: nat, b: nat)
    ensures Gcd(a, b) == Gcd(b, a)
  {
    if a < b {
      DivModUnique(a, b, 0, a);
    } else if b < a {
      DivModUnique(b, a, 0, b);
    }
  }

  /** e * d is 1 modulo lambda, hence modulo p - 1 and q - 1. */
  lemma PrivateInverts(p: nat, q: nat, e: nat)
    requires p >= 2 && q >= 2 && Accepted(p, q, e)
    ensures Congruent(e * Private(p, q, e), 1, p - 1) && Congruent(e * Private(p, q, e), 1, q - 1)
  {
    LcmMultiple(p - 1, q - 1);
    GcdSymmetric(Lambda(p, q), e);
    InvertInverts(e, Lambda(p, q));
    DividesTransitive(p - 1, Lambda(p, q), e * Private(p, q, e) - 1);
    DividesTransitive(q - 1, Lambda(p, q), e * Private(p, q, e) - 1);
  }

  /** e * d == 1 modulo m */
  predicate InverseOf(d: nat, e: nat, m: nat)
    requires m > 0
  {
    Congruent(e * d, 1, m)
  }

  lemma CoprimeIfInverse(d: nat, e: nat, m: nat)
    requires m > 0 && InverseOf(d, e, m)
    ensures Gcd(m, e) == 1
  {
    var g := Gcd(m, e);
    GcdDivides(m, e);
    DividesTransitive(g, m, e * d - 1);
    DividesProduct(g, e, d);
    DividesSum(g, e * d, e * d - 1);
    var k := Quotient(g, 1);
    MultipleSize(g, k);
  }

  /** The accepted exponents are those below lambda that some d undoes modulo lambda. */
  lemma AcceptedIffInvertible(p: nat, q: nat, e: nat)
    requires p >= 2 && q >= 2
    ensures Lcm(p - 1, q - 1) > 0
    ensures var l := Lcm(p - 1, q - 1); Accepted(p, q, e) <==> e < l && exists d: nat :: InverseOf(d, e, l)
  {
    var l := Lcm(p - 1, q - 1);
    LcmMultiple(p - 1, q - 1);
    if Accepted(p, q, e) {
      GcdSymmetric(l, e);
      InvertInverts(e, l);
      assert InverseOf(Invert(e, l), e, l);
    }
    forall d: nat | InverseOf(d, e, l)
      ensures Gcd(l, e) == 1
    {
      CoprimeIfInverse(d, e, l);
    }
  }

  lemma NotZero(e: nat, d: nat, m: nat)
    requires m >= 2 && Congruent(e * d, 1, m)
    ensures e > 0 && d > 0 && d % m > 0 && e * d > 0
  {
    if d % m == 0 {
      DividesProduct(m, d, e);
      DividesSum(m, e * d, e * d - 1);
      DivModUnique(1, m, 0, 1);
    }
    if e == 0 || d == 0 {
      assert e * d == 0;
      DivModUnique(-1, m, -1, m - 1);
    } else {
      MultipleSize(e, d);
    }
  }

  /** Half of a decoding: the reduced exponent gives c^d modulo an odd prime. */
  lemma ReducedExponent(c: nat, d: nat, r: int)
    requires Prime(r) && d % (r - 1) > 0
    ensures Pow(c, d % (r - 1)) % r == Pow(c, d) % r
  {
    CongruentMod(d, r - 1);
    assert d == (r - 1) * (d / (r - 1)) + d % (r - 1);
    MultipleSize(r - 1, d / (r - 1));
    FermatExponent(r, c, d, d % (r - 1));
    SameResidue(Pow(c, d), Pow(c, d % (r - 1)), r);
  }

  /** For every ciphertext, decoding is the power c^d modulo n. */
  lemma DecodeIsPower(c: nat, p: nat, q: nat, e: nat)
    requires Prime(p) && Prime(q) && p != q && p != 2 && q != 2 && Accepted(p, q, e)
    ensures p * q > 0 && Decode(c, p, q, e) == Pow(c, Private(p, q, e)) % (p * q)
  {
    var d := Private(p, q, e);
    PrivateInverts(p, q, e);
    NotZero(e, d, p - 1);
    NotZero(e, d, q - 1);
    var x1, x2 := Pow(c, d % (p - 1)) % p, Pow(c, d % (q - 1)) % q;
    var r := Decode(c, p, q, e);
    DistinctPrimes(p, q);
    PrimeCoprime(p, q);
    InvertInverts(q, p);
    RecombineRange(x1, x2, p, q, Invert(q, p));
    RecombineResidue(x1, x2, p, q, Invert(q, p));
    ReducedExponent(c, d, p);
    ReducedExponent(c, d, q);
    CongruentWhenSameResidue(r, Pow(c, d), p);
    CongruentWhenSameResidue(r, Pow(c, d), q);
    CongruentProduct(r, Pow(c, d), p, q);
    SameResidue(r, Pow(c, d), p * q);
    DivModUnique(r, p * q, 0, r);
  }

  /** m^(e d) is m modulo an odd prime. */
  lemma ExponentsCancel(m: nat, e: nat, d: nat, r: int)
    requires Prime(r) && r != 2 && Congruent(e * d, 1, r - 1)
    ensures Congruent(Pow(Pow(m, e), d), m, r)
  {
    NotZero(e, d, r - 1);
    PowOfPow(m, e, d);
    FermatExponent(r, m, e * d, 1);
    assert Pow(m, 1) == m * Pow(m, 0) == m;
  }

  /** Decoding undoes encoding for every message below n, multiples of p or q included. */
  lemma RoundTrip(m: nat, p: nat, q: nat, e: nat)
    requires Prime(p) && Prime(q) && p != q && p != 2 && q != 2 && Accepted(p, q, e)
    requires m < p * q
    ensures Decode(Encode(m, e, p * q), p, q, e) == m
  {
    var n, d := p * q, Private(p, q, e);
    var c := Encode(m, e, n);
    DecodeIsPower(c, p, q, e);
    PrivateInverts(p, q, e);
    ExponentsCancel(m, e, d, p);
    ExponentsCancel(m, e, d, q);
    CongruentProduct(Pow(Pow(m, e), d), m, p, q);
    CongruentMod(Pow(m, e), n);
    CongruentPow(c, Pow(m, e), d, n);
    CongruentTransitive(Pow(c, d), Pow(Pow(m, e), d), m, n);
    SameResidue(Pow(c, d), m, n);
    DivModUnique(m, n, 0, m);
  }

  lemma ZeroEncoded(e: nat, n: nat)
    requires e > 0 && n > 0
    ensures Encode(0, e, n) == 0
  {
    assert Pow(0, e) == 0 * Pow(0, e - 1) == 0;
    DivModUnique(0, n, 0, 0);
  }

  /** With the prime 2 the reduced exponent is 0 and the message 0 comes back as something else. */
  lemma TwoBreaksZero(p: nat, q: nat, e: nat)
    requires Prime(p) && Prime(q) && p != q && (p == 2 || q == 2) && Accepted(p, q, e)
    ensures 0 < p * q && Decode(Encode(0, e, p * q), p, q, e) != 0
  {
    var d := Private(p, q, e);
    PrivateInverts(p, q, e);
    var r := if p == 2 then q else p;
    assert r >= 3;
    NotZero(e, d, r - 1);
    DistinctPrimes(p, q);
    ZeroEncoded(e, p * q);
    var c := Encode(0, e, p * q);
    var x1, x2 := Pow(c, d % (p - 1)) % p, Pow(c, d % (q - 1)) % q;
    PrimeCoprime(p, q);
    InvertInverts(q, p);
    RecombineRange(x1, x2, p, q, Invert(q, p));
    RecombineResidue(x1, x2, p, q, Invert(q, p));
  }

  /** Such a key: 2, 5 and the exponent 3. */
  lemma TwoIsAccepted()
    ensures Prime(2) && Prime(5) && Accepted(2, 5, 3) && Decode(Encode(0, 3, 10), 2, 5, 3) != 0
  {
    TwoBreaksZero(2, 5, 3);
  }

  /** Among distinct primes, exactly the odd ones give a key that decodes everything it encodes. */
  lemma RoundTripIffOdd(p: nat, q: nat, e: nat)
    requires Prime(p) && Prime(q) && p != q && Accepted(p, q, e)
    ensures p * q > 0
    ensures (forall m: nat :: m < p * q ==> Decode(Encode(m, e, p * q), p, q, e) == m) <==> p != 2 && q != 2
  {
    if p == 2 || q == 2 {
      TwoBreaksZero(p, q, e);
    } else {
      forall m: nat | m < p * q
        ensures Decode(Encode(m, e, p * q), p, q, e) == m
      {
        RoundTrip(m, p, q, e);
      }
    }
  }

  /** On bytes: what comes back is the message without its leading zeros. */
  lemma RoundTripBytes(s: seq<byte>, p: nat, q: nat, e: nat)
    requires Prime(p) && Prime(q) && p != q && p != 2 && q != 2 && Accepted(p, q, e)
    requires Import(s) < p * q
    ensures Export(Decode(Import(Export(Encode(Import(s), e, p * q))), p, q, e)) == StripZeros(s)
  {
    ImportExport(Encode(Import(s), e, p * q));
    RoundTrip(Import(s), p, q, e);
    ExportImport(s);
  }

  // ----- the context -----

  class RsaCtx {
    var p: nat
    var q: nat
    var n: nat
    var e: nat
    var dp: nat
    var dq: nat
    var qi: nat
    var encodingLimit: nat

    /** rsa_init */
    constructor ()
      ensures !Keyed()
    {
      p, q, n, e, dp, dq, qi, encodingLimit := 0, 0, 0, 0, 0, 0, 0, 0;
    }

    /** A key has been set. */
    ghost predicate Keyed()
      reads this
    {
      && Prime(p) && Prime(q) && p != q && n == p * q && Accepted(p, q, e)
      && dp == Private(p, q, e) % (p - 1) && dq == Private(p, q, e) % (q - 1) && qi == Invert(q, p)
      && encodingLimit == |Export(n)|
    }

    /** rsa_setkey, on the numbers its strings denote. */
    method SetKey(p: nat, q: nat, e: nat) returns (ok: bool)
      requires Prime(p) && Prime(q) && p != q
      modifies this
      ensures Lcm(p - 1, q - 1) > 0
      ensures var l := Lcm(p - 1, q - 1); ok <==> e < l && exists d: nat :: InverseOf(d, e, l)
      ensures ok <==> Accepted(p, q, e)
      ensures ok ==> Keyed()
      ensures this.p == p && this.q == q && this.e == e && n == p * q
      ensures !ok ==> dp == old(dp) && dq == old(dq) && qi == old(qi) && encodingLimit == old(encodingLimit)
    {
      MultipleNonNegative(p, q);
      this.p, this.q, this.e, this.n := p, q, e, p * q;
      var x0, x1 := p - 1, q - 1;
      var x2 := Lcm(x0, x1);
      LcmMultiple(x0, x1);
      AcceptedIffInvertible(p, q, e);
      if x2 <= e {
        return false;
      }
      var x3 := Gcd(x2, e);
      if x3 != 1 {
        return false;
      }
      x3 := Invert(e, x2);
      dp := x3 % x0;
      dq := x3 % x1;
      qi := Invert(q, p);
      SizeInBytes(n);
      encodingLimit := (BitLength(n) + 7) / 8;
      return true;
    }

    /** rsa_encode: the bytes of m^e mod n over the bytes of m. */
    method EncodeBytes(data: array<byte>, len: nat) returns (outlen: nat)
      requires Keyed() && len <= data.Length && encodingLimit <= data.Length
      modifies data
      ensures n > 0 && outlen <= encodingLimit
      ensures data[..outlen] == Export(Encode(Import(old(data[..len])), e, n))
      ensures data[outlen..] == old(data[outlen..])
    {
      MultipleSize(p, q);
      var x0 := Import(data[..len]);
      var x1 := Pow(x0, e) % n;
      ExportGrows(x1, n);
      outlen := Store(data, x1);
    }

    /** rsa_decode */
    method DecodeBytes(data: array<byte>, len: nat) returns (outlen: nat)
      requires Keyed() && len <= data.Length && encodingLimit <= data.Length
      modifies data
      ensures outlen <= encodingLimit
      ensures data[..outlen] == Export(Decode(Import(old(data[..len])), p, q, e))
      ensures data[outlen..] == old(data[outlen..])
    {
      hide Prime, Pow, Invert, Private, Export, Import;
      var x0 := Import(data[..len]);
      var x1 := Pow(x0, dp) % p;
      var x2 := Pow(x0, dq) % q;
      var x3: int := x1 - x2;
      if x1 < x2 {
        x3 := x3 + p;
      }
      x3 := x3 * qi;
      x3 := x3 % p;
      RecombineRange(x1, x2, p, q, qi);
      MultipleNonNegative(x3, q);
      x2 := x2 + x3 * q;
      ExportGrows(x2, n);
      outlen := Store(data, x2);
    }

    /** mpz_export into the front of a buffer. */
    static method Store(data: array<byte>, v: nat) returns (outlen: nat)
      requires |Export(v)| <= data.Length
      modifies data
      ensures outlen == |Export(v)| && data[..outlen] == Export(v) && data[outlen..] == old(data[outlen..])
    {
      var s := Export(v);
      outlen := |s|;
      for i := 0 to outlen
        invariant data[..i] == s[..i]
        invariant data[outlen..] == old(data[outlen..])
      {
        data[i] := s[i];
      }
    }
  }

  /** Encoding and decoding a buffer that holds a message below n returns the message without leading zeros. */
  method EncodeThenDecode(r: RsaCtx, data: array<byte>, len: nat) returns (outlen: nat)
    requires r.Keyed() && r.p != 2 && r.q != 2 && len <= data.Length && r.encodingLimit <= data.Length
    requires Import(data[..len]) < r.n
    modifies data
    ensures outlen <= data.Length && data[..outlen] == StripZeros(old(data[..len]))
  {
    RoundTripBytes(data[..len], r.p, r.q, r.e);
    outlen := r.EncodeBytes(data, len);
    outlen := r.DecodeBytes(data, outlen);
  }
}
