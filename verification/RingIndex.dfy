/** Masks and wrapping positions of the task ring buffer. */
module RingIndex {
  import opened Bits
  import opened Bytes
  import opened NumberTheory

  predicate PowerOfTwo(x: nat)
  {
    x == 1 || (x > 0 && x % 2 == 0 && PowerOfTwo(x / 2))
  }

  /** The test of the source, x != 0 and (x & (x - 1)) == 0, recognises exactly the powers of two. */
  lemma {:induction false} CheckFindsPowers(x: nat)
    requires x > 0
    ensures BitAnd(x, x - 1) == 0 <==> PowerOfTwo(x)
  {
    var h := x / 2;
    if x % 2 == 1 {
      assert (x - 1) / 2 == h;
      AndSelf(h);
    } else {
      assert (x - 1) / 2 == h - 1;
      CheckFindsPowers(h);
    }
  }

  /** Masking with a power of two less one is taking the remainder. */
  lemma {:induction false} MaskIsRemainder(p: nat, x: nat)
    requires PowerOfTwo(x)
    ensures BitAnd(p, x - 1) == p % x
    decreases x
  {
    if x > 1 {
      var h := x / 2;
      assert (x - 1) / 2 == h - 1 && (x - 1) % 2 == 1;
      MaskIsRemainder(p / 2, h);
      HalfRemainder(p, h);
      if p == 0 {
        assert p % x == 0;
      }
    }
  }

  lemma HalfRemainder(p: nat, h: nat)
    requires h > 0
    ensures p % (2 * h) == 2 * (p / 2 % h) + p % 2
  {
    var q, r := p / 2 / h, p / 2 % h;
    assert p / 2 == q * h + r;
    assert p == q * (2 * h) + (2 * r + p % 2);
    DivModUnique(p, 2 * h, q, 2 * r + p % 2);
  }

  lemma {:induction false} PowerDivides(x: nat, n: nat)
    requires PowerOfTwo(x) && x <= Pow(2, n)
    ensures Pow(2, n) % x == 0
    decreases n
  {
    if x > 1 {
      var h := x / 2;
      assert Pow(2, n) == 2 * Pow(2, n - 1);
      PowerDivides(h, n - 1);
      HalfRemainder(Pow(2, n), h);
    }
  }

  lemma RemainderOfRemainder(p: nat, q: nat, r: nat, k: nat, x: nat)
    requires x > 0 && p == q * (k * x) + r
    ensures p % x == r % x
  {
    assert q * (k * x) == (q * k) * x;
    assert (q * k + r / x) * x == (q * k) * x + (r / x) * x;
    DivModUnique(p, x, q * k + r / x, r % x);
  }

  lemma WordSize()
    ensures Pow(2, 32) == U32
  {
    PowAdd(2, 16, 16);
    PowAdd(2, 8, 8);
    assert Pow(2, 8) == 256;
  }

  /** A position may wrap at 2^32 without changing its index, because the capacity divides 2^32. */
  lemma WrapKeepsIndex(p: nat, x: nat)
    requires PowerOfTwo(x) && x <= U32
    ensures p % U32 % x == p % x
  {
    WordSize();
    PowerDivides(x, 32);
    var k := U32 / x;
    assert U32 == k * x;
    RemainderOfRemainder(p, p / U32, p % U32, k, x);
  }

  /** What the code computes for position number `p`: the wrapped counter, masked. */
  lemma IndexOf(p: nat, x: nat)
    requires PowerOfTwo(x) && x <= U32
    ensures BitAnd(p % U32, x - 1) == p % x
  {
    MaskIsRemainder(p % U32, x);
    WrapKeepsIndex(p, x);
  }

  lemma Advance(p: nat)
    ensures (p % U32 + 1) % U32 == (p + 1) % U32
  {
  }

  /** Two positions at most a capacity apart have different indices. */
  lemma IndicesDiffer(p: nat, q: nat, x: nat)
    requires x > 0 && p < q < p + x
    ensures p % x != q % x
  {
    var d := q / x - p / x;
    if p % x == q % x {
      assert q - p == (q / x) * x - (p / x) * x == d * x;
      MultipleSize(x, d);
    }
  }
}
