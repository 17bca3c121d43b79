/** The number theory under RSA: divisibility, greatest common divisors, inverses and Fermat's little theorem. */
module NumberTheory {

  function Pow(b: int, e: nat): (r: int)
    ensures b >= 0 ==> r >= 0
  {
    if e == 0 then 1 else b * Pow(b, e - 1)
  }

  predicate Divides(m: int, x: int)
    requires m > 0
  {
    x % m == 0
  }

  predicate Congruent(a: int, b: int, m: int)
    requires m > 0
  {
    Divides(m, a - b)
  }

  // ----- division with remainder -----

  lemma MultipleSize(m: int, k: int)
    requires m > 0
    ensures k >= 1 ==> m * k >= m
    ensures k <= 0 ==> m * k <= 0
    ensures k <= -1 ==> m * k <= -m
  {
    if k >= 1 {
      assert m * (k - 1) >= 0;
    } else if k <= -1 {
      assert m * (-1 - k) >= 0;
    }
  }

  lemma DivModUnique(x: int, m: int, q: int, r: int)
    requires m > 0 && x == q * m + r && 0 <= r < m
    ensures x / m == q && x % m == r
  {
    var d := q - x / m;
    assert m * d == x % m - r by {
      assert x == m * (x / m) + x % m;
      assert m * (q - x / m) == m * q - m * (x / m);
    }
    MultipleSize(m, d);
  }

  lemma MultipleDivides(m: int, k: int)
    requires m > 0
    ensures Divides(m, k * m) && Divides(m, m * k)
  {
    DivModUnique(k * m, m, k, 0);
    assert m * k == k * m;
  }

  lemma Quotient(m: int, x: int) returns (k: int)
    requires m > 0 && Divides(m, x)
    ensures x == m * k
  {
    k := x / m;
    assert x == m * (x / m) + x % m;
  }

  lemma DividesSum(m: int, a: int, b: int)
    requires m > 0 && Divides(m, a) && Divides(m, b)
    ensures Divides(m, a + b) && Divides(m, a - b)
  {
    var k := Quotient(m, a);
    var l := Quotient(m, b);
    MultipleDivides(m, k + l);
    MultipleDivides(m, k - l);
    assert m * (k + l) == a + b;
    assert m * (k - l) == a - b;
  }

  lemma DividesProduct(m: int, a: int, c: int)
    requires m > 0 && Divides(m, a)
    ensures Divides(m, a * c) && Divides(m, c * a)
  {
    var k := Quotient(m, a);
    MultipleDivides(m, k * c);
    assert m * (k * c) == (m * k) * c == a * c;
    assert c * a == a * c;
  }

  lemma DividesTransitive(l: int, m: int, x: int)
    requires l > 0 && m > 0 && Divides(l, m) && Divides(m, x)
    ensures Divides(l, x)
  {
    var k := Quotient(m, x);
    DividesProduct(l, m, k);
  }

  // ----- congruence -----

  lemma CongruentMod(a: int, m: int)
    requires m > 0
    ensures Congruent(a, a % m, m) && Congruent(a % m, a, m)
  {
    MultipleDivides(m, a / m);
    MultipleDivides(m, -(a / m));
    assert a - a % m == m * (a / m);
    assert a % m - a == m * -(a / m);
  }

  lemma SameResidue(a: int, b: int, m: int)
    requires m > 0 && Congruent(a, b, m)
    ensures a % m == b % m
  {
    var k := Quotient(m, a - b);
    assert a == (b / m + k) * m + b % m by {
      assert b == m * (b / m) + b % m;
      assert (b / m + k) * m == m * (b / m) + m * k;
    }
    DivModUnique(a, m, b / m + k, b % m);
  }

  lemma CongruentWhenSameResidue(a: int, b: int, m: int)
    requires m > 0 && a % m == b % m
    ensures Congruent(a, b, m)
  {
    MultipleDivides(m, a / m - b / m);
    assert m * (a / m - b / m) == m * (a / m) - m * (b / m) == a - b;
  }

  lemma CongruentTransitive(a: int, b: int, c: int, m: int)
    requires m > 0 && Congruent(a, b, m) && Congruent(b, c, m)
    ensures Congruent(a, c, m)
  {
    DividesSum(m, a - b, b - c);
  }

  lemma CongruentTimes(a: int, b: int, c: int, d: int, m: int)
    requires m > 0 && Congruent(a, b, m) && Congruent(c, d, m)
    ensures Congruent(a * c, b * d, m)
  {
    DividesProduct(m, c - d, a);
    DividesProduct(m, a - b, d);
    DividesSum(m, a * (c - d), (a - b) * d);
    assert a * (c - d) + (a - b) * d == a * c - b * d;
  }

  lemma {:induction false} CongruentPow(a: int, b: int, e: nat, m: int)
    requires m > 0 && Congruent(a, b, m)
    ensures Congruent(Pow(a, e), Pow(b, e), m)
  {
    if e > 0 {
      CongruentPow(a, b, e - 1, m);
      CongruentTimes(a, b, Pow(a, e - 1), Pow(b, e - 1), m);
    }
  }

  // ----- powers -----

  lemma {:induction false} PowAdd(b: int, e: nat, f: nat)
    ensures Pow(b, e + f) == Pow(b, e) * Pow(b, f)
  {
    if e > 0 {
      PowAdd(b, e - 1, f);
      Associate(b, Pow(b, e - 1), Pow(b, f));
    }
  }

  lemma Associate(x: int, y: int, z: int)
    ensures x * (y * z) == (x * y) * z
  {
  }

  lemma {:induction false} PowOfPow(b: int, e: nat, f: nat)
    ensures e * f >= 0 && Pow(Pow(b, e), f) == Pow(b, e * f)
  {
    if f > 0 {
      PowOfPow(b, e, f - 1);
      assert e * f == e + e * (f - 1);
      PowAdd(b, e, e * (f - 1));
    }
  }

  lemma {:induction false} PowOne(e: nat)
    ensures Pow(1, e) == 1
  {
    if e > 0 {
      PowOne(e - 1);
    }
  }

  lemma PowDivides(m: int, b: int, e: nat)
    requires m > 0 && Divides(m, b) && e > 0
    ensures Divides(m, Pow(b, e))
  {
    DividesProduct(m, b, Pow(b, e - 1));
  }

  // ----- greatest common divisor -----

  function Gcd(a: nat, b: nat): (g: nat)
    ensures a > 0 || b > 0 ==> g > 0
    decreases b
  {
    if b == 0 then a else Gcd(b, a % b)
  }

  function Combined(a: int, b: int, c: (int, int)): int
  {
    a * c.0 + b * c.1
  }

  /** From coefficients for (b, r) to coefficients for (b * q + r, b). */
  function StepBack(q: int, c: (int, int)): (int, int)
  {
    (c.1, c.0 - q * c.1)
  }

  /** Coefficients x, y with a * x + b * y == Gcd(a, b). */
  function Bezout(a: nat, b: nat): (c: (int, int))
    decreases b
  {
    if b == 0 then (1, 0) else StepBack(a / b, Bezout(b, a % b))
  }

  lemma StepBackCombines(b: int, q: int, r: int, c: (int, int))
    ensures Combined(b * q + r, b, StepBack(q, c)) == Combined(b, r, c)
  {
    assert (b * q) * c.1 == b * (q * c.1);
    assert b * (c.0 - q * c.1) == b * c.0 - b * (q * c.1);
    assert (b * q + r) * c.1 == (b * q) * c.1 + r * c.1;
  }

  lemma DivMod(a: nat, b: nat)
    requires b > 0
    ensures a == b * (a / b) + a % b
  {
  }

  lemma {:induction false} BezoutCombines(a: nat, b: nat)
    ensures Combined(a, b, Bezout(a, b)) == Gcd(a, b)
    decreases b
  {
    if b == 0 {
      assert Combined(a, 0, (1, 0)) == a;
    } else {
      hide Combined, StepBack;
      BezoutCombines(b, a % b);
      DivMod(a, b);
      StepBackCombines(b, a / b, a % b, Bezout(b, a % b));
    }
  }

  lemma BezoutIdentity(a: nat, b: nat)
    ensures a * Bezout(a, b).0 + b * Bezout(a, b).1 == Gcd(a, b)
  {
    BezoutCombines(a, b);
  }

  lemma {:induction false} GcdDivides(a: nat, b: nat)
    requires a > 0 || b > 0
    ensures Divides(Gcd(a, b), a) && Divides(Gcd(a, b), b)
    decreases b
  {
    var g := Gcd(a, b);
    if b == 0 {
      MultipleDivides(a, 1);
      MultipleDivides(a, 0);
    } else {
      GcdDivides(b, a % b);
      DividesProduct(g, b, a / b);
      DividesSum(g, b * (a / b), a % b);
      assert a == b * (a / b) + a % b;
    }
  }

  /** No common divisor is greater. */
  lemma GcdGreatest(a: nat, b: nat, d: nat)
    requires (a > 0 || b > 0) && d > 0 && Divides(d, a) && Divides(d, b)
    ensures Divides(d, Gcd(a, b)) && d <= Gcd(a, b)
  {
    BezoutIdentity(a, b);
    var (x, y) := Bezout(a, b);
    DividesProduct(d, a, x);
    DividesProduct(d, b, y);
    DividesSum(d, a * x, b * y);
    var k := Quotient(d, Gcd(a, b));
    MultipleSize(d, k);
  }

  /** Least common multiple of positive numbers. */
  function Lcm(a: nat, b: nat): (l: nat)
    requires a > 0 && b > 0
  {
    NaturalProduct(a, b / Gcd(a, b));
    a * (b / Gcd(a, b))
  }

  lemma NaturalProduct(x: nat, y: nat)
    ensures x * y >= 0
  {
  }

  lemma LcmMultiple(a: nat, b: nat)
    requires a > 0 && b > 0
    ensures Lcm(a, b) > 0 && Divides(a, Lcm(a, b)) && Divides(b, Lcm(a, b))
  {
    var g := Gcd(a, b);
    GcdDivides(a, b);
    var k := Quotient(g, a);
    var l := Quotient(g, b);
    DivModUnique(b, g, l, 0);
    MultipleSize(g, l);
    MultipleSize(a, l);
    MultipleDivides(a, l);
    assert a * l == (g * k) * l == (g * l) * k == b * k;
    MultipleDivides(b, k);
  }

  /** Every common multiple is a multiple of it. */
  lemma LcmLeast(a: nat, b: nat, m: int)
    requires a > 0 && b > 0 && Divides(a, m) && Divides(b, m)
    ensures Lcm(a, b) > 0 && Divides(Lcm(a, b), m)
  {
    LcmMultiple(a, b);
    var g := Gcd(a, b);
    GcdDivides(a, b);
    var lb := Quotient(g, b);
    DivModUnique(b, g, lb, 0);
    BezoutIdentity(a, b);
    var i := Quotient(a, m);
    var j := Quotient(b, m);
    var c := LcmFactor(a, b, g, Bezout(a, b).0, Bezout(a, b).1, m, i, j, lb);
    MultipleDivides(a * lb, c);
  }

  lemma LcmFactor(a: nat, b: nat, g: nat, x: int, y: int, m: int, i: int, j: int, l: int) returns (c: int)
    requires g > 0 && a * x + b * y == g && b == g * l && m == a * i && m == b * j
    ensures m == (a * l) * c
  {
    c := j * x + i * y;
    assert m * g == m * (a * x) + m * (b * y);
    assert (b * j) * (a * x) == (a * b) * (j * x);
    assert (a * i) * (b * y) == (a * b) * (i * y);
    assert m * g == (a * b) * c;
    assert (a * (g * l)) * c == g * ((a * l) * c);
    CancelFactor(g, m, (a * l) * c);
  }

  lemma CancelFactor(g: int, a: int, b: int)
    requires g != 0 && a * g == g * b
    ensures a == b
  {
    assert g * (a - b) == 0;
  }

  /** The inverse of `a` modulo `m`, in [0, m). */
  function Invert(a: nat, m: nat): (r: nat)
    requires m > 0
    ensures r < m
  {
    Bezout(a, m).0 % m
  }

  lemma InvertInverts(a: nat, m: nat)
    requires m > 0 && Gcd(a, m) == 1
    ensures Congruent(a * Invert(a, m), 1, m)
  {
    BezoutIdentity(a, m);
    var (x, y) := Bezout(a, m);
    CongruentMod(x, m);
    MultipleDivides(m, 0);
    CongruentTimes(a, a, x % m, x, m);
    MultipleDivides(m, -y);
    assert a * x - 1 == m * -y;
    CongruentTransitive(a * (x % m), a * x, 1, m);
  }

  // ----- primes -----

  ghost predicate Prime(p: int)
  {
    p >= 2 && forall d {:trigger Divides(d, p)} :: 1 < d < p ==> !Divides(d, p)
  }

  lemma DivisorOfPrime(p: int, g: nat)
    requires Prime(p) && g > 0 && Divides(g, p)
    ensures g == 1 || g == p
  {
    var k := Quotient(g, p);
    MultipleSize(g, k);
  }

  lemma PrimeCoprime(p: int, a: nat)
    requires Prime(p) && !Divides(p, a)
    ensures Gcd(p, a) == 1 && Gcd(a, p) == 1
  {
    GcdDivides(p, a);
    DivisorOfPrime(p, Gcd(p, a));
    GcdDivides(a, p);
    DivisorOfPrime(p, Gcd(a, p));
  }

  /** A prime that divides a product divides a factor. */
  lemma EuclidLemma(p: int, a: nat, b: int)
    requires Prime(p) && Divides(p, a * b) && !Divides(p, a)
    ensures Divides(p, b)
  {
    PrimeCoprime(p, a);
    CoprimeCancels(p, a, b);
  }

  lemma CoprimeCancels(m: nat, a: nat, b: int)
    requires m > 0 && Gcd(m, a) == 1 && Divides(m, a * b)
    ensures Divides(m, b)
  {
    hide Divides, Gcd, Bezout;
    BezoutIdentity(m, a);
    var (x, y) := Bezout(m, a);
    MultipleDivides(m, x * b);
    DividesProduct(m, a * b, y);
    DividesSum(m, m * (x * b), (a * b) * y);
    Distribute(m, x, a, y, b);
    assert m * (x * b) + (a * b) * y == 1 * b;
  }

  lemma Distribute(m: int, x: int, a: int, y: int, b: int)
    ensures (m * x + a * y) * b == m * (x * b) + (a * b) * y
  {
  }

  // ----- Fermat's little theorem, by binomial coefficients -----

  function Choose(n: nat, k: nat): nat
  {
    if k == 0 then 1 else if n == 0 then 0 else Choose(n - 1, k - 1) + Choose(n - 1, k)
  }

  lemma {:induction false} ChooseBeyond(n: nat, k: nat)
    requires k > n
    ensures Choose(n, k) == 0
  {
    if n > 0 {
      ChooseBeyond(n - 1, k - 1);
      ChooseBeyond(n - 1, k);
    }
  }

  lemma {:induction false} ChooseAll(n: nat)
    ensures Choose(n, n) == 1
  {
    if n > 0 {
      ChooseAll(n - 1);
      ChooseBeyond(n - 1, n);
    }
  }

  /** k * C(n, k) == n * C(n - 1, k - 1) */
  lemma {:induction false} Absorption(n: nat, k: nat)
    requires n > 0 && k > 0
    ensures k * Choose(n, k) == n * Choose(n - 1, k - 1)
  {
    if n == 1 {
      if k > 1 {
        ChooseBeyond(1, k);
        ChooseBeyond(0, k - 1);
      }
    } else {
      var a, b := Choose(n - 1, k - 1), Choose(n - 1, k);
      Absorption(n - 1, k);
      if k > 1 {
        Absorption(n - 1, k - 1);
        AbsorptionStep(n, k, a, b, Choose(n - 2, k - 2), Choose(n - 2, k - 1));
      } else {
        assert a == 1;
      }
    }
  }

  lemma AbsorptionStep(n: int, k: int, a: int, b: int, c: int, d: int)
    requires a == c + d && k * b == (n - 1) * d && (k - 1) * a == (n - 1) * c
    ensures k * (a + b) == n * a
  {
    assert (n - 1) * c + (n - 1) * d == (n - 1) * (c + d);
    assert k * (a + b) == (k - 1) * a + a + k * b;
  }

  lemma PrimeDividesChoose(p: int, k: nat)
    requires Prime(p) && 0 < k < p
    ensures Divides(p, Choose(p, k))
  {
    Absorption(p, k);
    MultipleDivides(p, Choose(p - 1, k - 1));
    if Divides(p, k) {
      DivModUnique(k, p, 0, k);
    } else {
      EuclidLemma(p, k, Choose(p, k));
    }
  }

  /** C(n, 0) + C(n, 1) x + ... + C(n, m) x^m */
  function BinomialSum(n: nat, x: nat, m: nat): nat
  {
    Choose(n, m) * Pow(x, m) + if m == 0 then 0 else BinomialSum(n, x, m - 1)
  }

  lemma {:induction false} PascalSum(n: nat, x: nat, m: nat)
    requires m > 0
    ensures BinomialSum(n + 1, x, m) == BinomialSum(n, x, m) + x * BinomialSum(n, x, m - 1)
  {
    var a, b := Choose(n, m - 1), Choose(n, m);
    assert Choose(n + 1, m) == a + b;
    PascalTerm(a, b, x, Pow(x, m - 1));
    if m > 1 {
      PascalSum(n, x, m - 1);
      DistributeSum(x, a * Pow(x, m - 1), BinomialSum(n, x, m - 2));
    }
  }

  lemma PascalTerm(a: int, b: int, x: int, y: int)
    ensures (a + b) * (x * y) == b * (x * y) + x * (a * y)
  {
    assert (a + b) * (x * y) == a * (x * y) + b * (x * y);
    assert a * (x * y) == x * (a * y);
  }

  lemma DistributeSum(x: int, u: int, v: int)
    ensures x * (u + v) == x * u + x * v
  {
  }

  lemma TopTerm(n: nat, x: nat)
    ensures BinomialSum(n, x, n + 1) == BinomialSum(n, x, n)
  {
    ChooseBeyond(n, n + 1);
    ZeroTimes(Pow(x, n + 1));
  }

  lemma ZeroTimes(a: int)
    ensures 0 * a == 0
  {
  }

  lemma {:induction false} Binomial(n: nat, x: nat)
    ensures Pow(x + 1, n) == BinomialSum(n, x, n)
  {
    if n > 0 {
      calc {
        Pow(x + 1, n);
        (x + 1) * Pow(x + 1, n - 1);
        { Binomial(n - 1, x); }
        (x + 1) * BinomialSum(n - 1, x, n - 1);
        BinomialSum(n - 1, x, n - 1) + x * BinomialSum(n - 1, x, n - 1);
        { TopTerm(n - 1, x); }
        BinomialSum(n - 1, x, n) + x * BinomialSum(n - 1, x, n - 1);
        { PascalSum(n - 1, x, n); }
        BinomialSum(n, x, n);
      }
    }
  }

  lemma {:induction false} MiddleTermsVanish(p: int, x: nat, m: nat)
    requires Prime(p) && m < p
    ensures Congruent(BinomialSum(p, x, m), 1, p)
  {
    if m == 0 {
      MultipleDivides(p, 0);
    } else {
      MiddleTermsVanish(p, x, m - 1);
      PrimeDividesChoose(p, m);
      DividesProduct(p, Choose(p, m), Pow(x, m));
      DividesSum(p, Choose(p, m) * Pow(x, m), BinomialSum(p, x, m - 1) - 1);
    }
  }

  /** x^p is x modulo a prime p. */
  lemma {:induction false} FermatPower(p: int, x: nat)
    requires Prime(p)
    ensures Congruent(Pow(x, p), x, p)
  {
    if x == 0 {
      MultipleDivides(p, 0);
      assert Pow(0, p) == 0;
    } else {
      FermatPower(p, x - 1);
      Binomial(p, x - 1);
      MiddleTermsVanish(p, x - 1, p - 1);
      ChooseAll(p);
      assert Pow(x, p) == Pow(x - 1, p) + BinomialSum(p, x - 1, p - 1);
      DividesSum(p, Pow(x - 1, p) - (x - 1), BinomialSum(p, x - 1, p - 1) - 1);
    }
  }

  /** x^(p-1) is 1 modulo a prime p that does not divide x. */
  lemma Fermat(p: int, x: nat)
    requires Prime(p) && !Divides(p, x)
    ensures Congruent(Pow(x, p - 1), 1, p)
  {
    FermatPower(p, x);
    assert Pow(x, p) - x == x * (Pow(x, p - 1) - 1);
    EuclidLemma(p, x, Pow(x, p - 1) - 1);
  }

  lemma FermatMultiple(p: int, x: nat, k: nat)
    requires Prime(p) && !Divides(p, x)
    ensures (p - 1) * k >= 0 && Congruent(Pow(x, (p - 1) * k), 1, p)
  {
    Fermat(p, x);
    CongruentPow(Pow(x, p - 1), 1, k, p);
    PowOne(k);
    PowOfPow(x, p - 1, k);
  }

  /** Exponents that agree modulo p - 1 give the same power modulo p. */
  lemma FermatExponent(p: int, x: nat, f: nat, g: nat)
    requires Prime(p) && f >= g > 0 && Congruent(f, g, p - 1)
    ensures Congruent(Pow(x, f), Pow(x, g), p)
  {
    if Divides(p, x) {
      PowDivides(p, x, f);
      PowDivides(p, x, g);
      DividesSum(p, Pow(x, f), Pow(x, g));
    } else {
      var k := Quotient(p - 1, f - g);
      MultipleSize(p - 1, k);
      FermatMultiple(p, x, k);
      PowAdd(x, g, (p - 1) * k);
      MultipleDivides(p, 0);
      CongruentTimes(Pow(x, g), Pow(x, g), Pow(x, (p - 1) * k), 1, p);
    }
  }

  /** Chinese remainders: agreeing modulo two distinct primes is agreeing modulo their product. */
  lemma CongruentProduct(a: int, b: int, p: int, q: int)
    requires Prime(p) && Prime(q) && p != q && Congruent(a, b, p) && Congruent(a, b, q)
    ensures Congruent(a, b, p * q)
  {
    DistinctPrimes(p, q);
    var k := Quotient(p, a - b);
    EuclidLemma(q, p, k);
    var l := Quotient(q, k);
    assert p * (q * l) == (p * q) * l;
    assert p * q > 0;
    MultipleDivides(p * q, l);
  }

  lemma DistinctPrimes(p: int, q: int)
    requires Prime(p) && Prime(q) && p != q
    ensures !Divides(p, q) && !Divides(q, p)
  {
    if p > q {
      DivModUnique(q, p, 0, q);
    } else {
      DivModUnique(p, q, 0, p);
    }
  }
}
