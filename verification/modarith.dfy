/** Integer arithmetic modulo m.

    Dafny's `%` with a positive modulus is the Euclidean remainder, which is also what
    Go's big.Int.Mod and gmp's Mod return, so `a % m` stands for both libraries' reduction.
    This module holds the congruence lemmas the rest of the model leans on, integer powers,
    square-and-multiply exponentiation (big.Int.Exp), the extended Euclidean algorithm and
    the modular inverse built on it (gmp's ModInverse), and Euclid's lemma for primes. */
module ModArith {

  /** d is a non-zero divisor of a. */
  predicate Divides(d: int, a: int) {
    d != 0 && a % d == 0
  }

  predicate IsPrime(p: int) {
    p > 1 && forall k :: 1 < k < p ==> !Divides(k, p)
  }

  function Abs(a: int): nat {
    if a < 0 then -a else a
  }

  /** b raised to the power e over the integers. */
  function Pow(b: int, e: nat): int {
    if e == 0 then 1 else b * Pow(b, e - 1)
  }

  // ---------------------------------------------------------------------------
  // Division with remainder

  lemma MulAtLeast(k: int, n: int)
    requires k >= 1 && n > 0
    ensures k * n >= n
  {
    assert k * n == (k - 1) * n + n;
    assert (k - 1) * n >= 0;
  }

  /** Quotient and remainder are the only pair with a == q*n + r and 0 <= r < n. */
  lemma DivModUnique(a: int, n: int, q: int, r: int)
    requires n > 0 && 0 <= r < n && a == q * n + r
    ensures a / n == q && a % n == r
  {
    var q0, r0 := a / n, a % n;
    assert a == q0 * n + r0;
    if q > q0 {
      assert (q - q0) * n == r0 - r;
      MulAtLeast(q - q0, n);
    } else if q < q0 {
      assert (q0 - q) * n == r - r0;
      MulAtLeast(q0 - q, n);
    }
  }

  lemma DivModSplit(a: int, n: int)
    requires n > 0
    ensures a == (a / n) * n + a % n
  {
  }

  /** Adding a multiple of n leaves the residue unchanged. */
  lemma ModShift(a: int, k: int, n: int)
    requires n > 0
    ensures (a + k * n) % n == a % n
  {
    assert a == (a / n) * n + a % n;
    assert a + k * n == (a / n + k) * n + a % n;
    DivModUnique(a + k * n, n, a / n + k, a % n);
  }

  lemma ModOfMultiple(k: int, n: int)
    requires n > 0
    ensures (k * n) % n == 0
  {
    ModShift(0, k, n);
  }

  lemma ModIdempotent(a: int, n: int)
    requires n > 0
    ensures (a % n) % n == a % n
  {
    DivModUnique(a % n, n, 0, a % n);
  }

  lemma ModAdd(a: int, b: int, n: int)
    requires n > 0
    ensures (a + b) % n == (a % n + b % n) % n
  {
    var qa, qb := a / n, b / n;
    assert a == qa * n + a % n;
    assert b == qb * n + b % n;
    assert a + b == (a % n + b % n) + (qa + qb) * n;
    ModShift(a % n + b % n, qa + qb, n);
  }

  lemma ModMul(a: int, b: int, n: int)
    requires n > 0
    ensures (a * b) % n == ((a % n) * (b % n)) % n
  {
    var qa, ra, qb, rb := a / n, a % n, b / n, b % n;
    assert a == qa * n + ra;
    assert b == qb * n + rb;
    assert a * b == (qa * n + ra) * (qb * n + rb);
    assert (qa * n + ra) * (qb * n + rb) == ra * rb + (qa * qb * n + qa * rb + ra * qb) * n;
    ModShift(ra * rb, qa * qb * n + qa * rb + ra * qb, n);
  }

  /** Congruences may be added. */
  lemma AddCong(a: int, a': int, b: int, b': int, n: int)
    requires n > 0 && a % n == a' % n && b % n == b' % n
    ensures (a + b) % n == (a' + b') % n
  {
    ModAdd(a, b, n);
    ModAdd(a', b', n);
  }

  /** Congruences may be multiplied. */
  lemma MulCong(a: int, a': int, b: int, b': int, n: int)
    requires n > 0 && a % n == a' % n && b % n == b' % n
    ensures (a * b) % n == (a' * b') % n
  {
    ModMul(a, b, n);
    ModMul(a', b', n);
  }

  lemma NegCong(a: int, a': int, n: int)
    requires n > 0 && a % n == a' % n
    ensures (-a) % n == (-a') % n
  {
    MulCong(-1, -1, a, a', n);
  }

  /** a and b are congruent exactly when n divides their difference. */
  lemma CongIffDiffZero(a: int, b: int, n: int)
    requires n > 0
    ensures a % n == b % n <==> (a - b) % n == 0
  {
    var qa, qb := a / n, b / n;
    assert a == qa * n + a % n;
    assert b == qb * n + b % n;
    if a % n == b % n {
      assert a - b == (qa - qb) * n;
      ModOfMultiple(qa - qb, n);
    }
    if (a - b) % n == 0 {
      var k := (a - b) / n;
      assert a == b + k * n;
      ModShift(b, k, n);
    }
  }

  // ---------------------------------------------------------------------------
  // Powers

  lemma PowAdd(b: int, i: nat, j: nat)
    ensures Pow(b, i + j) == Pow(b, i) * Pow(b, j)
    decreases i
  {
    if i > 0 {
      PowAdd(b, i - 1, j);
      assert Pow(b, i + j) == b * Pow(b, i - 1 + j);
    }
  }

  lemma PowSquare(b: int, j: nat)
    ensures Pow(b, 2 * j) == Pow(b * b, j)
  {
    if j > 0 {
      PowSquare(b, j - 1);
      calc {
        Pow(b, 2 * j);
        b * Pow(b, 2 * j - 1);
        b * (b * Pow(b, 2 * (j - 1)));
        (b * b) * Pow(b * b, j - 1);
        Pow(b * b, j);
      }
    }
  }

  /** Reducing the base before exponentiating does not change the residue. */
  lemma PowMod(b: int, e: nat, m: int)
    requires m > 0
    ensures Pow(b % m, e) % m == Pow(b, e) % m
  {
    if e > 0 {
      PowMod(b, e - 1, m);
      ModIdempotent(b, m);
      MulCong(b % m, b, Pow(b % m, e - 1), Pow(b, e - 1), m);
    }
  }

  lemma ModExpStep(r: int, base: int, k: nat, m: int)
    requires m > 0 && k > 0
    ensures ((if k % 2 == 1 then (r * base) % m else r) * Pow((base * base) % m, k / 2)) % m
            == (r * Pow(base, k)) % m
  {
    var r' := if k % 2 == 1 then (r * base) % m else r;
    PowMod(base * base, k / 2, m);
    PowSquare(base, k / 2);
    ModIdempotent(r', m);
    MulCong(r', r', Pow((base * base) % m, k / 2), Pow(base * base, k / 2), m);
    if k % 2 == 1 {
      assert k == 2 * (k / 2) + 1;
      PowAdd(base, 1, 2 * (k / 2));
      assert Pow(base, 1) == base;
      ModIdempotent(r * base, m);
      MulCong(r', r * base, Pow(base * base, k / 2), Pow(base * base, k / 2), m);
      assert (r * base) * Pow(base * base, k / 2) == r * Pow(base, k);
    } else {
      assert k == 2 * (k / 2);
    }
  }

  /** Square-and-multiply modular exponentiation, as big.Int.Exp(b, e, m) computes it. */
  method ModExp(b: int, e: nat, m: int) returns (r: int)
    requires m > 0
    ensures 0 <= r < m
    ensures r == Pow(b, e) % m
  {
    var base := b % m;
    var k := e;
    r := 1 % m;
    PowMod(b, e, m);
    ModIdempotent(1, m);
    MulCong(r, 1, Pow(base, e), Pow(base, e), m);
    while k > 0
      invariant 0 <= r < m
      invariant (r * Pow(base, k)) % m == Pow(b, e) % m
      decreases k
    {
      ModExpStep(r, base, k, m);
      if k % 2 == 1 {
        r := (r * base) % m;
      }
      base := (base * base) % m;
      k := k / 2;
    }
    DivModUnique(r, m, 0, r);
  }

  // ---------------------------------------------------------------------------
  // Greatest common divisor, inverses, Euclid's lemma

  /** Extended Euclidean algorithm: (g, s, t) with s*a + t*b == g. */
  function ExtGcd(a: nat, b: nat): (r: (nat, int, int))
    ensures r.1 * a + r.2 * b == r.0
    decreases b
  {
    if b == 0 then (a, 1, 0)
    else
      var r' := ExtGcd(b, a % b);
      assert a == (a / b) * b + a % b;
      assert r'.2 * a + (r'.1 - (a / b) * r'.2) * b == r'.1 * b + r'.2 * (a % b);
      (r'.0, r'.2, r'.1 - (a / b) * r'.2)
  }

  /** The first component of ExtGcd is a positive common divisor. */
  lemma {:induction false} GcdDivides(a: nat, b: nat)
    requires a > 0 || b > 0
    ensures ExtGcd(a, b).0 > 0
    ensures a % ExtGcd(a, b).0 == 0 && b % ExtGcd(a, b).0 == 0
    decreases b
  {
    if b == 0 {
      ModOfMultiple(1, a);
      ModOfMultiple(0, a);
    } else {
      GcdDivides(b, a % b);
      var g := ExtGcd(b, a % b).0;
      assert ExtGcd(a, b).0 == g;
      DivModSplit(a, b);
      CombinationDivisible(a / b, b, a % b, g);
    }
  }

  /** A divisor of b and r divides q * b + r. */
  lemma CombinationDivisible(q: int, b: int, r: int, g: int)
    requires g > 0 && b % g == 0 && r % g == 0
    ensures (q * b + r) % g == 0
  {
    MulCong(q, q, b, 0, g);
    AddCong(q * b, 0, r, 0, g);
  }

  lemma DivisorBound(d: int, a: int)
    requires d > 0 && a > 0 && a % d == 0
    ensures d <= a
  {
    var k := a / d;
    assert a == k * d;
    assert k >= 1;
    MulAtLeast(k, d);
  }

  /** A prime is coprime to every residue it does not divide. */
  lemma PrimeCoprime(a: int, p: int)
    requires IsPrime(p) && a % p != 0
    ensures ExtGcd(a % p, p).0 == 1
  {
    var g := ExtGcd(a % p, p).0;
    GcdDivides(a % p, p);
    DivisorBound(g, a % p);
    if g != 1 {
      assert 1 < g < p && Divides(g, p);
    }
  }

  /** Euclid's lemma: a prime dividing a product divides one of the factors. */
  lemma EuclidLemma(a: int, b: int, p: int)
    requires IsPrime(p) && (a * b) % p == 0
    ensures a % p == 0 || b % p == 0
  {
    if a % p != 0 {
      PrimeCoprime(a, p);
      var r := a % p;
      var e := ExtGcd(r, p);
      ModIdempotent(a, p);
      MulCong(a, r, b, b, p);
      BezoutCancel(r, b, e.1, e.2, p);
    }
  }

  /** If s * r + t * p == 1 and p divides r * b, then p divides b. */
  lemma BezoutCancel(r: int, b: int, s: int, t: int, p: int)
    requires p > 0 && s * r + t * p == 1 && (r * b) % p == 0
    ensures b % p == 0
  {
    assert b == b * (s * r + t * p);
    assert b * (s * r + t * p) == s * (r * b) + (t * b) * p;
    ModShift(s * (r * b), t * b, p);
    MulCong(s, s, r * b, 0, p);
  }

  /** A multiple of p times anything is a multiple of p. */
  lemma FactorZeroProduct(a: int, b: int, p: int)
    requires p > 0
    ensures a % p == 0 || b % p == 0 ==> (a * b) % p == 0
  {
    if a % p == 0 {
      MulCong(a, 0, b, b, p);
    } else if b % p == 0 {
      MulCong(a, a, b, 0, p);
    }
  }

  /** The modular inverse computed from the extended Euclidean algorithm. */
  function Inverse(d: int, m: int): (r: int)
    requires m > 1
    ensures 0 <= r < m
    ensures IsPrime(m) && d % m != 0 ==> (d * r) % m == 1
  {
    var e := ExtGcd(d % m, m);
    InverseCorrect(d, m);
    e.1 % m
  }

  lemma InverseCorrect(d: int, m: int)
    requires m > 1
    ensures IsPrime(m) && d % m != 0 ==> (d * (ExtGcd(d % m, m).1 % m)) % m == 1
  {
    if IsPrime(m) && d % m != 0 {
      PrimeCoprime(d, m);
      var r := d % m;
      var e := ExtGcd(r, m);
      BezoutInverse(r, e.1, e.2, m);
      ModIdempotent(d, m);
      ModIdempotent(e.1, m);
      MulCong(d, r, e.1 % m, e.1, m);
    }
  }

  /** If s * x + t * m == 1 then s is an inverse of x mod m. */
  lemma BezoutInverse(x: int, s: int, t: int, m: int)
    requires m > 1 && s * x + t * m == 1
    ensures (x * s) % m == 1
  {
    assert x * s == 1 + (-t) * m;
    ModShift(1, -t, m);
    DivModUnique(1, m, 0, 1);
  }
}
