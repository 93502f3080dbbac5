/** Polynomials as coefficient sequences, lowest degree first: p[i] multiplies X^i.

    This is the part of the polyring package that interpolation and the KZG scheme use:
    Horner evaluation (exact and mod m), addition, scaling and scale-and-add, multiplication,
    division by a monic linear factor X - c, and coefficient-wise reduction mod m. The
    polyring package itself is not part of this model; its operations are defined here from
    what they compute. Arithmetic is over the integers, as with the big integers of the
    Go code, and any reduction is written out. */
module Poly {
  import opened ModArith

  /** p evaluated at x over the integers, by Horner's rule. */
  function Eval(p: seq<int>, x: int): int
    decreases |p|
  {
    if |p| == 0 then 0 else p[0] + x * Eval(p[1..], x)
  }

  lemma HornerStepMod(a: int, x: int, rest: int, e: int, m: int)
    requires m > 0 && rest == e % m
    ensures (a + x * rest) % m == (a + x * e) % m
  {
    ModIdempotent(e, m);
    MulCong(x, x, rest, e, m);
    AddCong(a, a, x * rest, x * e, m);
  }

  /** Horner's rule reducing mod m after every step (polyring's EvalMod). */
  function EvalMod(p: seq<int>, x: int, m: int): (r: int)
    requires m > 0
    ensures 0 <= r < m
    ensures r == Eval(p, x) % m
    decreases |p|
  {
    if |p| == 0 then 0
    else
      var rest := EvalMod(p[1..], x, m);
      HornerStepMod(p[0], x, rest, Eval(p[1..], x), m);
      (p[0] + x * rest) % m
  }

  // ---------------------------------------------------------------------------
  // Ring operations

  function Zeros(k: nat): (z: seq<int>)
    ensures |z| == k
  {
    seq(k, _ => 0)
  }

  function Max(a: nat, b: nat): nat {
    if a < b then b else a
  }

  /** Coefficient-wise sum; the shorter operand is padded with zeros. */
  function Add(p: seq<int>, q: seq<int>): (r: seq<int>)
    ensures |r| == Max(|p|, |q|)
    decreases |p|
  {
    if |p| == 0 then q
    else if |q| == 0 then p
    else [p[0] + q[0]] + Add(p[1..], q[1..])
  }

  function Scale(p: seq<int>, a: int): (r: seq<int>)
    ensures |r| == |p|
  {
    seq(|p|, i requires 0 <= i < |p| => a * p[i])
  }

  /** Multiplication by X. */
  function Shift(p: seq<int>): seq<int> {
    [0] + p
  }

  /** p + q * s, polyring's in-place AddMul written as a pure function. */
  function AddMul(p: seq<int>, q: seq<int>, s: int): (r: seq<int>)
    ensures |r| == Max(|p|, |q|)
  {
    Add(p, Scale(q, s))
  }

  /** Polynomial product (polyring's MulSelf). */
  function Mul(p: seq<int>, q: seq<int>): (r: seq<int>)
    ensures |p| > 0 && |q| > 0 ==> |r| == |p| + |q| - 1
    decreases |p|
  {
    if |p| == 0 then []
    else Add(Scale(q, p[0]), Shift(Mul(p[1..], q)))
  }

  /** The monic linear polynomial X - c. */
  function Linear(c: int): seq<int> {
    [-c, 1]
  }

  /** Every coefficient reduced mod m (polyring's Mod). */
  function ModCoeffs(p: seq<int>, m: int): (r: seq<int>)
    requires m > 0
    ensures |r| == |p|
    ensures forall i :: 0 <= i < |r| ==> 0 <= r[i] < m && r[i] == p[i] % m
  {
    seq(|p|, i requires 0 <= i < |p| => p[i] % m)
  }

  /** Every coefficient with its sign dropped: what is left of an integer after a round
      through its big-endian bytes (Bytes, then SetBytes), which is how the commitments
      hand coefficients to the group. */
  function Magnitudes(p: seq<int>): (r: seq<int>)
    ensures |r| == |p|
    ensures forall i :: 0 <= i < |r| ==> r[i] >= 0 && (r[i] == p[i] || r[i] == -p[i])
  {
    seq(|p|, i requires 0 <= i < |p| => Abs(p[i]))
  }

  /** No coefficient is negative. */
  predicate NonNegative(p: seq<int>) {
    forall i :: 0 <= i < |p| ==> p[i] >= 0
  }

  /** Division by the monic X - c (synthetic division): the quotient and the remainder.
      Because the divisor is monic the quotient is the unique one integer long division
      produces, so this stands for polyring's Div2 with a linear divisor. */
  function DivLinear(p: seq<int>, c: int): (r: (seq<int>, int))
    ensures |p| > 0 ==> |r.0| == |p| - 1
    ensures r.1 == Eval(p, c)
    decreases |p|
  {
    if |p| == 0 then ([], 0)
    else if |p| == 1 then ([], p[0])
    else
      var sub := DivLinear(p[1..], c);
      ([sub.1] + sub.0, p[0] + c * sub.1)
  }

  /** The product of X - xs[j] over all j, built left to right as the Go code's loop does. */
  function Product(xs: seq<int>): (r: seq<int>)
    ensures |r| == |xs| + 1
  {
    if |xs| == 0 then [1]
    else Mul(Product(xs[..|xs| - 1]), Linear(xs[|xs| - 1]))
  }

  /** The formal derivative of p, evaluated at x. */
  function Deriv(p: seq<int>, x: int): int
    decreases |p|
  {
    if |p| == 0 then 0 else Eval(p[1..], x) + x * Deriv(p[1..], x)
  }

  // ---------------------------------------------------------------------------
  // Evaluation is a ring homomorphism

  lemma {:induction false} EvalAdd(p: seq<int>, q: seq<int>, x: int)
    ensures Eval(Add(p, q), x) == Eval(p, x) + Eval(q, x)
    decreases |p|
  {
    if |p| > 0 && |q| > 0 {
      EvalAdd(p[1..], q[1..], x);
      var r := Add(p, q);
      assert r[0] == p[0] + q[0] && r[1..] == Add(p[1..], q[1..]);
      assert Eval(r, x) == r[0] + x * Eval(r[1..], x);
      Distribute(x, Eval(p[1..], x), Eval(q[1..], x));
    }
  }

  /** x * (a + b) == x * a + x * b, kept apart from the sequence reasoning. */
  lemma Distribute(x: int, a: int, b: int)
    ensures x * (a + b) == x * a + x * b
  {
  }

  lemma {:induction false} EvalScale(p: seq<int>, a: int, x: int)
    ensures Eval(Scale(p, a), x) == a * Eval(p, x)
    decreases |p|
  {
    if |p| > 0 {
      EvalScale(p[1..], a, x);
      var sp := Scale(p, a);
      assert sp[1..] == Scale(p[1..], a);
      assert Eval(sp, x) == sp[0] + x * Eval(sp[1..], x);
      Factor(a, p[0], x, Eval(p[1..], x));
    }
  }

  /** a * c + x * (a * e) == a * (c + x * e), kept apart from the sequence reasoning. */
  lemma Factor(a: int, c: int, x: int, e: int)
    ensures a * c + x * (a * e) == a * (c + x * e)
  {
  }

  lemma {:induction false} EvalShift(p: seq<int>, x: int)
    ensures Eval(Shift(p), x) == x * Eval(p, x)
  {
    assert Shift(p)[1..] == p;
  }

  lemma {:induction false} EvalAddMul(p: seq<int>, q: seq<int>, s: int, x: int)
    ensures Eval(AddMul(p, q, s), x) == Eval(p, x) + s * Eval(q, x)
  {
    EvalAdd(p, Scale(q, s), x);
    EvalScale(q, s, x);
  }

  lemma {:induction false} EvalMul(p: seq<int>, q: seq<int>, x: int)
    ensures Eval(Mul(p, q), x) == Eval(p, x) * Eval(q, x)
    decreases |p|
  {
    if |p| > 0 {
      var m' := Mul(p[1..], q);
      assert Mul(p, q) == Add(Scale(q, p[0]), Shift(m'));
      EvalMul(p[1..], q, x);
      EvalAdd(Scale(q, p[0]), Shift(m'), x);
      EvalScale(q, p[0], x);
      EvalShift(m', x);
      FactorRight(p[0], x, Eval(p[1..], x), Eval(q, x));
    }
  }

  lemma FactorRight(a: int, x: int, ep: int, eq: int)
    ensures a * eq + x * (ep * eq) == (a + x * ep) * eq
  {}

  lemma {:induction false} EvalZeros(k: nat, x: int)
    ensures Eval(Zeros(k), x) == 0
  {
    if k > 0 {
      assert Zeros(k)[1..] == Zeros(k - 1);
      EvalZeros(k - 1, x);
    }
  }

  /** Trailing zero coefficients do not change the value. */
  lemma {:induction false} EvalPadZeros(p: seq<int>, k: nat, x: int)
    ensures Eval(p + Zeros(k), x) == Eval(p, x)
    decreases |p|
  {
    if |p| == 0 {
      assert p + Zeros(k) == Zeros(k);
      EvalZeros(k, x);
    } else {
      assert (p + Zeros(k))[1..] == p[1..] + Zeros(k);
      EvalPadZeros(p[1..], k, x);
    }
  }

  /** The sum of two polynomials of equal length, coefficient by coefficient. */
  lemma {:induction false} AddEqualLength(p: seq<int>, q: seq<int>)
    requires |p| == |q|
    ensures forall j :: 0 <= j < |p| ==> Add(p, q)[j] == p[j] + q[j]
    decreases |p|
  {
    if |p| > 0 {
      AddEqualLength(p[1..], q[1..]);
      forall j | 0 <= j < |p|
        ensures Add(p, q)[j] == p[j] + q[j]
      {
        if j > 0 {
          assert Add(p, q)[j] == Add(p[1..], q[1..])[j - 1];
        }
      }
    }
  }

  lemma EvalLinear(c: int, x: int)
    ensures Eval(Linear(c), x) == x - c
  {
    assert Linear(c)[1..] == [1];
    assert [1][1..] == [];
  }

  /** Reducing the coefficients mod m does not change the value mod m. */
  lemma {:induction false} EvalModCoeffs(p: seq<int>, m: int, x: int)
    requires m > 0
    ensures Eval(ModCoeffs(p, m), x) % m == Eval(p, x) % m
    decreases |p|
  {
    if |p| > 0 {
      var r := ModCoeffs(p, m);
      assert r[1..] == ModCoeffs(p[1..], m);
      EvalModCoeffs(p[1..], m, x);
      ModIdempotent(p[0], m);
      MulCong(x, x, Eval(r[1..], x), Eval(p[1..], x), m);
      AddCong(r[0], p[0], x * Eval(r[1..], x), x * Eval(p[1..], x), m);
    }
  }

  /** Appending a top coefficient adds that coefficient times x^|p|. */
  lemma {:induction false} EvalAppend(p: seq<int>, a: int, x: int)
    ensures Eval(p + [a], x) == Eval(p, x) + a * Pow(x, |p|)
    decreases |p|
  {
    if |p| == 0 {
      assert ([a])[1..] == [];
    } else {
      assert (p + [a])[1..] == p[1..] + [a];
      EvalAppend(p[1..], a, x);
      var e := Eval(p[1..], x);
      assert x * (e + a * Pow(x, |p| - 1)) == x * e + a * Pow(x, |p|);
    }
  }

  /** Changing the constant coefficient by d changes every value by d. */
  lemma {:induction false} EvalAddConstant(p: seq<int>, d: int, x: int)
    requires |p| > 0
    ensures Eval(p[0 := p[0] + d], x) == Eval(p, x) + d
  {
    assert p[0 := p[0] + d][1..] == p[1..];
  }

  // ---------------------------------------------------------------------------
  // Division by X - c

  /** The division identity: p(x) = (x - c) * q(x) + r at every x. */
  lemma {:induction false} DivLinearIdentity(p: seq<int>, c: int, x: int)
    ensures Eval(p, x) == (x - c) * Eval(DivLinear(p, c).0, x) + DivLinear(p, c).1
    decreases |p|
  {
    if |p| >= 2 {
      var sub := DivLinear(p[1..], c);
      DivLinearIdentity(p[1..], c, x);
      var q := [sub.1] + sub.0;
      assert q[1..] == sub.0;
      var eq := Eval(sub.0, x);
      assert Eval(q, x) == sub.1 + x * eq;
      assert DivLinear(p, c) == (q, p[0] + c * sub.1);
      assert Eval(p, x) == p[0] + x * Eval(p[1..], x);
      DivStep(p[0], x, c, eq, sub.1);
    } else if |p| == 1 {
      assert p[1..] == [];
    }
  }

  /** The arithmetic of one synthetic-division step. */
  lemma DivStep(a: int, x: int, c: int, e: int, s: int)
    ensures a + x * ((x - c) * e + s) == (x - c) * (s + x * e) + (a + c * s)
  {
  }

  /** The quotient by X - c, evaluated at c, is the derivative of p at c. */
  lemma {:induction false} QuotientAtPoint(p: seq<int>, c: int)
    ensures Eval(DivLinear(p, c).0, c) == Deriv(p, c)
    decreases |p|
  {
    if |p| >= 2 {
      var sub := DivLinear(p[1..], c);
      QuotientAtPoint(p[1..], c);
      var q := [sub.1] + sub.0;
      assert q[1..] == sub.0;
    } else if |p| == 1 {
      assert p[1..] == [];
    }
  }

  // ---------------------------------------------------------------------------
  // Signs

  /** Dropping the signs changes nothing exactly when no coefficient is negative. */
  lemma {:induction false} MagnitudesFixNonNegative(p: seq<int>)
    ensures Magnitudes(p) == p <==> NonNegative(p)
  {
    if !NonNegative(p) {
      var i :| 0 <= i < |p| && p[i] < 0;
      assert Magnitudes(p)[i] != p[i];
    }
  }

  /** Dropping the signs commutes with removing the first or the last coefficient. */
  lemma MagnitudesSlices(p: seq<int>)
    requires |p| > 0
    ensures Magnitudes(p)[1..] == Magnitudes(p[1..])
    ensures Magnitudes(p)[..|p| - 1] == Magnitudes(p[..|p| - 1])
  {
  }

  /** A polynomial with no negative coefficient is not negative at a non-negative point. */
  lemma {:induction false} EvalNonNegative(p: seq<int>, x: int)
    requires x >= 0 && NonNegative(p)
    ensures Eval(p, x) >= 0
    decreases |p|
  {
    if |p| > 0 {
      EvalNonNegative(p[1..], x);
    }
  }

  /** Division by X - c with c >= 0 leaves a quotient with no negative coefficient when p
      has none past its constant term, which reaches only the remainder. */
  lemma {:induction false} DivLinearNonNegative(p: seq<int>, c: int)
    requires c >= 0
    requires forall i :: 1 <= i < |p| ==> p[i] >= 0
    ensures NonNegative(DivLinear(p, c).0)
    decreases |p|
  {
    if |p| >= 2 {
      var tail := p[1..];
      var sub := DivLinear(tail, c);
      DivLinearNonNegative(tail, c);
      EvalNonNegative(tail, c);
      assert DivLinear(p, c).0 == [sub.1] + sub.0;
    }
  }

  lemma {:induction false} DerivAdd(p: seq<int>, q: seq<int>, x: int)
    ensures Deriv(Add(p, q), x) == Deriv(p, x) + Deriv(q, x)
    decreases |p|
  {
    if |p| > 0 && |q| > 0 {
      DerivAdd(p[1..], q[1..], x);
      EvalAdd(p[1..], q[1..], x);
      var r := Add(p, q);
      assert r[1..] == Add(p[1..], q[1..]);
      assert Deriv(r, x) == Eval(r[1..], x) + x * Deriv(r[1..], x);
      Distribute(x, Deriv(p[1..], x), Deriv(q[1..], x));
    }
  }

  lemma {:induction false} DerivScale(p: seq<int>, a: int, x: int)
    ensures Deriv(Scale(p, a), x) == a * Deriv(p, x)
    decreases |p|
  {
    if |p| > 0 {
      DerivScale(p[1..], a, x);
      EvalScale(p[1..], a, x);
      var sp := Scale(p, a);
      assert sp[1..] == Scale(p[1..], a);
      assert Deriv(sp, x) == Eval(sp[1..], x) + x * Deriv(sp[1..], x);
      Factor(a, Eval(p[1..], x), x, Deriv(p[1..], x));
    }
  }

  /** The product rule. */
  lemma {:induction false} DerivMul(p: seq<int>, q: seq<int>, x: int)
    ensures Deriv(Mul(p, q), x) == Deriv(p, x) * Eval(q, x) + Eval(p, x) * Deriv(q, x)
    decreases |p|
  {
    if |p| > 0 {
      var m' := Mul(p[1..], q);
      assert Mul(p, q) == Add(Scale(q, p[0]), Shift(m'));
      DerivMul(p[1..], q, x);
      EvalMul(p[1..], q, x);
      DerivAdd(Scale(q, p[0]), Shift(m'), x);
      DerivScale(q, p[0], x);
      assert Shift(m')[1..] == m';
      assert Deriv(Shift(m'), x) == Eval(m', x) + x * Deriv(m', x);
      assert Deriv(p, x) == Eval(p[1..], x) + x * Deriv(p[1..], x);
      assert Eval(p, x) == p[0] + x * Eval(p[1..], x);
      ProductRuleStep(p[0], x, Eval(p[1..], x), Deriv(p[1..], x), Eval(q, x), Deriv(q, x));
    }
  }

  lemma ProductRuleStep(a: int, x: int, ep: int, dp: int, eq: int, dq: int)
    ensures a * dq + (ep * eq + x * (dp * eq + ep * dq)) == (ep + x * dp) * eq + (a + x * ep) * dq
  {}

  lemma DerivLinear(c: int, x: int)
    ensures Deriv(Linear(c), x) == 1
  {
    assert Linear(c)[1..] == [1];
    assert [1][1..] == [];
  }

  // ---------------------------------------------------------------------------
  // Roots

  /** No two of xs are congruent mod m. */
  predicate DistinctMod(xs: seq<int>, m: int)
    requires m > 0
  {
    forall i, j :: 0 <= i < j < |xs| ==> xs[i] % m != xs[j] % m
  }

  lemma {:induction false} DistinctModApart(xs: seq<int>, m: int, i: nat, j: nat)
    requires m > 0 && DistinctMod(xs, m) && i < |xs| && j < |xs| && i != j
    ensures xs[i] % m != xs[j] % m
  {
    if j < i {
      assert xs[j] % m != xs[i] % m;
    }
  }

  /** Every coefficient of p is divisible by m. */
  predicate ZeroMod(p: seq<int>, m: int)
    requires m > 0
  {
    forall i :: 0 <= i < |p| ==> p[i] % m == 0
  }

  /** If the quotient and the remainder by X - c vanish mod m, so does p. */
  lemma {:induction false} DivLinearZeroMod(p: seq<int>, c: int, m: int)
    requires m > 0
    requires ZeroMod(DivLinear(p, c).0, m) && DivLinear(p, c).1 % m == 0
    ensures ZeroMod(p, m)
    decreases |p|
  {
    if |p| >= 2 {
      var sub := DivLinear(p[1..], c);
      var q := [sub.1] + sub.0;
      assert DivLinear(p, c) == (q, p[0] + c * sub.1);
      assert q[0] == sub.1 && q[1..] == sub.0;
      assert sub.1 % m == 0 && ZeroMod(sub.0, m);
      DivLinearZeroMod(p[1..], c, m);
      ConstantZeroMod(p[0], c, sub.1, m);
      forall i | 0 <= i < |p|
        ensures p[i] % m == 0
      {
        if i > 0 {
          assert p[i] == p[1..][i - 1];
        }
      }
    }
  }

  lemma ConstantZeroMod(a: int, c: int, r: int, m: int)
    requires m > 0 && r % m == 0 && (a + c * r) % m == 0
    ensures a % m == 0
  {
    DivModUnique(0, m, 0, 0);
    MulCong(c, c, r, 0, m);
    assert (c * 0) % m == 0;
    NegCong(c * r, 0, m);
    AddCong(a + c * r, 0, -(c * r), 0, m);
    assert (a + c * r) + -(c * r) == a;
  }

  /** One step of the root-counting argument: if (xk - c) * e + r and r both vanish mod a
      prime, and xk and c are incongruent, then e vanishes. */
  lemma QuotientVanishes(xk: int, c: int, e: int, r: int, m: int)
    requires IsPrime(m) && xk % m != c % m
    requires ((xk - c) * e + r) % m == 0 && r % m == 0
    ensures e % m == 0
  {
    DivModUnique(0, m, 0, 0);
    NegCong(r, 0, m);
    AddCong((xk - c) * e + r, 0, -r, 0, m);
    assert ((xk - c) * e + r) + -r == (xk - c) * e;
    assert ((xk - c) * e) % m == 0;
    CongIffDiffZero(xk, c, m);
    EuclidLemma(xk - c, e, m);
  }

  /** A polynomial with at most k coefficients that vanishes mod a prime at k pairwise
      incongruent points has every coefficient divisible by that prime. */
  lemma {:induction false} VanishingPolyIsZero(p: seq<int>, xs: seq<int>, m: int)
    requires IsPrime(m)
    requires |p| <= |xs|
    requires DistinctMod(xs, m)
    requires forall k :: 0 <= k < |xs| ==> Eval(p, xs[k]) % m == 0
    ensures ZeroMod(p, m)
    decreases |p|
  {
    if |p| > 0 {
      var c := xs[0];
      var d := DivLinear(p, c);
      var q := d.0;
      var rest := xs[1..];
      assert d.1 % m == 0;
      forall k | 0 <= k < |rest|
        ensures Eval(q, rest[k]) % m == 0
      {
        assert rest[k] == xs[k + 1];
        DivLinearIdentity(p, c, rest[k]);
        QuotientVanishes(rest[k], c, Eval(q, rest[k]), d.1, m);
      }
      VanishingPolyIsZero(q, rest, m);
      DivLinearZeroMod(p, c, m);
    }
  }
}
