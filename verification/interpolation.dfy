/** The interpolation package: Deduplicate and Lagrange reconstruction over the integers
    modulo a prime. */
module Interpolation {
  import opened Wrappers
  import opened ModArith
  import opened Poly

  // ---------------------------------------------------------------------------
  // Deduplicate

  predicate NoDuplicates(s: seq<int>) {
    forall i, j :: 0 <= i < j < |s| ==> s[i] != s[j]
  }

  /** The position of the first occurrence of v in s. */
  function FirstIndex(s: seq<int>, v: int): (i: nat)
    requires v in s
    ensures i < |s| && s[i] == v && v !in s[..i]
  {
    if s[0] == v then 0
    else
      var j := FirstIndex(s[1..], v);
      assert s[..j + 1] == [s[0]] + s[1..][..j];
      j + 1
  }

  /** The distinct values of s, each at the place of its first occurrence: the reference
      the Go code's in-place filter is measured against. */
  function Distinct(s: seq<int>): seq<int>
    decreases |s|
  {
    if |s| == 0 then []
    else
      var init := s[..|s| - 1];
      if s[|s| - 1] in init then Distinct(init) else Distinct(init) + [s[|s| - 1]]
  }

  /** Deduplicate keeps each value of s once, at its first occurrence, using a set of the
      values seen so far. The Go code filters its argument in place; here the input is left
      alone and the filtered sequence is returned. */
  method Deduplicate(s: seq<int>) returns (r: seq<int>)
    ensures r == Distinct(s)
    ensures NoDuplicates(r)
    ensures forall v :: v in r <==> v in s
    ensures forall a, b :: 0 <= a < b < |r| ==> FirstIndex(s, r[a]) < FirstIndex(s, r[b])
    ensures |r| <= |s|
  {
    var seen: set<int> := {};
    r := [];
    var i := 0;
    while i < |s|
      invariant 0 <= i <= |s|
      invariant r == Distinct(s[..i])
      invariant seen == set j | 0 <= j < i :: s[j]
    {
      assert s[..i + 1][..i] == s[..i];
      assert s[..i + 1] == s[..i] + [s[i]];
      assert Distinct(s[..i + 1])
             == if s[i] in s[..i] then Distinct(s[..i]) else Distinct(s[..i]) + [s[i]];
      SeenStep(s, i, seen);
      if s[i] !in seen {
        seen := seen + {s[i]};
        r := r + [s[i]];
      } else {
        assert seen + {s[i]} == seen;
      }
      i := i + 1;
    }
    assert s[..|s|] == s;
    DistinctProperties(s);
  }

  /** The set of values before position i, grown by one position. */
  lemma {:induction false} SeenStep(s: seq<int>, i: nat, seen: set<int>)
    requires i < |s| && seen == set j | 0 <= j < i :: s[j]
    ensures s[i] in seen <==> s[i] in s[..i]
    ensures seen + {s[i]} == set j | 0 <= j < i + 1 :: s[j]
  {
    if s[i] in seen {
      var j :| 0 <= j < i && s[j] == s[i];
      assert s[..i][j] == s[i];
    }
    if s[i] in s[..i] {
      var j :| 0 <= j < i && s[..i][j] == s[i];
      assert s[j] in seen;
    }
  }

  /** No occurrence of v comes before the first. */
  lemma {:induction false} FirstIndexLeast(s: seq<int>, v: int, k: nat)
    requires k < |s| && s[k] == v
    ensures FirstIndex(s, v) <= k
    decreases |s|
  {
    if s[0] != v {
      FirstIndexLeast(s[1..], v, k - 1);
    }
  }

  /** The first occurrence of v in a prefix of s is its first occurrence in s. */
  lemma {:induction false} FirstIndexPrefix(s: seq<int>, k: nat, v: int)
    requires k <= |s| && v in s[..k]
    ensures FirstIndex(s, v) == FirstIndex(s[..k], v)
  {
    var j := FirstIndex(s[..k], v);
    FirstIndexLeast(s, v, j);
    var i := FirstIndex(s, v);
    FirstIndexLeast(s[..k], v, i);
  }

  /** Distinct(s) has no repeats, the same values as s, in first-occurrence order. */
  lemma {:induction false} DistinctProperties(s: seq<int>)
    ensures NoDuplicates(Distinct(s))
    ensures forall v :: v in Distinct(s) <==> v in s
    ensures forall a, b :: 0 <= a < b < |Distinct(s)| ==>
              FirstIndex(s, Distinct(s)[a]) < FirstIndex(s, Distinct(s)[b])
    ensures |Distinct(s)| <= |s|
    decreases |s|
  {
    if |s| > 0 {
      var n := |s|;
      var init, last := s[..n - 1], s[n - 1];
      assert s == init + [last];
      DistinctProperties(init);
      var r' := Distinct(init);
      forall a | 0 <= a < |r'|
        ensures FirstIndex(s, r'[a]) == FirstIndex(init, r'[a])
      {
        FirstIndexPrefix(s, n - 1, r'[a]);
      }
      if last !in init {
        assert FirstIndex(s, last) == n - 1;
        forall a | 0 <= a < |r'|
          ensures FirstIndex(s, r'[a]) < n - 1
        {
          assert FirstIndex(init, r'[a]) < |init|;
        }
      }
    }
  }

  /** On a sequence without repeats Deduplicate changes nothing. */
  lemma {:induction false} DistinctOfNoDuplicates(t: seq<int>)
    requires NoDuplicates(t)
    ensures Distinct(t) == t
    decreases |t|
  {
    if |t| > 0 {
      var init := t[..|t| - 1];
      assert t[|t| - 1] !in init;
      DistinctOfNoDuplicates(init);
      assert t == init + [t[|t| - 1]];
    }
  }

  /** Deduplicating twice is the same as deduplicating once. */
  lemma {:induction false} DeduplicateIdempotent(s: seq<int>)
    ensures Distinct(Distinct(s)) == Distinct(s)
  {
    DistinctProperties(s);
    DistinctOfNoDuplicates(Distinct(s));
  }

  // ---------------------------------------------------------------------------
  // Products of linear factors

  /** The product of (x - xs[j]) over all j. */
  function ProdDiff(xs: seq<int>, x: int): int
    decreases |xs|
  {
    if |xs| == 0 then 1 else ProdDiff(xs[..|xs| - 1], x) * (x - xs[|xs| - 1])
  }

  /** The product of (x - xs[j]) over all j other than i. */
  function ProdExcept(xs: seq<int>, i: nat, x: int): int
    decreases |xs|
  {
    if |xs| == 0 then 1
    else if i == |xs| - 1 then ProdDiff(xs[..|xs| - 1], x)
    else ProdExcept(xs[..|xs| - 1], i, x) * (x - xs[|xs| - 1])
  }

  lemma {:induction false} EvalProduct(xs: seq<int>, x: int)
    ensures Eval(Product(xs), x) == ProdDiff(xs, x)
    decreases |xs|
  {
    if |xs| == 0 {
      assert [1][1..] == [];
    } else {
      var init := xs[..|xs| - 1];
      EvalProduct(init, x);
      EvalMul(Product(init), Linear(xs[|xs| - 1]), x);
      EvalLinear(xs[|xs| - 1], x);
    }
  }

  /** Every xs[k] is a root of the product. */
  lemma {:induction false} ProdDiffRoot(xs: seq<int>, k: nat)
    requires k < |xs|
    ensures ProdDiff(xs, xs[k]) == 0
    decreases |xs|
  {
    if k < |xs| - 1 {
      var init := xs[..|xs| - 1];
      assert init[k] == xs[k];
      ProdDiffRoot(init, k);
    }
  }

  /** The derivative of the product at one of its roots xs[i] is the product of the
      differences to the other points. */
  lemma {:induction false} DerivProduct(xs: seq<int>, i: nat)
    requires i < |xs|
    ensures Deriv(Product(xs), xs[i]) == ProdExcept(xs, i, xs[i])
    decreases |xs|
  {
    var n := |xs|;
    var init, last, x := xs[..n - 1], xs[n - 1], xs[i];
    assert Product(xs) == Mul(Product(init), Linear(last));
    DerivMul(Product(init), Linear(last), x);
    EvalLinear(last, x);
    DerivLinear(last, x);
    EvalProduct(init, x);
    if i < n - 1 {
      assert init[i] == x;
      ProdDiffRoot(init, i);
      DerivProduct(init, i);
    }
  }

  /** Modulo a prime, the product vanishes exactly when one factor does. */
  lemma {:induction false} ProdDiffZeroIff(xs: seq<int>, x: int, m: int)
    requires IsPrime(m)
    ensures ProdDiff(xs, x) % m == 0 <==> exists j :: 0 <= j < |xs| && (x - xs[j]) % m == 0
    decreases |xs|
  {
    if |xs| == 0 {
      DivModUnique(1, m, 0, 1);
    } else {
      var init := xs[..|xs| - 1];
      ProdDiffZeroIff(init, x, m);
      FactorZeroProduct(ProdDiff(init, x), x - xs[|xs| - 1], m);
      if (ProdDiff(init, x) * (x - xs[|xs| - 1])) % m == 0 {
        EuclidLemma(ProdDiff(init, x), x - xs[|xs| - 1], m);
      }
      if exists j :: 0 <= j < |init| && (x - init[j]) % m == 0 {
        var j :| 0 <= j < |init| && (x - init[j]) % m == 0;
        assert xs[j] == init[j];
      }
      if exists j :: 0 <= j < |xs| && (x - xs[j]) % m == 0 {
        var j :| 0 <= j < |xs| && (x - xs[j]) % m == 0;
        if j < |xs| - 1 {
          assert init[j] == xs[j];
        }
      }
    }
  }

  lemma {:induction false} ProdExceptZeroIff(xs: seq<int>, i: nat, x: int, m: int)
    requires IsPrime(m) && i < |xs|
    ensures ProdExcept(xs, i, x) % m == 0 <==>
            exists j :: 0 <= j < |xs| && j != i && (x - xs[j]) % m == 0
    decreases |xs|
  {
    var init := xs[..|xs| - 1];
    if i == |xs| - 1 {
      ProdDiffZeroIff(init, x, m);
      if exists j :: 0 <= j < |init| && (x - init[j]) % m == 0 {
        var j :| 0 <= j < |init| && (x - init[j]) % m == 0;
        assert xs[j] == init[j];
      }
      if exists j :: 0 <= j < |xs| && j != i && (x - xs[j]) % m == 0 {
        var j :| 0 <= j < |xs| && j != i && (x - xs[j]) % m == 0;
        assert init[j] == xs[j];
      }
    } else {
      ProdExceptZeroIff(init, i, x, m);
      FactorZeroProduct(ProdExcept(init, i, x), x - xs[|xs| - 1], m);
      if (ProdExcept(init, i, x) * (x - xs[|xs| - 1])) % m == 0 {
        EuclidLemma(ProdExcept(init, i, x), x - xs[|xs| - 1], m);
      }
      if exists j :: 0 <= j < |init| && j != i && (x - init[j]) % m == 0 {
        var j :| 0 <= j < |init| && j != i && (x - init[j]) % m == 0;
        assert xs[j] == init[j];
      }
      if exists j :: 0 <= j < |xs| && j != i && (x - xs[j]) % m == 0 {
        var j :| 0 <= j < |xs| && j != i && (x - xs[j]) % m == 0;
        if j < |xs| - 1 {
          assert init[j] == xs[j];
        }
      }
    }
  }

  // ---------------------------------------------------------------------------
  // Lagrange reconstruction

  datatype InterpolationError =
    | InvalidDegree          // the zero polynomial of a negative degree cannot be built
    | DuplicateX(index: nat) // "internal error: check duplication in x[]": denominator 0 at index

  /** The scalar denominator of point i: the quotient of the product by X - xs[i],
      reduced mod m and evaluated at xs[i] mod m. */
  function Denominator(xs: seq<int>, m: int, product: seq<int>, i: nat): int
    requires m > 0 && i < |xs|
  {
    EvalMod(ModCoeffs(DivLinear(product, xs[i]).0, m), xs[i], m)
  }

  /** The Go code's second loop from point i on, with acc the result so far. */
  function Accumulate(xs: seq<int>, ys: seq<int>, m: int, product: seq<int>, i: nat,
                      acc: seq<int>): Result<seq<int>, InterpolationError>
    requires IsPrime(m) && |ys| == |xs| && i <= |xs|
    decreases |xs| - i
  {
    if i == |xs| then Success(ModCoeffs(acc, m))
    else
      var inter := ModCoeffs(DivLinear(product, xs[i]).0, m);
      var d := EvalMod(inter, xs[i], m);
      if d == 0 then Failure(DuplicateX(i))
      else Accumulate(xs, ys, m, product, i + 1, AddMul(acc, inter, Inverse(d, m) * ys[i]))
  }

  /** LagrangeInterpolate: the polynomial with degree+1 coefficients in [0, m) through
      (x[i], y[i]) for 0 <= i <= degree; later points are not read. It fails when the
      degree is negative, and when two of the points read have x's congruent mod m. */
  function LagrangeInterpolate(degree: int, x: seq<int>, y: seq<int>, m: int)
    : (r: Result<seq<int>, InterpolationError>)
    requires IsPrime(m)
    requires degree < 0 || (|x| > degree && |y| > degree)
    ensures degree < 0 ==> r == Failure(InvalidDegree)
    ensures degree >= 0 ==> (r.Failure? <==> !DistinctMod(x[..degree + 1], m))
    ensures r.Success? ==> |r.value| == degree + 1
    ensures r.Success? ==> forall j :: 0 <= j < |r.value| ==> 0 <= r.value[j] < m
    ensures r.Success? ==> forall k :: 0 <= k <= degree ==> Eval(r.value, x[k]) % m == y[k] % m
  {
    if degree < 0 then Failure(InvalidDegree)
    else
      var xs, ys := x[..degree + 1], y[..degree + 1];
      var res := Accumulate(xs, ys, m, Product(xs), 0, Zeros(degree + 1));
      LagrangeOutcome(xs, ys, m);
      assert |xs| == degree + 1 && forall k :: 0 <= k <= degree ==> xs[k] == x[k] && ys[k] == y[k];
      res
  }

  /** The denominator of point i is the product of its differences to the other points. */
  lemma {:induction false} DenominatorValue(xs: seq<int>, m: int, i: nat)
    requires m > 0 && i < |xs|
    ensures Denominator(xs, m, Product(xs), i) == ProdExcept(xs, i, xs[i]) % m
  {
    var q := DivLinear(Product(xs), xs[i]).0;
    EvalModCoeffs(q, m, xs[i]);
    QuotientAtPoint(Product(xs), xs[i]);
    DerivProduct(xs, i);
  }

  /** Modulo a prime, the denominator of point i is 0 exactly when another point shares
      its residue. */
  lemma {:induction false} DenominatorZeroIff(xs: seq<int>, m: int, i: nat)
    requires IsPrime(m) && i < |xs|
    ensures Denominator(xs, m, Product(xs), i) == 0 <==>
            exists j :: 0 <= j < |xs| && j != i && xs[j] % m == xs[i] % m
  {
    DenominatorValue(xs, m, i);
    ProdExceptZeroIff(xs, i, xs[i], m);
    SharedResidueIff(xs, i, m, ProdExcept(xs, i, xs[i]));
  }

  lemma {:induction false} SharedResidueIff(xs: seq<int>, i: nat, m: int, v: int)
    requires m > 0 && i < |xs|
    requires v % m == 0 <==> exists j :: 0 <= j < |xs| && j != i && (xs[i] - xs[j]) % m == 0
    ensures v % m == 0 <==> exists j :: 0 <= j < |xs| && j != i && xs[j] % m == xs[i] % m
  {
    if v % m == 0 {
      var j :| 0 <= j < |xs| && j != i && (xs[i] - xs[j]) % m == 0;
      CongIffDiffZero(xs[i], xs[j], m);
    }
    if exists j :: 0 <= j < |xs| && j != i && xs[j] % m == xs[i] % m {
      var j :| 0 <= j < |xs| && j != i && xs[j] % m == xs[i] % m;
      CongIffDiffZero(xs[i], xs[j], m);
    }
  }

  lemma {:induction false} DenominatorNonzero(xs: seq<int>, m: int, i: nat)
    requires IsPrime(m) && i < |xs| && DistinctMod(xs, m)
    ensures Denominator(xs, m, Product(xs), i) != 0
  {
    forall j | 0 <= j < |xs| && j != i
      ensures xs[j] % m != xs[i] % m
    {
      DistinctModApart(xs, m, j, i);
    }
    DenominatorZeroIff(xs, m, i);
  }

  /** The loop fails exactly when some denominator from i on is 0. */
  lemma {:induction false} AccumulateFailureIff(xs: seq<int>, ys: seq<int>, m: int,
                                                product: seq<int>, i: nat, acc: seq<int>)
    requires IsPrime(m) && |ys| == |xs| && i <= |xs|
    ensures Accumulate(xs, ys, m, product, i, acc).Failure? <==>
            exists j :: i <= j < |xs| && Denominator(xs, m, product, j) == 0
    decreases |xs| - i
  {
    if i < |xs| {
      var inter := ModCoeffs(DivLinear(product, xs[i]).0, m);
      var d := EvalMod(inter, xs[i], m);
      if d != 0 {
        AccumulateFailureIff(xs, ys, m, product, i + 1,
                             AddMul(acc, inter, Inverse(d, m) * ys[i]));
        if exists j :: i <= j < |xs| && Denominator(xs, m, product, j) == 0 {
          var j :| i <= j < |xs| && Denominator(xs, m, product, j) == 0;
          assert j != i;
        }
      } else {
        assert Denominator(xs, m, product, i) == 0;
      }
    }
  }

  /** What the result so far promises before point i is processed: it takes y[k] at the
      points already processed and 0 at the others, modulo m. */
  predicate AccInvariant(xs: seq<int>, ys: seq<int>, m: int, i: nat, acc: seq<int>)
    requires m > 0 && |ys| == |xs|
  {
    && |acc| == |xs|
    && forall k :: 0 <= k < |xs| ==> Eval(acc, xs[k]) % m == (if k < i then ys[k] % m else 0)
  }

  /** If p vanishes at c and at xk, and xk and c are incongruent mod a prime, the quotient
      of p by X - c vanishes at xk mod that prime. */
  lemma {:induction false} QuotientVanishesAtRoot(p: seq<int>, c: int, xk: int, m: int)
    requires IsPrime(m) && Eval(p, c) == 0 && Eval(p, xk) == 0 && xk % m != c % m
    ensures Eval(DivLinear(p, c).0, xk) % m == 0
  {
    var d := DivLinear(p, c);
    var e := Eval(d.0, xk);
    DivLinearIdentity(p, c, xk);
    DivModUnique(0, m, 0, 0);
    QuotientVanishes(xk, c, e, d.1, m);
  }

  /** For pairwise incongruent points, the quotient for point i vanishes at every other point. */
  lemma {:induction false} QuotientVanishesElsewhere(xs: seq<int>, m: int, i: nat, k: nat)
    requires IsPrime(m) && DistinctMod(xs, m) && i < |xs| && k < |xs| && k != i
    ensures Eval(DivLinear(Product(xs), xs[i]).0, xs[k]) % m == 0
  {
    EvalProduct(xs, xs[k]);
    EvalProduct(xs, xs[i]);
    ProdDiffRoot(xs, k);
    ProdDiffRoot(xs, i);
    DistinctModApart(xs, m, k, i);
    QuotientVanishesAtRoot(Product(xs), xs[i], xs[k], m);
  }

  /** Adding inter * c for point i keeps the invariant, now with point i processed. */
  lemma {:induction false} AccumulateStepAt(xs: seq<int>, ys: seq<int>, m: int, i: nat, acc: seq<int>, k: nat,
                         c: int, next: seq<int>)
    requires IsPrime(m) && |ys| == |xs| && i < |xs| && k < |xs| && DistinctMod(xs, m)
    requires AccInvariant(xs, ys, m, i, acc)
    requires Denominator(xs, m, Product(xs), i) != 0
    requires c == Inverse(Denominator(xs, m, Product(xs), i), m) * ys[i]
    requires next == AddMul(acc, ModCoeffs(DivLinear(Product(xs), xs[i]).0, m), c)
    ensures Eval(next, xs[k]) % m == (if k < i + 1 then ys[k] % m else 0)
  {
    var q := DivLinear(Product(xs), xs[i]).0;
    var inter := ModCoeffs(q, m);
    var d := Denominator(xs, m, Product(xs), i);
    var inv := Inverse(d, m);
    var a, e := Eval(acc, xs[k]), Eval(inter, xs[k]);
    EvalAddMul(acc, inter, c, xs[k]);
    assert Eval(next, xs[k]) == a + c * e;
    assert a % m == (if k < i then ys[k] % m else 0);
    EvalModCoeffs(q, m, xs[k]);
    if k != i {
      QuotientVanishesElsewhere(xs, m, i, k);
      StepOther(a, e, c, m);
    } else {
      assert e % m == d && 0 < d < m;
      DivModUnique(d, m, 0, d);
      assert (d * inv) % m == 1;
      StepSelf(a, e, d, inv, ys[k], c, m);
    }
  }

  /** Point i's term adds nothing mod m at a point where its quotient vanishes. */
  lemma StepOther(a: int, e: int, c: int, m: int)
    requires m > 0 && e % m == 0
    ensures (a + c * e) % m == a % m
  {
    DivModUnique(0, m, 0, 0);
    MulCong(c, c, e, 0, m);
    AddCong(a, a, c * e, 0, m);
  }

  /** At its own point, the term d^-1 * y * inter contributes y mod m. */
  lemma StepSelf(a: int, e: int, d: int, inv: int, y: int, c: int, m: int)
    requires m > 0 && a % m == 0 && e % m == d && 0 <= d < m && (d * inv) % m == 1
    requires c == inv * y
    ensures (a + c * e) % m == y % m
  {
    DivModUnique(d, m, 0, d);
    MulCong(e, d, inv, inv, m);
    DivModUnique(1, m, 0, 1);
    MulCong(y, y, e * inv, 1, m);
    assert (inv * y) * e == y * (e * inv);
    DivModUnique(0, m, 0, 0);
    AddCong(a, 0, (inv * y) * e, y, m);
  }

  /** With pairwise incongruent points the loop succeeds, and its result has |xs|
      coefficients in [0, m) and takes ys[k] at xs[k] modulo m. */
  lemma {:induction false} AccumulateCorrect(xs: seq<int>, ys: seq<int>, m: int, i: nat,
                                             acc: seq<int>)
    requires IsPrime(m) && |ys| == |xs| && i <= |xs| && DistinctMod(xs, m)
    requires AccInvariant(xs, ys, m, i, acc)
    ensures Accumulate(xs, ys, m, Product(xs), i, acc).Success?
    ensures var r := Accumulate(xs, ys, m, Product(xs), i, acc).value;
            && |r| == |xs|
            && (forall j :: 0 <= j < |r| ==> 0 <= r[j] < m)
            && forall k :: 0 <= k < |xs| ==> Eval(r, xs[k]) % m == ys[k] % m
    decreases |xs| - i
  {
    if i == |xs| {
      var r := ModCoeffs(acc, m);
      forall k | 0 <= k < |xs|
        ensures Eval(r, xs[k]) % m == ys[k] % m
      {
        EvalModCoeffs(acc, m, xs[k]);
        ModIdempotent(ys[k], m);
      }
    } else {
      var inter := ModCoeffs(DivLinear(Product(xs), xs[i]).0, m);
      var d := Denominator(xs, m, Product(xs), i);
      DenominatorNonzero(xs, m, i);
      var acc' := AddMul(acc, inter, Inverse(d, m) * ys[i]);
      forall k | 0 <= k < |xs|
        ensures Eval(acc', xs[k]) % m == (if k < i + 1 then ys[k] % m else 0)
      {
        AccumulateStepAt(xs, ys, m, i, acc, k, Inverse(d, m) * ys[i], acc');
      }
      AccumulateCorrect(xs, ys, m, i + 1, acc');
    }
  }

  /** The outcome of the loop started as the Go code starts it. */
  lemma {:induction false} LagrangeOutcome(xs: seq<int>, ys: seq<int>, m: int)
    requires IsPrime(m) && |ys| == |xs| && |xs| > 0
    ensures var r := Accumulate(xs, ys, m, Product(xs), 0, Zeros(|xs|));
            && (r.Failure? <==> !DistinctMod(xs, m))
            && (r.Success? ==>
                  && |r.value| == |xs|
                  && (forall j :: 0 <= j < |r.value| ==> 0 <= r.value[j] < m)
                  && forall k :: 0 <= k < |xs| ==> Eval(r.value, xs[k]) % m == ys[k] % m)
  {
    var acc := Zeros(|xs|);
    AccumulateFailureIff(xs, ys, m, Product(xs), 0, acc);
    if DistinctMod(xs, m) {
      forall k | 0 <= k < |xs|
        ensures Eval(acc, xs[k]) % m == 0
      {
        EvalZeros(|xs|, xs[k]);
        DivModUnique(0, m, 0, 0);
      }
      AccumulateCorrect(xs, ys, m, 0, acc);
      forall j | 0 <= j < |xs|
        ensures Denominator(xs, m, Product(xs), j) != 0
      {
        DenominatorNonzero(xs, m, j);
      }
    } else {
      var a, b :| 0 <= a < b < |xs| && xs[a] % m == xs[b] % m;
      DenominatorZeroIff(xs, m, a);
    }
  }

  /** Two polynomials of |xs| coefficients that agree mod a prime at |xs| pairwise
      incongruent points agree coefficient by coefficient; r is already reduced. */
  lemma {:induction false} AgreeingPolysEqual(r: seq<int>, fp: seq<int>, xs: seq<int>, m: int)
    requires IsPrime(m) && |r| == |fp| == |xs| && DistinctMod(xs, m)
    requires forall j :: 0 <= j < |r| ==> 0 <= r[j] < m
    requires forall k :: 0 <= k < |xs| ==> Eval(r, xs[k]) % m == Eval(fp, xs[k]) % m
    ensures r == ModCoeffs(fp, m)
  {
    var diff := Add(r, Scale(fp, -1));
    AddEqualLength(r, Scale(fp, -1));
    forall k | 0 <= k < |xs|
      ensures Eval(diff, xs[k]) % m == 0
    {
      EvalAdd(r, Scale(fp, -1), xs[k]);
      EvalScale(fp, -1, xs[k]);
      CongIffDiffZero(Eval(r, xs[k]), Eval(fp, xs[k]), m);
    }
    VanishingPolyIsZero(diff, xs, m);
    forall j | 0 <= j < |r|
      ensures r[j] == fp[j] % m
    {
      assert diff[j] == r[j] - fp[j];
      CongIffDiffZero(r[j], fp[j], m);
      DivModUnique(r[j], m, 0, r[j]);
    }
  }

  /** If the y's are the values mod m of a polynomial f with at most degree+1
      coefficients at pairwise incongruent x's, the reconstruction is f itself, padded to
      degree+1 coefficients and reduced mod m. */
  lemma {:induction false} InterpolationRecoversPolynomial(degree: nat, x: seq<int>, y: seq<int>, m: int,
                                        f: seq<int>)
    requires IsPrime(m) && |x| > degree && |y| > degree && |f| <= degree + 1
    requires DistinctMod(x[..degree + 1], m)
    requires forall k :: 0 <= k <= degree ==> y[k] % m == Eval(f, x[k]) % m
    ensures LagrangeInterpolate(degree, x, y, m)
            == Success(ModCoeffs(f + Zeros(degree + 1 - |f|), m))
  {
    var xs := x[..degree + 1];
    var res := LagrangeInterpolate(degree, x, y, m);
    var r := res.value;
    var fp := f + Zeros(degree + 1 - |f|);
    forall k | 0 <= k < |xs|
      ensures Eval(r, xs[k]) % m == Eval(fp, xs[k]) % m
    {
      EvalPadZeros(f, degree + 1 - |f|, xs[k]);
    }
    AgreeingPolysEqual(r, fp, xs, m);
  }

  /** Only the first degree+1 points are read. */
  lemma {:induction false} IgnoresLaterPoints(degree: nat, x: seq<int>, y: seq<int>, x': seq<int>, y': seq<int>,
                           m: int)
    requires IsPrime(m) && |x| > degree && |y| > degree && |x'| > degree && |y'| > degree
    requires x[..degree + 1] == x'[..degree + 1] && y[..degree + 1] == y'[..degree + 1]
    ensures LagrangeInterpolate(degree, x, y, m) == LagrangeInterpolate(degree, x', y', m)
  {
  }
}
