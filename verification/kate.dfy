/** The KZG polynomial commitment of the commitment package, in the exponent model.

    A group element g^a is represented by its discrete logarithm a, taken modulo the group
    order n; the generator g is 1. Multiplying elements adds their logarithms, raising an
    element to a power e multiplies its logarithm by e, and the pairing e(g^a, g^b) is
    a * b in the target group. Two elements are equal when their logarithms agree mod n.
    A coefficient reaches PowBig through conv.GmpInt2BigInt, which rebuilds the integer
    from its bytes and so keeps only its magnitude: pk[i] is raised to |c_i|. The
    commitment is therefore g^poly(key) when no coefficient is negative, and can differ
    from it otherwise. */
module Kate {
  import opened ModArith
  import opened Poly

  /** The public parameters: the group order and the logarithms of g^(key^i), i = 0..degree. */
  datatype Setup = Setup(n: int, pk: seq<int>)

  /** The parameters a trusted setup with secret key `key` produces. */
  predicate IsSetup(s: Setup, key: int) {
    && s.n > 1
    && forall i :: 0 <= i < |s.pk| ==> s.pk[i] == Pow(key, i) % s.n
  }

  /** SetupFix2: degree+1 keys, the i-th being g^(key^i mod n). The Go code reads the key
      from a decimal string and needs degree >= -1 to allocate the key slice. */
  method SetupFix2(degree: int, key: int, n: int) returns (s: Setup)
    requires degree >= -1 && n > 1
    ensures s.n == n && |s.pk| == degree + 1
    ensures IsSetup(s, key)
  {
    var pk: seq<int> := [];
    var i := 0;
    while i <= degree
      invariant 0 <= i <= degree + 1
      invariant |pk| == i
      invariant forall j :: 0 <= j < i ==> pk[j] == Pow(key, j) % n
    {
      var t := ModExp(key, i, n);
      // g^t has logarithm t, already in [0, n)
      pk := pk + [t];
      i := i + 1;
    }
    s := Setup(n, pk);
  }

  /** SetupFix: SetupFix2 with the fixed secret key 2. */
  method SetupFix(degree: int, n: int) returns (s: Setup)
    requires degree >= -1 && n > 1
    ensures s.n == n && |s.pk| == degree + 1
    ensures IsSetup(s, 2)
  {
    s := SetupFix2(degree, 2, n);
  }

  /** PolyEval: poly(x) reduced mod the group order. */
  function PolyEval(s: Setup, poly: seq<int>, x: int): (r: int)
    requires s.n > 0
    ensures 0 <= r < s.n
    ensures r == Eval(poly, x) % s.n
  {
    EvalMod(poly, x, s.n)
  }

  /** The integer sum of c[i] * e[i] over the indices of c. */
  function Dot(c: seq<int>, e: seq<int>): int
    requires |c| <= |e|
    decreases |c|
  {
    if |c| == 0 then 0 else Dot(c[..|c| - 1], e) + c[|c| - 1] * e[|c| - 1]
  }

  lemma AccumulateStep(acc: int, d: int, t: int, n: int)
    requires n > 0 && acc == d % n
    ensures (acc + t % n) % n == (d + t) % n
  {
    ModIdempotent(d, n);
    ModIdempotent(t, n);
    AddCong(acc, d, t % n, t, n);
  }

  /** PolyEvalInExponent: the product of pk[i]^|c_i|, starting from the identity. It
      indexes pk by the coefficient positions, so the polynomial may not be longer than
      the setup. */
  function PolyEvalInExponent(s: Setup, poly: seq<int>): (r: int)
    requires s.n > 0 && |poly| <= |s.pk|
    ensures 0 <= r < s.n
    ensures r == Dot(Magnitudes(poly), s.pk) % s.n
    decreases |poly|
  {
    if |poly| == 0 then 0
    else
      var k := |poly| - 1;
      var acc := PolyEvalInExponent(s, poly[..k]);
      MagnitudesSlices(poly);
      assert Magnitudes(poly)[k] * s.pk[k] == s.pk[k] * Abs(poly[k]);
      AccumulateStep(acc, Dot(Magnitudes(poly[..k]), s.pk), s.pk[k] * Abs(poly[k]), s.n);
      (acc + (s.pk[k] * Abs(poly[k])) % s.n) % s.n
  }

  /** Against the keys of a setup, PolyEvalInExponent is g raised to the polynomial with
      its signs dropped, evaluated at the key; without negative coefficients, to poly(key). */
  lemma {:induction false} InExponentAtKey(s: Setup, key: int, poly: seq<int>)
    requires IsSetup(s, key) && |poly| <= |s.pk|
    ensures PolyEvalInExponent(s, poly) == Eval(Magnitudes(poly), key) % s.n
    ensures NonNegative(poly) ==> PolyEvalInExponent(s, poly) == Eval(poly, key) % s.n
  {
    DotOfPowers(s, key, Magnitudes(poly));
    MagnitudesFixNonNegative(poly);
  }

  /** Against the keys of a setup, the sum of c_i * pk[i] is c(key) mod n, for exponents
      c of any sign. */
  lemma {:induction false} DotOfPowers(s: Setup, key: int, poly: seq<int>)
    requires IsSetup(s, key) && |poly| <= |s.pk|
    ensures Dot(poly, s.pk) % s.n == Eval(poly, key) % s.n
    decreases |poly|
  {
    if |poly| > 0 {
      var k := |poly| - 1;
      var init := poly[..k];
      assert poly == init + [poly[k]];
      DotOfPowers(s, key, init);
      EvalAppend(init, poly[k], key);
      ModIdempotent(Pow(key, k), s.n);
      MulCong(poly[k], poly[k], s.pk[k], Pow(key, k), s.n);
      assert poly[k] * s.pk[k] == s.pk[k] * poly[k];
      AddCong(Dot(init, s.pk), Eval(init, key), poly[k] * s.pk[k], poly[k] * Pow(key, k), s.n);
    }
  }

  /** Commit: g^poly(key) for the key of the setup when no coefficient is negative; in
      general g raised to the polynomial with its signs dropped. */
  function Commit(s: Setup, poly: seq<int>): (c: int)
    requires s.n > 0 && |poly| <= |s.pk|
    ensures 0 <= c < s.n
    ensures forall key :: IsSetup(s, key) ==> c == Eval(Magnitudes(poly), key) % s.n
    ensures NonNegative(poly) ==> forall key :: IsSetup(s, key) ==> c == Eval(poly, key) % s.n
  {
    var c := PolyEvalInExponent(s, poly);
    forall key | IsSetup(s, key)
      ensures c == Eval(Magnitudes(poly), key) % s.n
      ensures NonNegative(poly) ==> c == Eval(poly, key) % s.n
    {
      InExponentAtKey(s, key, poly);
    }
    c
  }

  /** VerifyPoly: whether the element C is the commitment to poly. */
  function VerifyPoly(s: Setup, C: int, poly: seq<int>): (ok: bool)
    requires s.n > 0 && |poly| <= |s.pk|
    ensures forall key :: IsSetup(s, key) ==> (ok <==> C % s.n == Eval(Magnitudes(poly), key) % s.n)
    ensures NonNegative(poly) ==>
              forall key :: IsSetup(s, key) ==> (ok <==> C % s.n == Eval(poly, key) % s.n)
  {
    var c := PolyEvalInExponent(s, poly);
    forall key | IsSetup(s, key)
      ensures c == Eval(Magnitudes(poly), key) % s.n
      ensures NonNegative(poly) ==> c == Eval(poly, key) % s.n
    {
      InExponentAtKey(s, key, poly);
    }
    c == C % s.n
  }

  /** A commitment verifies against the polynomial it was made from. */
  lemma {:induction false} CommitVerifies(s: Setup, key: int, poly: seq<int>)
    requires IsSetup(s, key) && |poly| <= |s.pk|
    ensures VerifyPoly(s, Commit(s, poly), poly)
  {
    var c := Commit(s, poly);
    DivModUnique(c, s.n, 0, c);
  }

  /** The quotient CreateWitness commits to: poly with poly(x0) mod n taken off its
      constant term, divided by X - x0 with the remainder dropped. */
  function WitnessQuotient(s: Setup, poly: seq<int>, x0: int): (q: seq<int>)
    requires s.n > 0 && |poly| >= 1
    ensures |q| == |poly| - 1
  {
    var y := PolyEval(s, poly, x0);
    DivLinear(poly[0 := poly[0] - y], x0).0
  }

  /** The witness quotient q satisfies poly - poly(x0) = (X - x0) * q + rem exactly over
      the integers, with a remainder rem that is a multiple of n: the integer division
      leaves a remainder because poly(x0) was reduced mod n before it was subtracted. */
  lemma {:induction false} WitnessQuotientIdentity(s: Setup, poly: seq<int>, x0: int, X: int)
    requires s.n > 0 && |poly| >= 1
    ensures var rem := Eval(poly, x0) - PolyEval(s, poly, x0);
            && rem % s.n == 0
            && Eval(poly, X) - PolyEval(s, poly, x0)
               == (X - x0) * Eval(WitnessQuotient(s, poly, x0), X) + rem
  {
    var y := PolyEval(s, poly, x0);
    var polyT := poly[0 := poly[0] - y];
    EvalAddConstant(poly, -y, X);
    EvalAddConstant(poly, -y, x0);
    DivLinearIdentity(polyT, x0, X);
    var e := Eval(poly, x0);
    assert e - e % s.n == (e / s.n) * s.n;
    ModOfMultiple(e / s.n, s.n);
  }

  /** With x0 >= 0 and no negative coefficient past the constant term, the witness
      quotient has no negative coefficient. */
  lemma {:induction false} WitnessQuotientNonNegative(s: Setup, poly: seq<int>, x0: int)
    requires s.n > 0 && |poly| >= 1
    ensures x0 >= 0 && NonNegative(poly[1..]) ==> NonNegative(WitnessQuotient(s, poly, x0))
  {
    if x0 < 0 || !NonNegative(poly[1..]) {
      return;
    }
    var polyT := poly[0 := poly[0] - PolyEval(s, poly, x0)];
    assert forall i :: 1 <= i < |polyT| ==> polyT[i] == poly[1..][i - 1];
    DivLinearNonNegative(polyT, x0);
  }

  /** CreateWitness: g^q(key) for the witness quotient q when q has no negative
      coefficient, and g raised to q with its signs dropped in general. The input
      polynomial is not changed: the Go code works on a deep copy. */
  function CreateWitness(s: Setup, poly: seq<int>, x0: int): (w: int)
    requires s.n > 0 && 1 <= |poly| <= |s.pk| + 1
    ensures 0 <= w < s.n
    ensures forall key :: IsSetup(s, key) ==>
              w == Eval(Magnitudes(WitnessQuotient(s, poly, x0)), key) % s.n
    ensures x0 >= 0 && NonNegative(poly[1..]) ==>
              forall key :: IsSetup(s, key) ==> w == Eval(WitnessQuotient(s, poly, x0), key) % s.n
  {
    WitnessQuotientNonNegative(s, poly, x0);
    Commit(s, WitnessQuotient(s, poly, x0))
  }

  /** VerifyEval: e(C, g) == e(w, g^key / g^x) * e(g, g)^y, pairing by pairing as the
      Go code computes it. It reads pk[0] and pk[1], so the setup needs degree >= 1. */
  function VerifyEval(s: Setup, C: int, x: int, y: int, w: int): (ok: bool)
    requires s.n > 0 && |s.pk| >= 2
    ensures forall key :: IsSetup(s, key) ==> (ok <==> C % s.n == (w * (key - x) + y) % s.n)
  {
    var n, g, gk := s.n, s.pk[0], s.pk[1];
    var e1 := (C * g) % n;
    var t2 := (g * x) % n;
    var t2' := (gk - t2) % n;
    var e2 := (w * t2') % n;
    var t1 := (g * g) % n;
    var t1' := (t1 * y) % n;
    var e2' := (e2 + t1') % n;
    assert forall key :: IsSetup(s, key) ==> (e1 == e2' <==> C % n == (w * (key - x) + y) % n) by {
      forall key | IsSetup(s, key)
        ensures e1 == e2' <==> C % n == (w * (key - x) + y) % n
      {
        VerifyEvalEquation(n, key, g, gk, C, x, y, w);
      }
    }
    e1 == e2'
  }

  /** The pairing equation with g = 1 and g^key = key mod n. */
  lemma VerifyEvalEquation(n: int, key: int, g: int, gk: int, C: int, x: int, y: int, w: int)
    requires n > 1 && g == Pow(key, 0) % n && gk == Pow(key, 1) % n
    ensures ((C * g) % n
             == ((w * ((gk - (g * x) % n) % n)) % n + ((g * g) % n * y) % n) % n)
            <==> C % n == (w * (key - x) + y) % n
  {
    DivModUnique(1, n, 0, 1);
    assert g == 1;
    assert Pow(key, 1) == key;
    assert C * g == C && g * x == x && g * g == 1;
    assert ((g * g) % n * y) % n == y % n;
    var lhs := (C * g) % n;
    var rhs := ((w * ((gk - (g * x) % n) % n)) % n + ((g * g) % n * y) % n) % n;
    DivModUnique(x, n, x / n, x % n);
    var t2 := (gk - x % n) % n;
    ModIdempotent(key, n);
    ModIdempotent(x, n);
    AddCong(gk, key, -(x % n), -x, n) by {
      NegCong(x % n, x, n);
    }
    assert t2 % n == (key - x) % n by {
      ModIdempotent(gk - x % n, n);
    }
    MulCong(w, w, t2, key - x, n);
    ModIdempotent(w * t2, n);
    ModIdempotent(y, n);
    AddCong((w * t2) % n, w * (key - x), y % n, y, n);
    assert ((w * t2) % n + y % n) % n == (w * (key - x) + y) % n;
    assert lhs == C % n;
    assert rhs == ((w * t2) % n + y % n) % n;
  }

  /** Completeness: for a polynomial without negative coefficients and a point x0 >= 0,
      the witness for x0 verifies against the commitment and the value PolyEval reports.
      Outside that range the sign drop can break it (NegativePointRejected). */
  lemma {:induction false} EvalProofComplete(s: Setup, key: int, poly: seq<int>, x0: int)
    requires IsSetup(s, key) && 1 <= |poly| <= |s.pk| && |s.pk| >= 2
    requires NonNegative(poly) && x0 >= 0
    ensures VerifyEval(s, Commit(s, poly), x0, PolyEval(s, poly, x0), CreateWitness(s, poly, x0))
  {
    var n := s.n;
    var q := WitnessQuotient(s, poly, x0);
    var C, y, w := Commit(s, poly), PolyEval(s, poly, x0), CreateWitness(s, poly, x0);
    WitnessQuotientIdentity(s, poly, x0, key);
    var rem := Eval(poly, x0) - y;
    var eq := Eval(q, key);
    assert NonNegative(poly[1..]);
    ModIdempotent(eq, n);
    CompletenessStep(Eval(poly, key), eq, w, key - x0, y, rem, n);
    ModIdempotent(Eval(poly, key), n);
  }

  /** The sign drop breaks completeness at a negative point: for X^2 at x0 = -1 the
      quotient is -1 + X, the witness commits to 1 + X instead, and VerifyEval rejects it.
      The keys are those of the secret 2 mod 101. */
  lemma NegativePointRejected()
    ensures var s, poly := Setup(101, [1, 2, 4]), [0, 0, 1];
            && IsSetup(s, 2)
            && !VerifyEval(s, Commit(s, poly), -1, PolyEval(s, poly, -1), CreateWitness(s, poly, -1))
  {
    var s, poly := Setup(101, [1, 2, 4]), [0, 0, 1];
    assert Pow(2, 0) == 1 && Pow(2, 1) == 2 && Pow(2, 2) == 4;
    assert IsSetup(s, 2);
    assert Eval(poly, -1) == 1 by {
      assert poly[1..] == [0, 1] && poly[1..][1..] == [1] && poly[1..][1..][1..] == [];
    }
    assert PolyEval(s, poly, -1) == 1;
    var polyT := [-1, 0, 1];
    assert poly[0 := poly[0] - 1] == polyT;
    assert polyT[1..] == [0, 1] && polyT[1..][1..] == [1];
    assert DivLinear([1], -1) == ([], 1);
    assert DivLinear([0, 1], -1) == ([1], -1) by {
      assert [0, 1][1..] == [1] && [1] + [] == [1];
    }
    assert DivLinear(polyT, -1) == ([-1, 1], 0) by {
      assert [-1] + [1] == [-1, 1];
    }
    assert WitnessQuotient(s, poly, -1) == [-1, 1];
    assert Magnitudes([-1, 1]) == [1, 1];
    assert Eval([1, 1], 2) == 3 by {
      assert [1, 1][1..] == [1] && [1][1..] == [];
    }
    assert CreateWitness(s, poly, -1) == 3;
    assert Magnitudes(poly) == poly;
    assert Eval(poly, 2) == 4 by {
      assert poly[1..] == [0, 1] && poly[1..][1..] == [1] && poly[1..][1..][1..] == [];
    }
    assert Commit(s, poly) == 4;
  }

  /** If P == d * E + y + rem with rem a multiple of n and w congruent to E, then
      w * d + y is congruent to P. */
  lemma CompletenessStep(P: int, E: int, w: int, d: int, y: int, rem: int, n: int)
    requires n > 0 && P == d * E + y + rem && rem % n == 0 && w % n == E % n
    ensures (w * d + y) % n == P % n
  {
    MulCong(w, E, d, d, n);
    assert E * d == d * E;
    AddCong(w * d, d * E, y, y, n);
    DivModUnique(0, n, 0, 0);
    AddCong(w * d + y, d * E + y, 0, rem, n);
  }

  /** For a fixed commitment, point and witness at most one value mod n is accepted. */
  lemma EvaluationBinding(s: Setup, key: int, C: int, x: int, y1: int, y2: int, w: int)
    requires IsSetup(s, key) && |s.pk| >= 2
    requires VerifyEval(s, C, x, y1, w) && VerifyEval(s, C, x, y2, w)
    ensures y1 % s.n == y2 % s.n
  {
    var n := s.n;
    var a := w * (key - x);
    assert (a + y1) % n == (a + y2) % n;
    NegCong(a, a, n);
    AddCong(a + y1, a + y2, -a, -a, n);
    assert (a + y1) + -a == y1 && (a + y2) + -a == y2;
  }
}
