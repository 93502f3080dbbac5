/** The coefficient-wise commitment both polycommit backends implement: one group element
    per coefficient, c[i] = |coeff_i| * G, written once over a cyclic group of prime order N
    in the exponent model (an element is its discrete logarithm to the base G, taken mod N;
    G is 1, adding points adds logarithms, scalar multiplication multiplies them).

    Both backends hand a coefficient to the group through its big-endian bytes, which
    drop its sign: p521 passes coeff.Bytes() to ScalarBaseMult, and pbc passes
    conv.GmpInt2BigInt(coeff), rebuilt by SetBytes from those bytes, to PowBig. They differ
    only in how VerifyEval's claimed value y reaches the group: p521 passes y.Bytes()
    (Magnitude), pbc raises G to the signed big integer (Signed). */
module Pedersen {
  import opened Wrappers
  import opened ModArith
  import opened Poly

  datatype ScalarEncoding = Magnitude | Signed

  /** The group: its order N and how VerifyEval's value y is taken. */
  datatype Group = Group(order: int, valueEncoding: ScalarEncoding)

  /** The logarithm of k * G when k reaches a group of order n under enc (ScalarBaseMult
      of k.Bytes(), or G.PowBig(k)). */
  function Base(enc: ScalarEncoding, n: int, k: int): (e: int)
    requires n > 0
    ensures 0 <= e < n
    ensures enc == Signed || k >= 0 ==> e == k % n
    ensures enc == Magnitude ==> e == Abs(k) % n
  {
    match enc
    case Magnitude => Abs(k) % n
    case Signed => k % n
  }

  /** The logarithm of coeff * G, as both backends compute it: from the magnitude. */
  function CoeffBase(g: Group, k: int): int
    requires g.order > 0
  {
    Base(Magnitude, g.order, k)
  }

  /** The logarithm of y * G in VerifyEval. */
  function ValueBase(g: Group, y: int): int
    requires g.order > 0
  {
    Base(g.valueEncoding, g.order, y)
  }

  /** Two elements are the same point when their logarithms agree mod N. */
  predicate Same(g: Group, a: int, b: int)
    requires g.order > 0
  {
    a % g.order == b % g.order
  }

  /** NewPolyCommit: |coeff_i| * G for every coefficient. */
  function NewPolyCommit(g: Group, poly: seq<int>): (c: seq<int>)
    requires g.order > 0
    ensures |c| == |poly|
    ensures forall i :: 0 <= i < |poly| ==> c[i] == CoeffBase(g, poly[i]) == Abs(poly[i]) % g.order
  {
    if |poly| == 0 then [] else [CoeffBase(g, poly[0])] + NewPolyCommit(g, poly[1..])
  }

  /** The commitment agrees with |coeff_i| * G on every coefficient of poly; entries past
      the coefficients are not looked at. */
  predicate Matches(g: Group, comm: seq<int>, poly: seq<int>)
    requires g.order > 0
  {
    && |poly| <= |comm|
    && forall i :: 0 <= i < |poly| ==> Same(g, comm[i], CoeffBase(g, poly[i]))
  }

  /** Verify's loop from coefficient i on: it stops at the first mismatch. */
  function VerifyFrom(g: Group, comm: seq<int>, poly: seq<int>, i: nat): bool
    requires g.order > 0 && i <= |poly|
    requires |poly| <= |comm| || exists j :: i <= j < |poly| && j < |comm| && !Same(g, CoeffBase(g, poly[j]), comm[j])
    decreases |poly| - i
  {
    if i == |poly| then true
    else if !Same(g, CoeffBase(g, poly[i]), comm[i]) then false
    else VerifyFrom(g, comm, poly, i + 1)
  }

  /** Verify: whether the commitment matches the coefficients of poly. The Go code indexes
      the commitment by the coefficient positions until the first mismatch, so the
      commitment must be long enough to reach one, or to cover all coefficients. */
  function Verify(g: Group, comm: seq<int>, poly: seq<int>): (ok: bool)
    requires g.order > 0
    requires |poly| <= |comm| || exists j :: 0 <= j < |poly| && j < |comm| && !Same(g, CoeffBase(g, poly[j]), comm[j])
    ensures ok <==> Matches(g, comm, poly)
  {
    VerifyFromCorrect(g, comm, poly, 0);
    VerifyFrom(g, comm, poly, 0)
  }

  lemma {:induction false} VerifyFromCorrect(g: Group, comm: seq<int>, poly: seq<int>, i: nat)
    requires g.order > 0 && i <= |poly|
    requires |poly| <= |comm| || exists j :: i <= j < |poly| && j < |comm| && !Same(g, CoeffBase(g, poly[j]), comm[j])
    requires forall j :: 0 <= j < i ==> j < |comm| && Same(g, comm[j], CoeffBase(g, poly[j]))
    ensures VerifyFrom(g, comm, poly, i) <==> Matches(g, comm, poly)
    decreases |poly| - i
  {
    if i < |poly| && Same(g, CoeffBase(g, poly[i]), comm[i]) {
      if |poly| > |comm| {
        var j :| i <= j < |poly| && j < |comm| && !Same(g, CoeffBase(g, poly[j]), comm[j]);
        assert j != i;
      }
      VerifyFromCorrect(g, comm, poly, i + 1);
    }
  }

  /** A commitment verifies against the polynomial it was made from. */
  lemma {:induction false} CommitmentVerifies(g: Group, poly: seq<int>)
    requires g.order > 0
    ensures Verify(g, NewPolyCommit(g, poly), poly)
  {
    var c := NewPolyCommit(g, poly);
    forall i | 0 <= i < |poly|
      ensures Same(g, c[i], CoeffBase(g, poly[i]))
    {
      ModIdempotent(c[i], g.order);
    }
  }

  /** VerifyEval: sum of (x^i mod N) * c[i], starting from the identity, compared with
      y * G. The power of x is kept reduced mod N after every step. */
  method VerifyEval(g: Group, comm: seq<int>, x: int, y: int) returns (ok: bool)
    requires g.order > 1
    ensures ok <==> Eval(comm, x) % g.order == ValueBase(g, y)
  {
    var n := g.order;
    var gY := ValueBase(g, y);
    var xx := 1;
    var acc := 0;
    var i := 0;
    DivModUnique(1, n, 0, 1);
    DivModUnique(0, n, 0, 0);
    assert comm[..0] == [];
    while i < |comm|
      invariant 0 <= i <= |comm|
      invariant xx == Pow(x, i) % n
      invariant 0 <= acc < n && acc == Eval(comm[..i], x) % n
    {
      var tmp := (comm[i] * xx) % n;
      assert comm[..i + 1] == comm[..i] + [comm[i]];
      EvalAppend(comm[..i], comm[i], x);
      EvalStep(acc, Eval(comm[..i], x), comm[i], xx, Pow(x, i), n);
      acc := (acc + tmp) % n;
      PowStep(xx, x, i, n);
      xx := (xx * x) % n;
      i := i + 1;
    }
    assert comm[..|comm|] == comm;
    ok := acc == gY;
  }

  lemma EvalStep(acc: int, e: int, c: int, xx: int, p: int, n: int)
    requires n > 0 && acc == e % n && xx == p % n
    ensures (acc + (c * xx) % n) % n == (e + c * p) % n
  {
    ModIdempotent(p, n);
    MulCong(c, c, xx, p, n);
    ModIdempotent(c * p, n);
    ModIdempotent(e, n);
    AddCong(acc, e, (c * xx) % n, c * p, n);
  }

  lemma PowStep(xx: int, x: int, i: nat, n: int)
    requires n > 0 && xx == Pow(x, i) % n
    ensures (xx * x) % n == Pow(x, i + 1) % n
  {
    ModIdempotent(Pow(x, i), n);
    MulCong(xx, Pow(x, i), x, x, n);
    assert Pow(x, i + 1) == x * Pow(x, i);
  }

  /** The commitment taken as a polynomial of logarithms evaluates, mod N, to the
      polynomial with its signs dropped; so to poly(x) when no coefficient is negative. */
  lemma {:induction false} CommitmentEvaluates(g: Group, poly: seq<int>, x: int)
    requires g.order > 0
    ensures Eval(NewPolyCommit(g, poly), x) % g.order == Eval(Magnitudes(poly), x) % g.order
    ensures NonNegative(poly) ==>
              Eval(NewPolyCommit(g, poly), x) % g.order == Eval(poly, x) % g.order
    decreases |poly|
  {
    MagnitudesFixNonNegative(poly);
    if |poly| > 0 {
      var n := g.order;
      var c := NewPolyCommit(g, poly);
      var m := Magnitudes(poly);
      MagnitudesSlices(poly);
      assert c[1..] == NewPolyCommit(g, poly[1..]);
      CommitmentEvaluates(g, poly[1..], x);
      MulCong(x, x, Eval(c[1..], x), Eval(m[1..], x), n);
      ModIdempotent(m[0], n);
      AddCong(c[0], m[0], x * Eval(c[1..], x), x * Eval(m[1..], x), n);
    }
  }

  /** For an honest commitment, VerifyEval's equation holds exactly when the polynomial
      with its signs dropped, at x, is y * G's logarithm mod N; for a polynomial without
      negative coefficients, exactly when poly(x) is. */
  lemma {:induction false} HonestEvaluation(g: Group, poly: seq<int>, x: int, y: int)
    requires g.order > 0
    ensures Eval(NewPolyCommit(g, poly), x) % g.order == ValueBase(g, y)
            <==> Eval(Magnitudes(poly), x) % g.order == ValueBase(g, y)
    ensures NonNegative(poly) ==>
              (Eval(NewPolyCommit(g, poly), x) % g.order == ValueBase(g, y)
               <==> Eval(poly, x) % g.order == ValueBase(g, y))
  {
    CommitmentEvaluates(g, poly, x);
  }

  /** AdditiveHomomorphism: the element-wise group operation. None on a length mismatch,
      where the Go code panics. */
  function AdditiveHomomorphism(g: Group, q: seq<int>, r: seq<int>): (c: Option<seq<int>>)
    requires g.order > 0
    ensures c.None? <==> |q| != |r|
    ensures c.Some? ==> |c.value| == |q|
                        && forall i :: 0 <= i < |q| ==> c.value[i] == (q[i] + r[i]) % g.order
  {
    if |q| != |r| then None else Some(Combine(g, q, r))
  }

  /** The point-wise group operation on two commitments of the same length. */
  function Combine(g: Group, q: seq<int>, r: seq<int>): (c: seq<int>)
    requires g.order > 0 && |q| == |r|
    ensures |c| == |q|
    ensures forall i :: 0 <= i < |q| ==> c[i] == (q[i] + r[i]) % g.order
  {
    if |q| == 0 then [] else [(q[0] + r[0]) % g.order] + Combine(g, q[1..], r[1..])
  }

  /** Equals: same length and the same point at every position; that is, the same
      commitment once every logarithm is reduced mod N. */
  function Equals(g: Group, c1: seq<int>, c2: seq<int>): (eq: bool)
    requires g.order > 0
    ensures eq ==> |c1| == |c2|
    ensures eq <==> ModCoeffs(c1, g.order) == ModCoeffs(c2, g.order)
  {
    var eq := |c1| == |c2| && forall i :: 0 <= i < |c1| ==> Same(g, c1[i], c2[i]);
    assert eq <== ModCoeffs(c1, g.order) == ModCoeffs(c2, g.order) by {
      if ModCoeffs(c1, g.order) == ModCoeffs(c2, g.order) {
        assert forall i :: 0 <= i < |c1| ==> ModCoeffs(c1, g.order)[i] == ModCoeffs(c2, g.order)[i];
      }
    }
    eq
  }

  lemma {:induction false} EqualsIsEquivalence(g: Group, c1: seq<int>, c2: seq<int>, c3: seq<int>)
    requires g.order > 0
    ensures Equals(g, c1, c1)
    ensures Equals(g, c1, c2) ==> Equals(g, c2, c1)
    ensures Equals(g, c1, c2) && Equals(g, c2, c3) ==> Equals(g, c1, c3)
  {
  }

  /** On canonical commitments (every logarithm in [0, N)) Equals is equality. */
  lemma {:induction false} EqualsCanonical(g: Group, c1: seq<int>, c2: seq<int>)
    requires g.order > 0
    requires forall i :: 0 <= i < |c1| ==> 0 <= c1[i] < g.order
    requires forall i :: 0 <= i < |c2| ==> 0 <= c2[i] < g.order
    ensures Equals(g, c1, c2) <==> c1 == c2
  {
    if Equals(g, c1, c2) {
      forall i | 0 <= i < |c1|
        ensures c1[i] == c2[i]
      {
        DivModUnique(c1[i], g.order, 0, c1[i]);
        DivModUnique(c2[i], g.order, 0, c2[i]);
      }
    }
  }

  /** Neither number is positive while the other is negative: then |a| + |b| is |a + b|. */
  predicate SameSign(a: int, b: int) {
    (a >= 0 && b >= 0) || (a <= 0 && b <= 0)
  }

  /** Adding the commitments to Q and R commits to Q + R, for equal lengths, when no two
      coefficients at the same position have opposite signs (MagnitudeNotHomomorphic
      shows a pair that has). */
  lemma {:induction false} Homomorphism(g: Group, q: seq<int>, r: seq<int>)
    requires g.order > 0 && |q| == |r|
    requires forall i :: 0 <= i < |q| ==> SameSign(q[i], r[i])
    ensures AdditiveHomomorphism(g, NewPolyCommit(g, q), NewPolyCommit(g, r))
            == Some(NewPolyCommit(g, Add(q, r)))
  {
    var lhs := AdditiveHomomorphism(g, NewPolyCommit(g, q), NewPolyCommit(g, r)).value;
    var rhs := NewPolyCommit(g, Add(q, r));
    forall i | 0 <= i < |q|
      ensures lhs[i] == rhs[i]
    {
      HomomorphismAt(g, q, r, i);
    }
    assert |rhs| == |q| == |lhs|;
    assert lhs == rhs;
  }

  lemma {:induction false} HomomorphismAt(g: Group, q: seq<int>, r: seq<int>, i: int)
    requires g.order > 0 && |q| == |r| && 0 <= i < |q|
    requires SameSign(q[i], r[i])
    ensures AdditiveHomomorphism(g, NewPolyCommit(g, q), NewPolyCommit(g, r)).value[i]
            == NewPolyCommit(g, Add(q, r))[i]
  {
    var cq, cr := NewPolyCommit(g, q), NewPolyCommit(g, r);
    AddAt(q, r, i);
    BaseAdds(g, q[i], r[i], cq[i], cr[i]);
  }

  lemma {:induction false} AddAt(q: seq<int>, r: seq<int>, i: int)
    requires |q| == |r| && 0 <= i < |q|
    ensures |Add(q, r)| == |q| && Add(q, r)[i] == q[i] + r[i]
  {
    AddEqualLength(q, r);
  }

  lemma BaseAdds(g: Group, a: int, b: int, ea: int, eb: int)
    requires g.order > 0 && ea == CoeffBase(g, a) && eb == CoeffBase(g, b)
    requires SameSign(a, b)
    ensures (ea + eb) % g.order == CoeffBase(g, a + b)
  {
    var n := g.order;
    assert Abs(a) + Abs(b) == Abs(a + b);
    ModIdempotent(Abs(a), n);
    ModIdempotent(Abs(b), n);
    AddCong(Abs(a) % n, Abs(a), Abs(b) % n, Abs(b), n);
  }

  /** Coefficients of opposite signs break the homomorphism, as the sign is dropped:
      (-1) * G + 1 * G is 2 * G, not the 0 * G committed to by the sum. */
  lemma MagnitudeNotHomomorphic(g: Group)
    requires g.order > 2
    ensures AdditiveHomomorphism(g, NewPolyCommit(g, [-1]), NewPolyCommit(g, [1]))
            != Some(NewPolyCommit(g, Add([-1], [1])))
  {
    var n := g.order;
    DivModUnique(1, n, 0, 1);
    DivModUnique(2, n, 0, 2);
    DivModUnique(0, n, 0, 0);
    assert Add([-1], [1]) == [0];
    assert NewPolyCommit(g, [-1]) == [1];
    assert NewPolyCommit(g, [1]) == [1];
    assert AdditiveHomomorphism(g, [1], [1]).value[0] == 2;
    assert NewPolyCommit(g, [0])[0] == 0;
  }
}
