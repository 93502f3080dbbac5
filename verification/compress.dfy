/** Compressed encoding of points of a short Weierstrass curve y^2 = x^3 - 3x + b over
    the integers mod a prime P, as the p521 package writes and reads it: a header byte,
    then x big-endian, left-padded to the curve's byte length. The point at infinity, which
    Go's crypto/elliptic represents as (0, 0), is written with the header 0xFF. */
module Compress {
  import opened Wrappers
  import opened ModArith

  newtype byte = b: int | 0 <= b < 256

  /** The parameters of the curve the encoding uses: bit size, field prime and constant b. */
  datatype Curve = Curve(bitSize: nat, P: int, B: int)

  /** The NIST P-521 parameters crypto/elliptic.P521 carries. */
  const P521: Curve := Curve(
    521,
    6864797660130609714981900799081393217269435300143305409394463459185543183397656052122559640661454554977296311391480858037121987999716643812574028291115057151,
    1093849038073734274511112390766805569936207598951683748994586394495953116150735016013708737573759623248592132296706313309438452531591012912142327488478985984)

  /** The number of bytes an x coordinate is padded to: the bit size rounded up to bytes. */
  function ByteLen(c: Curve): nat {
    (c.bitSize + 7) / 8
  }

  lemma P521Parameters()
    ensures ByteLen(P521) == 66
    ensures P521.P > 2 && P521.P % 2 == 1 && 0 <= P521.B < P521.P
  {
  }

  // ---------------------------------------------------------------------------
  // Big-endian byte strings

  function ZeroBytes(k: nat): (z: seq<byte>)
    ensures |z| == k && forall i :: 0 <= i < k ==> z[i] == 0
  {
    seq(k, _ => 0)
  }

  lemma BoundStep(v: int, d: int, q: int)
    requires 0 <= v < q && 0 <= d < 256
    ensures v * 256 + d < 256 * q
  {
    assert v * 256 <= (q - 1) * 256;
  }

  /** The value of a big-endian byte string (big.Int.SetBytes). */
  function FromBytes(b: seq<byte>): (v: nat)
    ensures v < Pow(256, |b|)
    decreases |b|
  {
    if |b| == 0 then 0
    else
      var hi := FromBytes(b[..|b| - 1]);
      BoundStep(hi, b[|b| - 1] as int, Pow(256, |b| - 1));
      hi * 256 + b[|b| - 1] as int
  }

  /** The shortest big-endian byte string of v (big.Int.Bytes of a non-negative value):
      it reads back as v and has no leading zero byte. */
  function ToBytes(v: nat): (b: seq<byte>)
    ensures FromBytes(b) == v
    ensures |b| > 0 ==> b[0] != 0
    decreases v
  {
    if v == 0 then []
    else
      var hi := ToBytes(v / 256);
      var b := hi + [(v % 256) as byte];
      assert b[..|b| - 1] == hi;
      b
  }

  lemma PowPositive(k: nat)
    ensures Pow(256, k) >= 1
  {
    if k > 0 {
      PowPositive(k - 1);
    }
  }

  /** The shortest encoding of v fits in k bytes exactly when v < 256^k. */
  lemma {:induction false} ToBytesFits(v: nat, k: nat)
    ensures |ToBytes(v)| <= k <==> v < Pow(256, k)
    decreases k
  {
    if v == 0 {
      PowPositive(k);
    } else if k == 0 {
    } else {
      ToBytesFits(v / 256, k - 1);
      DivModUnique(v, 256, v / 256, v % 256);
      if v < Pow(256, k) {
        assert v / 256 < Pow(256, k - 1);
      } else {
        assert Pow(256, k) == 256 * Pow(256, k - 1);
      }
    }
  }

  /** Leading zero bytes do not change the value. */
  lemma {:induction false} FromBytesLeadingZeros(k: nat, b: seq<byte>)
    ensures FromBytes(ZeroBytes(k) + b) == FromBytes(b)
    decreases |b|, k
  {
    if |b| == 0 {
      assert ZeroBytes(k) + b == ZeroBytes(k);
      if k > 0 {
        assert ZeroBytes(k)[..k - 1] == ZeroBytes(k - 1);
        FromBytesLeadingZeros(k - 1, []);
        assert ZeroBytes(k - 1) + [] == ZeroBytes(k - 1);
      }
    } else {
      var z := ZeroBytes(k) + b;
      assert z[..|z| - 1] == ZeroBytes(k) + b[..|b| - 1];
      FromBytesLeadingZeros(k, b[..|b| - 1]);
    }
  }

  // ---------------------------------------------------------------------------
  // Square roots mod P

  predicate IsRootMod(t: int, v: int, p: int)
    requires p > 0
  {
    (t * t) % p == v % p
  }

  /** The least square root of v mod p that is at least k, if there is one. */
  function FindRoot(v: int, p: int, k: nat): (r: Option<int>)
    requires p > 0
    ensures r.Some? ==> k <= r.value < p && IsRootMod(r.value, v, p)
    ensures r.None? ==> forall t :: k <= t < p ==> !IsRootMod(t, v, p)
    decreases p - k
  {
    if k >= p then None
    else if IsRootMod(k, v, p) then Some(k)
    else FindRoot(v, p, k + 1)
  }

  /** big.Int.ModSqrt: a square root of v in [0, p), or None when v is not a square mod p.
      Which of the two roots Go returns is not specified; Unmarshal's result does not
      depend on it (RootChoiceIrrelevant). */
  function ModSqrt(v: int, p: int): (r: Option<int>)
    requires p > 0
    ensures r.Some? ==> 0 <= r.value < p && IsRootMod(r.value, v, p)
    ensures r.None? ==> forall t :: 0 <= t < p ==> !IsRootMod(t, v, p)
  {
    FindRoot(v, p, 0)
  }

  /** (x, y) satisfies the curve equation mod P. */
  predicate OnCurve(c: Curve, x: int, y: int)
    requires c.P > 0
  {
    IsRootMod(y, x * x * x - 3 * x + c.B, c.P)
  }

  /** Some y in [0, P) puts (x, y) on the curve. */
  predicate HasOrdinate(c: Curve, x: int)
    requires c.P > 0
  {
    exists t :: 0 <= t < c.P && OnCurve(c, x, t)
  }

  /** x^3 - 3x + b mod P, reduced in the order the Go code reduces it. */
  function YSquared(c: Curve, x: int): (v: int)
    requires c.P > 0
    ensures 0 <= v < c.P
    ensures v == (x * x * x - 3 * x + c.B) % c.P
  {
    var p := c.P;
    assert Pow(x, 1) == x;
    assert Pow(x, 2) == x * x;
    assert Pow(x, 3) == x * x * x;
    ModIdempotent(x * x * x, p);
    ModIdempotent(3 * x, p);
    NegCong((3 * x) % p, 3 * x, p);
    AddCong(Pow(x, 3) % p, x * x * x, -((3 * x) % p), -(3 * x), p);
    ModIdempotent(c.B, p);
    AddCong(Pow(x, 3) % p - (3 * x) % p, x * x * x - 3 * x, c.B, c.B, p);
    (Pow(x, 3) % p - (3 * x) % p + c.B) % p
  }

  /** The root whose parity matches the header bit: r itself, or -r mod P. */
  function MatchParity(r: int, header: byte, p: int): int
    requires p > 0
  {
    if r % 2 != (header as int) % 2 then (-r) % p else r
  }

  // ---------------------------------------------------------------------------
  // Marshal and Unmarshal

  /** Marshal: 1 + ByteLen bytes. (0, 0) is 0xFF followed by zeros; any other point is
      the header 2 + (y mod 2) followed by |x| big-endian, left-padded with zeros. The
      Go code copies the bytes of |x| so that they end at the last byte: ByteLen + 1 of
      them would overwrite the header, and more would index before the start and panic.
      The precondition keeps |x| within the ByteLen-byte slot. */
  function Marshal(c: Curve, x: int, y: int): (r: seq<byte>)
    requires Abs(x) < Pow(256, ByteLen(c))
    ensures |r| == 1 + ByteLen(c)
    ensures x == 0 && y == 0 ==> r[0] == 0xFF && forall i :: 1 <= i < |r| ==> r[i] == 0
    ensures !(x == 0 && y == 0) ==> r[0] as int == 2 + y % 2 && FromBytes(r[1..]) == Abs(x)
  {
    var n := ByteLen(c);
    if x == 0 && y == 0 then [0xFF] + ZeroBytes(n)
    else
      var header: byte := (2 + y % 2) as byte;
      var r := [header] + PadBytes(Abs(x), n);
      assert r[1..] == PadBytes(Abs(x), n);
      r
  }

  /** v big-endian in a slot of exactly n bytes, left-padded with zeros. */
  function PadBytes(v: nat, n: nat): (b: seq<byte>)
    requires v < Pow(256, n)
    ensures |b| == n && FromBytes(b) == v
  {
    var xb := ToBytes(v);
    ToBytesFits(v, n);
    FromBytesLeadingZeros(n - |xb|, xb);
    ZeroBytes(n - |xb|) + xb
  }

  /** The point with abscissa x whose ordinate has the header's parity, if x is on the
      curve at all. */
  function Decompress(c: Curve, header: byte, x: int): (r: Option<(int, int)>)
    requires c.P > 2 && c.P % 2 == 1
    ensures r.None? <==> !HasOrdinate(c, x)
    ensures r.Some? ==>
              && r.value.0 == x
              && 0 <= r.value.1 < c.P
              && OnCurve(c, x, r.value.1)
              && (r.value.1 != 0 ==> r.value.1 % 2 == (header as int) % 2)
  {
    var ySq := YSquared(c, x);
    RootsAreCurvePoints(c, x);
    match ModSqrt(ySq, c.P)
    case None =>
      None
    case Some(root) =>
      assert 0 <= root < c.P && OnCurve(c, x, root);
      MatchParityCorrect(root, ySq, header, c.P);
      Some((x, MatchParity(root, header, c.P)))
  }

  /** Unmarshal: a 0xFF header gives (0, 0). Otherwise x is the value of the remaining
      bytes and y the square root of x^3 - 3x + b mod P whose parity is the header's low
      bit; a root 0 is kept whatever the header says. None when x^3 - 3x + b has no square
      root mod P, where the Go code panics. Go's ModSqrt panics on an even modulus. */
  function Unmarshal(c: Curve, data: seq<byte>): (r: Option<(int, int)>)
    requires |data| >= 1 && c.P > 2 && c.P % 2 == 1
    ensures data[0] == 0xFF ==> r == Some((0, 0))
    ensures data[0] != 0xFF ==>
              (r.None? <==> !HasOrdinate(c, FromBytes(data[1..])))
    ensures data[0] != 0xFF && r.Some? ==>
              && r.value.0 == FromBytes(data[1..])
              && 0 <= r.value.1 < c.P
              && OnCurve(c, r.value.0, r.value.1)
              && (r.value.1 != 0 ==> r.value.1 % 2 == (data[0] as int) % 2)
  {
    if data[0] == 0xFF then Some((0, 0))
    else Decompress(c, data[0], FromBytes(data[1..]))
  }

  /** The roots of YSquared(c, x) are the y's that put (x, y) on the curve. */
  lemma RootsAreCurvePoints(c: Curve, x: int)
    requires c.P > 0
    ensures forall t :: IsRootMod(t, YSquared(c, x), c.P) <==> OnCurve(c, x, t)
  {
    ModIdempotent(x * x * x - 3 * x + c.B, c.P);
  }

  lemma NegSquare(r: int, p: int)
    requires p > 0
    ensures ((p - r) * (p - r)) % p == (r * r) % p
  {
    assert (p - r) * (p - r) == (p - r) * p - (p - r) * r;
    assert (p - r) * p == p * p - r * p;
    assert (p - r) * r == p * r - r * r;
    assert (p - 2 * r) * p == p * p - 2 * (r * p);
    ModShift(r * r, p - 2 * r, p);
  }

  /** Subtracting from an odd number flips the parity. */
  lemma OddMinusParity(p: int, r: int)
    requires p % 2 == 1
    ensures (p - r) % 2 != r % 2
  {
    var a, b := p / 2, r / 2;
    assert p == 2 * a + 1;
    assert r == 2 * b + r % 2;
    if r % 2 == 0 {
      DivModUnique(p - r, 2, a - b, 1);
    } else {
      DivModUnique(p - r, 2, a - b, 0);
    }
  }

  /** The parity-matched root is still a root in [0, p), and has the header's parity
      unless it is 0. */
  lemma MatchParityCorrect(r: int, v: int, header: byte, p: int)
    requires p > 2 && p % 2 == 1 && 0 <= r < p && IsRootMod(r, v, p)
    ensures var y := MatchParity(r, header, p);
            && 0 <= y < p && IsRootMod(y, v, p)
            && (y != 0 ==> y % 2 == (header as int) % 2)
  {
    if r % 2 != (header as int) % 2 {
      if r == 0 {
        DivModUnique(0, p, 0, 0);
      } else {
        DivModUnique(-r, p, -1, p - r);
        NegSquare(r, p);
        OddMinusParity(p, r);
      }
    }
  }

  /** Modulo an odd prime, a square root in [0, p) is determined by its parity, except
      that 0 has no parity constraint. */
  lemma ParityPinsRoot(y1: int, y2: int, v: int, h: int, p: int)
    requires IsPrime(p) && p % 2 == 1
    requires 0 <= y1 < p && 0 <= y2 < p && IsRootMod(y1, v, p) && IsRootMod(y2, v, p)
    requires y1 != 0 ==> y1 % 2 == h % 2
    requires y2 != 0 ==> y2 % 2 == h % 2
    ensures y1 == y2
  {
    SquareRootsMod(y1, y2, p);
    if y1 != y2 {
      // then y1 + y2 == p with y1, y2 of the same parity, so p would be even
      DivModUnique(p, 2, y1 / 2 + y2 / 2 + y1 % 2, 0);
    }
  }

  /** Any two square roots of the same value mod an odd prime give the same point once
      the parity is matched: the root ModSqrt picks does not matter. */
  lemma RootChoiceIrrelevant(r1: int, r2: int, v: int, header: byte, p: int)
    requires IsPrime(p) && p % 2 == 1
    requires 0 <= r1 < p && 0 <= r2 < p && IsRootMod(r1, v, p) && IsRootMod(r2, v, p)
    ensures MatchParity(r1, header, p) == MatchParity(r2, header, p)
  {
    MatchParityCorrect(r1, v, header, p);
    MatchParityCorrect(r2, v, header, p);
    ParityPinsRoot(MatchParity(r1, header, p), MatchParity(r2, header, p), v, header as int, p);
  }

  /** Modulo an odd prime, two numbers in [0, p) with the same square are equal or sum
      to p. */
  lemma SquareRootsMod(r: int, y: int, p: int)
    requires IsPrime(p) && 0 <= r < p && 0 <= y < p && (r * r) % p == (y * y) % p
    ensures r == y || r + y == p
  {
    assert (r - y) * (r + y) == r * r - y * y;
    CongIffDiffZero(r * r, y * y, p);
    EuclidLemma(r - y, r + y, p);
    if (r - y) % p == 0 {
      if r > y {
        DivModUnique(r - y, p, 0, r - y);
      } else if r < y {
        DivModUnique(r - y, p, -1, p + r - y);
      }
    } else {
      if 0 < r + y < p {
        DivModUnique(r + y, p, 0, r + y);
      } else if p < r + y {
        DivModUnique(r + y, p, 1, r + y - p);
      }
    }
  }

  /** Round trip: a point (x, y) with 0 <= x, y < P that is on the curve, or is (0, 0),
      and whose x fits in ByteLen bytes, reads back unchanged, for an odd prime P. */
  lemma MarshalRoundTrip(c: Curve, x: int, y: int)
    requires IsPrime(c.P) && c.P > 2 && c.P % 2 == 1
    requires 0 <= x < c.P && 0 <= y < c.P && x < Pow(256, ByteLen(c))
    requires OnCurve(c, x, y) || (x == 0 && y == 0)
    ensures Unmarshal(c, Marshal(c, x, y)) == Some((x, y))
  {
    var data := Marshal(c, x, y);
    if !(x == 0 && y == 0) {
      var h := data[0];
      assert h as int == 2 + y % 2;
      assert FromBytes(data[1..]) == x;
      assert 0 <= y < c.P && OnCurve(c, x, y);
      assert HasOrdinate(c, x);
      DivModUnique(h as int, 2, 1, y % 2);
      var pt := Decompress(c, h, x);
      assert Unmarshal(c, data) == pt;
      var v := x * x * x - 3 * x + c.B;
      assert IsRootMod(pt.value.1, v, c.P) && IsRootMod(y, v, c.P);
      ParityPinsRoot(pt.value.1, y, v, h as int, c.P);
    }
  }
}
