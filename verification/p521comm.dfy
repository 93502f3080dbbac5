/** The p521 backend of the coefficient-wise commitment: the group is NIST P-521 with
    its order N, coefficients and values reach it as the big-endian bytes of their
    magnitude, and a point
    is stored by its affine coordinates and serialised with the compressed encoding. */
module P521Commit {
  import opened Wrappers
  import opened ModArith
  import opened Poly
  import opened Compress
  import opened Pedersen

  /** The order of the P-521 base point. */
  const N521: int :=
    6864797660130609714981900799081393217269435300143305409394463459185543183397655394245057746333217197532963996371363321113864768612440380340372808892707005449

  /** P-521 as the commitment sees it: order N, and VerifyEval's y passed as y.Bytes(),
      which drops its sign as for the coefficients. */
  const Group521: Group := Group(N521, Magnitude)

  /** A point by its affine coordinates; (0, 0) stands for the point at infinity. */
  datatype ECPoint = ECPoint(x: int, y: int)

  /** ECPoint.Equals: both coordinates agree. */
  function PointEquals(p: ECPoint, q: ECPoint): (eq: bool)
    ensures eq <==> p == q
  {
    p.x == q.x && p.y == q.y
  }

  /** The abscissa fits the 66-byte slot of the encoding. */
  predicate Fits(p: ECPoint) {
    Abs(p.x) < Pow(256, ByteLen(P521))
  }

  /** ECPoint.GobEncode: the compressed encoding of the point. */
  function GobEncode(p: ECPoint): (b: seq<byte>)
    requires Fits(p)
    ensures |b| == 67
    ensures p.x == 0 && p.y == 0 ==> b[0] == 0xFF && forall i :: 1 <= i < 67 ==> b[i] == 0
    ensures !(p.x == 0 && p.y == 0) ==> b[0] as int == 2 + p.y % 2 && FromBytes(b[1..]) == Abs(p.x)
  {
    P521Parameters();
    Marshal(P521, p.x, p.y)
  }

  /** ECPoint.GobDecode: the point the compressed encoding names; None where the Go code
      panics because the abscissa has no ordinate on the curve. */
  function GobDecode(buf: seq<byte>): (r: Option<ECPoint>)
    requires |buf| >= 1
    ensures buf[0] == 0xFF ==> r == Some(ECPoint(0, 0))
    ensures buf[0] != 0xFF ==> (r.None? <==> !HasOrdinate(P521, FromBytes(buf[1..])))
    ensures buf[0] != 0xFF && r.Some? ==>
              && r.value.x == FromBytes(buf[1..]) && 0 <= r.value.y < P521.P
              && OnCurve(P521, r.value.x, r.value.y)
              && (r.value.y != 0 ==> r.value.y % 2 == (buf[0] as int) % 2)
  {
    P521Parameters();
    match Unmarshal(P521, buf)
    case None => None
    case Some(pt) => Some(ECPoint(pt.0, pt.1))
  }

  /** Every residue mod the P-521 prime fits the 66-byte abscissa slot. */
  lemma FieldFitsSlot()
    ensures P521.P < Pow(256, ByteLen(P521))
  {
    P521Parameters();
    assert Pow(256, 1) == 256;
    PowAdd(256, 1, 1);
    PowAdd(256, 2, 2);
    PowAdd(256, 4, 4);
    PowAdd(256, 8, 8);
    PowAdd(256, 16, 16);
    PowAdd(256, 32, 32);
    PowAdd(256, 64, 2);
  }

  /** A curve point with reduced coordinates, or the point at infinity, survives
      GobEncode followed by GobDecode, and the decoded point Equals the original. The
      primality of the P-521 field prime is taken as a hypothesis. */
  lemma PointRoundTrip(p: ECPoint)
    requires IsPrime(P521.P)
    requires 0 <= p.x < P521.P && 0 <= p.y < P521.P
    requires OnCurve(P521, p.x, p.y) || p == ECPoint(0, 0)
    ensures Fits(p)
    ensures GobDecode(GobEncode(p)) == Some(p)
    ensures PointEquals(GobDecode(GobEncode(p)).value, p)
  {
    FieldFitsSlot();
    P521Parameters();
    MarshalRoundTrip(P521, p.x, p.y);
  }

  /** PolyCommit.GobEncode without the gob framing: one compressed point per entry. */
  function EncodeCommit(c: seq<ECPoint>): (blobs: seq<seq<byte>>)
    requires forall i :: 0 <= i < |c| ==> Fits(c[i])
    ensures |blobs| == |c|
    ensures forall i :: 0 <= i < |c| ==> |blobs[i]| == 67
    ensures forall i :: 0 <= i < |c| && c[i] == ECPoint(0, 0) ==>
              blobs[i][0] == 0xFF && forall j :: 1 <= j < 67 ==> blobs[i][j] == 0
    ensures forall i :: 0 <= i < |c| && c[i] != ECPoint(0, 0) ==>
              blobs[i][0] as int == 2 + c[i].y % 2 && FromBytes(blobs[i][1..]) == Abs(c[i].x)
  {
    seq(|c|, i requires 0 <= i < |c| => GobEncode(c[i]))
  }

  /** Every blob decoded with dec, or None when some blob does not decode. */
  function DecodeAll<T>(dec: seq<byte> -> Option<T>, blobs: seq<seq<byte>>): (r: Option<seq<T>>)
    ensures r.None? <==> exists i :: 0 <= i < |blobs| && dec(blobs[i]).None?
    ensures r.Some? ==> |r.value| == |blobs|
                        && forall i :: 0 <= i < |blobs| ==> dec(blobs[i]) == Some(r.value[i])
    decreases |blobs|
  {
    if |blobs| == 0 then Some([])
    else
      match dec(blobs[0])
      case None => None
      case Some(p) =>
        match DecodeAll(dec, blobs[1..])
        case None =>
          var i :| 0 <= i < |blobs[1..]| && dec(blobs[1..][i]).None?;
          assert dec(blobs[i + 1]).None?;
          None
        case Some(rest) =>
          assert forall i :: 0 < i < |blobs| ==> blobs[i] == blobs[1..][i - 1];
          Some([p] + rest)
  }

  /** ECPoint.GobDecode on a blob of any length; the empty blob, on which the Go code
      panics, is refused. */
  function DecodePoint(buf: seq<byte>): Option<ECPoint> {
    if |buf| == 0 then None else GobDecode(buf)
  }

  /** PolyCommit.GobDecode without the gob framing: one point per blob, None when some
      blob fails to decode. */
  function DecodeCommit(blobs: seq<seq<byte>>): (r: Option<seq<ECPoint>>)
    requires forall i :: 0 <= i < |blobs| ==> |blobs[i]| >= 1
    ensures r.None? <==> exists i :: 0 <= i < |blobs| && GobDecode(blobs[i]).None?
    ensures r.Some? ==> |r.value| == |blobs|
                        && forall i :: 0 <= i < |blobs| ==> GobDecode(blobs[i]) == Some(r.value[i])
  {
    DecodeAll(DecodePoint, blobs)
  }

  /** A point GobEncode and GobDecode carry unchanged: reduced coordinates, on the curve
      or the point at infinity. */
  predicate Reduced(p: ECPoint) {
    0 <= p.x < P521.P && 0 <= p.y < P521.P && (OnCurve(P521, p.x, p.y) || p == ECPoint(0, 0))
  }

  /** A commitment of reduced curve points decodes back to itself. */
  lemma {:induction false} CommitRoundTrip(c: seq<ECPoint>)
    requires IsPrime(P521.P)
    requires forall i :: 0 <= i < |c| ==> Reduced(c[i])
    ensures forall i :: 0 <= i < |c| ==> Fits(c[i])
    ensures DecodeCommit(EncodeCommit(c)) == Some(c)
  {
    forall i | 0 <= i < |c|
      ensures Fits(c[i]) && DecodePoint(GobEncode(c[i])) == Some(c[i])
    {
      PointRoundTrip(c[i]);
    }
    var blobs := EncodeCommit(c);
    var r := DecodeAll(DecodePoint, blobs);
    assert forall i :: 0 <= i < |blobs| ==> DecodePoint(blobs[i]) == Some(c[i]);
    assert r.Some?;
    assert r.value == c;
  }

  /** On P-521 the homomorphism holds when no two coefficients at the same position have
      opposite signs, in particular for the reduced coefficients the polynomial ring
      hands over. */
  lemma {:induction false} Homomorphic(q: seq<int>, r: seq<int>)
    requires |q| == |r|
    requires forall i :: 0 <= i < |q| ==> SameSign(q[i], r[i])
    ensures AdditiveHomomorphism(Group521, NewPolyCommit(Group521, q), NewPolyCommit(Group521, r))
            == Some(NewPolyCommit(Group521, Add(q, r)))
  {
    Homomorphism(Group521, q, r);
  }
}
