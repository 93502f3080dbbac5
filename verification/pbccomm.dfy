/** The pbc backend of the coefficient-wise commitment: G1 of a pairing-friendly curve of
    prime order r, coefficients raised to their magnitude (conv.GmpInt2BigInt goes through
    the bytes of the integer), VerifyEval's y raised as a signed big integer, and each
    element serialised with the library's compressed encoding, except that the identity
    is marked by a first byte 0xFF. The library's compression is not modelled; it enters
    as a codec on logarithms. */
module PbcCommit {
  import opened Wrappers
  import opened Poly
  import ModArith
  import opened Compress
  import opened Pedersen

  /** G1 of order r as the commitment sees it: VerifyEval's y keeps its sign. */
  function PbcGroup(order: int): (g: Group)
    ensures g.order == order && g.valueEncoding == Signed
  {
    Group(order, Signed)
  }

  /** CompressedBytes and SetCompressedBytes of the pairing library, on logarithms in
      [0, r). */
  datatype Codec = Codec(compress: int -> seq<byte>, decompress: seq<byte> -> int)

  /** What the serialisation relies on: compressed bytes are never empty, they decompress
      to the element they came from, and no element other than the identity is written
      with a first byte 0xFF. */
  ghost predicate ValidCodec(codec: Codec, order: int) {
    && (forall e :: |codec.compress(e)| >= 1)
    && (forall e :: 0 <= e < order ==> codec.decompress(codec.compress(e)) == e)
    && (forall e :: 0 < e < order ==> codec.compress(e)[0] != 0xFF)
  }

  /** One element of GobEncode: its compressed bytes, with the first byte overwritten by
      0xFF when it is the identity. */
  function EncodeElement(codec: Codec, order: int, e: int): (b: seq<byte>)
    requires order > 0 && |codec.compress(e % order)| >= 1
    ensures |b| == |codec.compress(e % order)|
    ensures e % order == 0 ==> b[0] == 0xFF && b[1..] == codec.compress(0)[1..]
    ensures e % order != 0 ==> b == codec.compress(e % order)
  {
    var b := codec.compress(e % order);
    if e % order == 0 then [0xFF] + b[1..] else b
  }

  /** One element of GobDecode: the identity when the first byte is 0xFF, the decompressed
      element otherwise. */
  function DecodeElement(codec: Codec, b: seq<byte>): (e: int)
    requires |b| >= 1
    ensures b[0] == 0xFF ==> e == 0
    ensures b[0] != 0xFF ==> e == codec.decompress(b)
  {
    if b[0] == 0xFF then 0 else codec.decompress(b)
  }

  /** GobEncode without the gob framing: each element's compressed bytes, the identity
      marked by a first byte 0xFF. Under a valid codec that marker is exactly the
      identity, which is what GobDecode dispatches on. */
  function GobEncode(codec: Codec, order: int, comm: seq<int>): (blobs: seq<seq<byte>>)
    requires order > 0 && forall e :: |codec.compress(e)| >= 1
    ensures |blobs| == |comm|
    ensures forall i :: 0 <= i < |comm| ==> |blobs[i]| == |codec.compress(comm[i] % order)| >= 1
    ensures forall i :: 0 <= i < |comm| && comm[i] % order != 0 ==>
              blobs[i] == codec.compress(comm[i] % order)
    ensures ValidCodec(codec, order) ==>
              forall i :: 0 <= i < |comm| ==> (blobs[i][0] == 0xFF <==> comm[i] % order == 0)
  {
    assert ValidCodec(codec, order) ==>
             forall i :: 0 <= i < |comm| ==>
               (EncodeElement(codec, order, comm[i])[0] == 0xFF <==> comm[i] % order == 0);
    seq(|comm|, i requires 0 <= i < |comm| => EncodeElement(codec, order, comm[i]))
  }

  /** GobDecode without the gob framing; reading the first byte of an empty blob fails in
      the Go code, so every blob must have one. */
  function GobDecode(codec: Codec, blobs: seq<seq<byte>>): (comm: seq<int>)
    requires forall i :: 0 <= i < |blobs| ==> |blobs[i]| >= 1
    ensures |comm| == |blobs|
    ensures forall i :: 0 <= i < |blobs| && blobs[i][0] == 0xFF ==> comm[i] == 0
    ensures forall i :: 0 <= i < |blobs| && blobs[i][0] != 0xFF ==>
              comm[i] == codec.decompress(blobs[i])
  {
    seq(|blobs|, i requires 0 <= i < |blobs| => DecodeElement(codec, blobs[i]))
  }

  /** Every element, the identity included, reads back as the same element. */
  lemma ElementRoundTrip(codec: Codec, order: int, e: int)
    requires order > 0 && ValidCodec(codec, order)
    ensures DecodeElement(codec, EncodeElement(codec, order, e)) == e % order
  {
    var k := e % order;
    if k != 0 {
      assert codec.compress(k)[0] != 0xFF;
    }
  }

  /** Decoding an encoded commitment gives a commitment Equal to it, and the very same
      one when its logarithms are reduced. */
  lemma {:induction false} CommitRoundTrip(codec: Codec, order: int, comm: seq<int>)
    requires order > 0 && ValidCodec(codec, order)
    ensures Equals(PbcGroup(order), GobDecode(codec, GobEncode(codec, order, comm)), comm)
    ensures (forall i :: 0 <= i < |comm| ==> 0 <= comm[i] < order)
            ==> GobDecode(codec, GobEncode(codec, order, comm)) == comm
  {
    var d := GobDecode(codec, GobEncode(codec, order, comm));
    forall i | 0 <= i < |comm|
      ensures d[i] == comm[i] % order
    {
      ElementRoundTrip(codec, order, comm[i]);
    }
    forall i | 0 <= i < |comm|
      ensures Same(PbcGroup(order), d[i], comm[i])
    {
      ModArith.ModIdempotent(comm[i], order);
    }
    if forall i :: 0 <= i < |comm| ==> 0 <= comm[i] < order {
      forall i | 0 <= i < |comm|
        ensures d[i] == comm[i]
      {
        ModArith.DivModUnique(comm[i], order, 0, comm[i]);
      }
    }
  }

  /** On the pairing curve the homomorphism holds when no two coefficients at the same
      position have opposite signs: the coefficients lose their sign on the way to PowBig,
      as on P-521. */
  lemma {:induction false} Homomorphic(order: int, q: seq<int>, r: seq<int>)
    requires order > 0 && |q| == |r|
    requires forall i :: 0 <= i < |q| ==> SameSign(q[i], r[i])
    ensures AdditiveHomomorphism(PbcGroup(order), NewPolyCommit(PbcGroup(order), q),
                                 NewPolyCommit(PbcGroup(order), r))
            == Some(NewPolyCommit(PbcGroup(order), Add(q, r)))
  {
    Homomorphism(PbcGroup(order), q, r);
  }
}
