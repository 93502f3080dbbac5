# BC-SSE polynomial commitments and interpolation, in Dafny

This project models the cryptographic core of BC-SSE, a Go library for verifiable secret sharing:

- Lagrange reconstruction of a secret-sharing polynomial, and the `Deduplicate` helper.
- The KZG commitment `DLPolyCommit`: setup, commit, witness creation and the pairing check.
- The compressed point encoding of the p521 package: `Marshal`, `Unmarshal`, and `ModSqrt` as used there.
- The coefficient-wise commitment `PolyCommit`. It is written once (`Pedersen`) and used by two backends: NIST P-521 (`P521Commit`) and a pairing-friendly curve (`PbcCommit`). The model covers its encoding, decoding, equality, verification and additive homomorphism.

Group elements use the exponent model.

- An element is its discrete logarithm to the generator, taken mod the group order, and the generator is 1.
- Adding points or multiplying elements adds logarithms.
- Scalar multiplication multiplies the logarithm by the scalar.
- A pairing `e(g^a, g^b)` is `a * b` in the target group.
- Two elements are equal when their logarithms agree mod the order.

The commitment constructions, their verification equations and their algebraic properties can all be stated exactly in this model. Discrete-log hardness cannot be stated in it.

Polynomials are `seq<int>` of coefficients, lowest degree first. Integers are unbounded, like `big.Int` and `gmp.Int`. Dafny's `%` is Euclidean, which matches `big.Int.Mod` and `gmp.Int.Mod`.

Every commitment in the library hands a coefficient to the group through its big-endian bytes, which drop the sign:

- the p521 backend passes `coeff.Bytes()` to `ScalarBaseMult`;
- the pbc backend and the KZG scheme pass `conv.GmpInt2BigInt(coeff)`, which is `SetBytes(coeff.Bytes())`, to `PowBig`.

So a coefficient c is committed as `|c|`, and the model does the same (`Poly.Magnitudes`). The backends differ only in `VerifyEval`'s claimed value y. The p521 backend passes `y.Bytes()`, which drops the sign; the pbc backend passes y itself to `PowBig`. `Pedersen.Group` records that encoding.

The commitments therefore equal `g^poly` for polynomials without negative coefficients, and can differ from it otherwise:

- The homomorphism holds when no two coefficients at the same position have opposite signs. `Pedersen.MagnitudeNotHomomorphic` shows it failing for `[-1]` and `[1]`.
- The KZG evaluation proof is complete for non-negative coefficients and a non-negative point. `Kate.NegativePointRejected` shows an honest proof rejected at the point -1.

Modules and their files:

| module | file |
|---|---|
| `Wrappers` | `wrappers.dfy` |
| `ModArith` (modular arithmetic, `Pow`, `ModExp`, extended Euclid, modular inverse, Euclid's lemma) | `modarith.dfy` |
| `Poly` (evaluation, addition, multiplication, division by `X - c`, roots mod a prime) | `poly.dfy` |
| `Interpolation` | `interpolation.dfy` |
| `Kate` | `kate.dfy` |
| `Compress` | `compress.dfy` |
| `Pedersen` | `pedersen.dfy` |
| `P521Commit` | `p521comm.dfy` |
| `PbcCommit` | `pbccomm.dfy` |

## Model

| member | source | states |
|---|---|---|
| Interpolation.Deduplicate | utils/interpolation/interpolation.go:11-23 | The result has no repeated value, holds exactly the values of the input, and keeps them in the order of their first occurrence. It equals the reference `Distinct`. |
| Interpolation.DeduplicateIdempotent | utils/interpolation/interpolation.go:11-23 | Deduplicating a second time changes nothing. |
| Interpolation.LagrangeInterpolate | utils/interpolation/interpolation.go:26-87 | It fails for a negative degree. Otherwise it fails exactly when two of the first `degree+1` x's are congruent mod the prime. On success it returns `degree+1` coefficients in `[0, mod)` whose polynomial passes through every consumed point mod the prime. |
| Interpolation.DenominatorZeroIff | utils/interpolation/interpolation.go:63-77 | The scalar denominator of point i is 0 mod the prime exactly when another consumed point has a congruent x. This is the duplicate-x error condition. |
| Interpolation.InterpolationRecoversPolynomial | utils/interpolation/interpolation_test.go:40-64 | Given the values of a polynomial of degree at most `degree` at incongruent points, interpolation returns that polynomial, reduced mod the prime and padded to `degree+1` coefficients. |
| Interpolation.IgnoresLaterPoints | utils/interpolation/interpolation.go:49-55 | Only the first `degree+1` points are consumed: inputs that agree on them give the same result. |
| ModArith.ModExp | utils/commitment/kate.go:89 | Square-and-multiply gives `b^e mod m`, in `[0, m)`. |
| ModArith.Inverse | utils/interpolation/interpolation.go:79 | For a prime modulus and a nonzero residue, the result is a multiplicative inverse in `[0, m)`. |
| Kate.SetupFix2 | utils/commitment/kate.go:98-126 | It produces `degree+1` public keys, the i-th being `g^(key^i mod n)`. |
| Kate.SetupFix | utils/commitment/kate.go:67-95 | It is the setup for the fixed secret key 2. |
| Kate.PolyEval | utils/commitment/kate.go:33-36 | Horner evaluation mod n equals the integer value `poly(x)` reduced mod n. |
| Kate.PolyEvalInExponent | utils/commitment/kate.go:40-54 | The result is the product of `pk[i]^abs(c_i)` (the sum of `abs(c_i) * pk[i]` in logarithms), reduced mod n. |
| Kate.DotOfPowers | utils/commitment/kate.go:40-54 | Against the keys of a setup, the sum of `e_i * pk[i]` is `e(key)` mod n for exponents e of any sign. `PolyEvalInExponent` applies it to the magnitudes of the coefficients. |
| Kate.InExponentAtKey | utils/commitment/kate.go:40-54 | Against the keys of a setup, `PolyEvalInExponent` is `g` raised to the polynomial with its signs dropped, evaluated at the key. Without negative coefficients this is `g^poly(key)`. |
| Kate.Commit | utils/commitment/kate.go:129-131 | The commitment is `g` raised to the polynomial with its signs dropped, evaluated at the secret key. Without negative coefficients it is `g^poly(key)`. |
| Kate.VerifyPoly | utils/commitment/kate.go:139-143 | It accepts C exactly when C is `g` raised to the sign-dropped polynomial at the key. Without negative coefficients that is `g^poly(key)`. |
| Kate.CommitVerifies | utils/commitment/kate.go:128-143 | A commitment verifies against the polynomial it was made from. |
| Kate.WitnessQuotientIdentity | utils/commitment/kate.go:145-169 | The witness quotient q satisfies `poly(X) - poly(x0) mod n = (X - x0) * q(X) + rem` at every X, where rem is a multiple of n. |
| Kate.WitnessQuotientNonNegative | utils/commitment/kate.go:145-169 | With `x0 >= 0` and no negative coefficient past the constant term, the witness quotient has no negative coefficient. |
| Kate.CreateWitness | utils/commitment/kate.go:146-173 | The witness is `g` raised to the sign-dropped witness quotient q at the key. For `x0 >= 0` and no negative coefficient past the constant term, it is `g^q(key)`. |
| Kate.VerifyEval | utils/commitment/kate.go:176-193 | The pairing check accepts exactly when `C = w * (key - x) + y` mod n. |
| Kate.EvalProofComplete | utils/commitment/kate.go:145-193 | For a polynomial without negative coefficients and `x0 >= 0`, the witness for x0 verifies against the commitment and the value `PolyEval` reports. |
| Kate.NegativePointRejected | utils/commitment/kate.go:40-54 | With the keys of secret 2 mod 101, the honest proof for `X^2` at `x0 = -1` is rejected. The quotient `-1 + X` is committed as `1 + X`. |
| Kate.EvaluationBinding | utils/commitment/kate.go:176-193 | For a fixed commitment, point and witness, two accepted values agree mod n. |
| Compress.ModSqrt | utils/polycommit/p521/compress.go:65-72 | It returns a square root in `[0, p)`, or None exactly when there is none. |
| Compress.YSquared | utils/polycommit/p521/compress.go:50-63 | The stepwise reduced computation equals `x^3 - 3x + b` mod P. |
| Compress.Marshal | utils/polycommit/p521/compress.go:9-26 | The output has `1 + ByteLen` bytes. `(0, 0)` is 0xFF followed by zeros. Any other point is the header `2 + y mod 2` followed by the value of abs(x). |
| Compress.Unmarshal | utils/polycommit/p521/compress.go:29-82 | 0xFF gives `(0, 0)`. Otherwise it yields None exactly when x has no ordinate. When it succeeds, the point is on the curve, has the encoded x and a reduced y, and y has the header's parity unless y is 0. |
| Compress.RootChoiceIrrelevant | utils/polycommit/p521/compress.go:67-79 | Either square root that ModSqrt may return gives the same point once the parity is matched. |
| Compress.MarshalRoundTrip | utils/polycommit/p521/compress.go:9-82 | Over an odd prime, a reduced curve point, or `(0, 0)`, survives Marshal followed by Unmarshal. |
| Pedersen.Base | utils/polycommit/p521/comm.go:143 | A scalar becomes a reduced logarithm: the scalar mod N under the signed encoding, its absolute value mod N under the magnitude encoding, and so the scalar mod N whenever it is non-negative. |
| Pedersen.NewPolyCommit | utils/polycommit/p521/comm.go:135-151 | The commitment has one entry per coefficient, each `abs(c_i) * G`, reduced. pbc/comm.go:113-127 computes the same through `conv.GmpInt2BigInt`. |
| Pedersen.Equals | utils/polycommit/p521/comm.go:95-107 | Two commitments are Equal exactly when they are the same sequence once every logarithm is reduced mod N. |
| Pedersen.Verify | utils/polycommit/pbc/comm.go:130-146 | It accepts exactly when every coefficient's commitment matches the corresponding entry. |
| Pedersen.CommitmentVerifies | utils/polycommit/p521/comm.go:135-173 | A fresh commitment verifies against its own polynomial. |
| Pedersen.VerifyEval | utils/polycommit/p521/comm.go:176-195 | It accepts exactly when `sum(x^i * c[i])` equals the logarithm of `y * G` mod N, with y taken under the group's value encoding. |
| Pedersen.CommitmentEvaluates | utils/polycommit/pbc/comm.go:113-127 | The commitment, read as a polynomial of logarithms, evaluates mod N to the sign-dropped polynomial at x. Without negative coefficients that is `poly(x)`. |
| Pedersen.HonestEvaluation | utils/polycommit/pbc/comm.go:149-170 | For an honest commitment, VerifyEval's equation holds exactly when the sign-dropped polynomial at x is `y` in the group. Without negative coefficients, exactly when `poly(x)` is. |
| Pedersen.AdditiveHomomorphism | utils/polycommit/p521/comm.go:198-213 | It yields None (the Go code panics) exactly when the lengths differ. Otherwise the result has the common length, and each position is the group sum of the two commitments' entries there. |
| Pedersen.Homomorphism | utils/polycommit/pbc/comm.go:173-188 | Combining the commitments to Q and R gives the commitment to `Q + R`, when no two coefficients at the same position have opposite signs. |
| Pedersen.EqualsIsEquivalence | utils/polycommit/pbc/comm.go:73-85 | Commitment equality is reflexive, symmetric and transitive. |
| Pedersen.EqualsCanonical | utils/polycommit/p521/comm.go:95-107 | On reduced logarithms, Equals is sequence equality. |
| Pedersen.MagnitudeNotHomomorphic | utils/polycommit/p521/comm.go:142-148 | In every group of order above 2, `commit([-1]) + commit([1])` is not `commit([0])`, because the sign is dropped. |
| P521Commit.PointEquals | utils/polycommit/p521/comm.go:42-44 | Points are Equal exactly when they are the same point. |
| P521Commit.GobEncode | utils/polycommit/p521/comm.go:31-33 | A point encodes to exactly 67 bytes. The point at infinity is 0xFF followed by zeros. Any other point is the header `2 + y mod 2` followed by abs(x) in 66 bytes. |
| P521Commit.GobDecode | utils/polycommit/p521/comm.go:36-39 | 0xFF decodes to the point at infinity. Otherwise decoding fails (the Go code panics) exactly when the encoded x has no ordinate on the curve. A successful decode gives a curve point with the encoded x and a reduced y, whose parity matches the header when y is nonzero. |
| P521Commit.PointRoundTrip | utils/polycommit/p521/comm.go:31-44 | A reduced curve point, or infinity, decodes to itself after encoding, and Equals the original. |
| P521Commit.EncodeCommit | utils/polycommit/p521/comm.go:58-73 | A commitment encodes to one 67-byte blob per point. A blob for the point at infinity is 0xFF followed by zeros. A blob for any other point starts with `2 + y mod 2`, and its remaining bytes read as abs(x). |
| P521Commit.DecodeCommit | utils/polycommit/p521/comm.go:76-92 | Decoding fails exactly when some blob fails to decode as a point. Otherwise the commitment has one point per blob, and each point is that blob's decoded point (the `P521Commit.DecodeAll` contract, applied to point decoding). |
| P521Commit.DecodeAll | utils/polycommit/p521/comm.go:76-92 | Decoding fails exactly when some entry fails; otherwise it keeps the length, and each position holds the decoded entry. |
| P521Commit.CommitRoundTrip | utils/polycommit/p521/comm.go:57-92 | A commitment of reduced curve points decodes to itself after encoding. |
| P521Commit.Homomorphic | utils/polycommit/p521/comm.go:198-213 | On P-521, combining the commitments gives the commitment to the sum, when no two coefficients at the same position have opposite signs. |
| PbcCommit.EncodeElement | utils/polycommit/pbc/comm.go:32-37 | An element keeps its compressed length. The identity is its compressed bytes with the first byte replaced by 0xFF; any other element is exactly its compressed bytes. |
| PbcCommit.DecodeElement | utils/polycommit/pbc/comm.go:59-67 | A first byte 0xFF reads as the identity; any other blob reads as what it decompresses to. |
| PbcCommit.GobEncode | utils/polycommit/pbc/comm.go:26-38 | A commitment encodes to one blob per element, each as long as that element's compressed bytes. A non-identity element is exactly its compressed bytes. Under a valid codec, a blob starts with 0xFF exactly when its element is the identity. |
| PbcCommit.GobDecode | utils/polycommit/pbc/comm.go:57-70 | A commitment decodes to one element per blob. A blob starting with 0xFF reads as the identity, and any other blob reads as what it decompresses to. |
| PbcCommit.ElementRoundTrip | utils/polycommit/pbc/comm.go:26-70 | Every element, the identity included, reads back as itself. |
| PbcCommit.CommitRoundTrip | utils/polycommit/pbc/comm.go:26-85 | A decoded commitment Equals the encoded one, and is identical to it when its logarithms are reduced. |
| PbcCommit.Homomorphic | utils/polycommit/pbc/comm.go:173-188 | On the pairing curve, combining the commitments gives the commitment to the sum, when no two coefficients at the same position have opposite signs. |

## Left out

- The gob framing of `PolyCommit.GobEncode` and `GobDecode` is not modelled: the length prefix and the encoder's errors. Each entry's bytes are.
- `String`, `Print`, `Bytes`, `PrintPublicKey`, `NewG1`/`NewGT` and the unimplemented `Open` are not modelled. They are printing, a panic stub, or allocation.
- Real elliptic-curve and pairing arithmetic is replaced by the exponent model. Group laws and the pairing's bilinearity are exact there; hardness assumptions are not expressible.
- The pairing library's point compression (`CompressedBytes` and `SetCompressedBytes`) is foreign code. It enters `PbcCommit` as a codec parameter with the properties the serialisation relies on.
- The `polyring` package is not part of this model. Its `EvalMod`, `Div2` and `AddMul` are modelled by `Poly` on integer coefficient sequences. `Div2` by a monic linear divisor is synthetic division.
- Reading the secret key of `SetupFix2` from a decimal string is not modelled. The key is an integer parameter. A malformed string is left out.
- `Kate.SetupFix2`: a degree below -1 makes the Go code's slice allocation panic, so it is a precondition. The same holds for `Kate.SetupFix`.
- `Interpolation.Deduplicate`: the Go code filters its argument in place, so the caller's slice is overwritten. The model returns a fresh sequence and leaves out that aliasing.
- `Interpolation.LagrangeInterpolate`: the requires asks for `degree+1` y values even when a duplicate x makes the Go code return its error before reading the missing ones. That input is not covered.
- `Interpolation.LagrangeInterpolate`: the prime modulus is a precondition, because `ModInverse` has no defined result otherwise. The failure for a negative degree stands for `polyring.New` rejecting it, which is not shown.
- `Compress.Marshal`: an abs(x) of exactly `ByteLen + 1` bytes, which the Go code copies over the header byte, is excluded by the requires, together with the longer values on which the copy panics.
- `Compress.ModSqrt` is modelled by exhaustive search with a contract, not by the Tonelli–Shanks algorithm. Which of the two roots Go returns is left open, and `Compress.RootChoiceIrrelevant` shows it does not matter.
- `P521Commit.PointRoundTrip` and `P521Commit.CommitRoundTrip` take the primality of the P-521 field prime as a hypothesis. It is not proved here.
- `P521Commit.Homomorphic`, `PbcCommit.Homomorphic` and `Pedersen.Homomorphism` require that no two coefficients at the same position have opposite signs. Both backends drop a coefficient's sign, and the property can fail otherwise (`Pedersen.MagnitudeNotHomomorphic`).
- `Kate.EvalProofComplete` requires non-negative coefficients and a non-negative point. `PolyEvalInExponent` raises each key to the magnitude of a coefficient (kate.go:51), and `Kate.NegativePointRejected` shows an honest proof rejected at the point -1.
- The drivers (`owner-client`, `sssCheck`) and the other utility packages are not modelled. They call the core but are not part of it.
- Panics become `None` results:
  - on a length mismatch in `AdditiveHomomorphism`;
  - on a point with no square root in `Unmarshal`.
- Panics become preconditions:
  - indexing past the end, in `Verify`, `PolyEvalInExponent` and `VerifyEval`, and reading `x[i]` and `y[i]` for fewer than `degree+1` points in `LagrangeInterpolate`;
  - the empty first byte, in `Unmarshal` and the pbc decoder.
