# Verification of the U2SSO curve library

U2SSO gives a user one master identity and unlinkable names at many services. Its C library, `crypto-dbpoe`, is a fork of
libsecp256k1 with a ring-proof module on top: a user proves that one of the keys in a public ring is theirs, publishes a
per-topic nullifier, and then authenticates under a derived key. This project models that library bottom-up and proves that
every fast algorithm in it computes the simple thing it stands for:

- **Words.** Scalars as four 64-bit words and field elements as five 52-bit limbs: multiplication with interleaved reduction,
  normalization, negation, shifts, repacking, the endomorphism split. Every accumulator is bounded, every carry accounted for.
- **Coordinates.** Jacobian doubling and addition in all their branches against the chord-and-tangent law, the formulas on limbs
  with every magnitude accounted for and the result stored over an operand, batch inversion with holes, and the tables of odd multiples that trade inversions for ratios.
  On top of them Strauss' algorithm as it runs on field elements: every table over one z coordinate, all additions on an
  isomorphic curve, one multiplication at the end; and signature verification and key recovery over that.
- **Recodings and multi-scalar multiplication.** Three signed-digit recodings, Strauss interleaving, Pippenger buckets, the
  batch splitter over a scratch space, constant-time multiplication and the blinded comb. All of them equal the same linear
  combination `Dot` of points, in any abelian group.
- **Codecs and streams.** Strict DER against its serializer and against the permissive parser, SHA-256 and HMAC over any way of
  cutting a message into writes, the RFC 6979 generator, ECDSA.
- **The ring proof.** Prover, byte layout and verifier, with an exact account of when an honest proof is accepted; special
  soundness, and the exact condition on the ring under which it holds; what a published nullifier is bound to.

Points are elements of an arbitrary abelian group, given as a record of its zero, addition and negation (`AbelianGroup`); no
axiom is declared anywhere. `ScalarGroup.OneGenerates` exhibits a group and a generator with the order the theorems ask for.
`CurveLaw` and the modules built on it work with coordinates and define addition by the affine chord-and-tangent construction;
`CurveGroup.Curve` makes the points of the curve such a record, so that the theorems over groups apply to it. The residues of
integers are defined by repeated subtraction (`Residues`) and proved equal to `%`.

Where the source changes memory the model does too: arrays are filled and rewritten in place, `GenContext`, `ScratchSpace`,
`Hasher`, `Authenticator`, `Generator` and `Cell` are classes whose methods update their fields. Bit operations on words are
written as arithmetic modulo 2^64. Points that come in as byte strings go through a codec that is only assumed to be injective
and to read back what it wrote.

Some facts are parameters, each in one place. `IsInverse`, `IsScalarInverse` and `IsRoot` say that the modular inversions invert
and that the square root finds the root of a square; `IsSecp256k1` says that the points of the curve are a group of prime order
N under the proved law; `IsCompression` says that a digest has 32 octets.

The ring-proof code adds affine points with a formula whose second operand must not be infinity. The Boolean out-parameter
`finite` of those methods records whether that was always so. Every contract says when it is, in terms of what is known before
the call: `Regular` says that no proper prefix of a sum is infinity, `RegularProver` and `RegularProof` collect that over the
nonces of the prover and over the decoded proof.

## Findings

- `secp256k1_ge_set_all_gej_var` returns before its last pass when every input is infinite, so the output entries keep whatever
  they held, their infinity flags included (`BatchInverse.SetAllGej`).
- Normalization of a field element keeps the residue exactly when the carries of its first pass fit into 64 bits
  (`FieldNormalize.Normalize`, condition `Fits`). They do up to magnitude 2047 (`FieldNormalize.MagnitudeFits`). The consistency
  check also admits magnitude 2048, where normalization can return another residue (`FieldNormalize.NormalizeTopMagnitude`).
- The strict DER parser reads two kinds of integers as zero: negative ones, and numbers that are not below the order. An accepted
  string is the encoding of what was read exactly when neither integer is of these kinds (`Der.CanonicalIff`), in either position
  (`Der.NegativeReadsZero`, `Der.OversizedReadsZero`). The permissive parser reads the same octets without a sign, and agrees
  exactly under the condition of `LaxDer.LaxAgreesIff`; it differs on both kinds (`LaxDer.LaxDiffersOnNegative`,
  `LaxDer.LaxDiffersOnOversized`).
- The ring verifier admits rings of fewer than n^m commitments, as the application uses them, and counts every position that is
  not filled as the neutral element. With a position missing there is, for every hash, a string that it accepts and that no key
  goes into (`MissingPositions.KeylessProof`, `Membership.MissingPositionAccepted`). Families of accepted strings are bound to
  relate the generators or to open a commitment of the ring if and only if the ring has n^m commitments; this stays so when only
  strings count that are read without meeting infinity, for which acceptance is what the verifier answers
  (`AcceptedFamilies.SoundIffFull`).
- With a position missing, a proof for a topic is accepted with every value as nullifier (`Nullifiers.AnyValueAccepted`). What is
  accepted is bound to a public key, with the published value as the value of the topic, if and only if no position is missing
  (`Nullifiers.TopicSoundIffFull`); two families that open the same key then published the same value, or their values relate the
  generators (`Nullifiers.OneValue`).
- An honest ring proof is accepted if and only if the prover's keys open the commitment or the challenge is zero
  (`Membership.HonestProofVerdict`); the same holds for authentication (`Membership.AuthComplete`).
- The verifier adds into an affine variable that can be infinite. It is exactly then that a proof is not regular, for instance as
  soon as the first response is zero (`RingVerifier.ZeroResponseIrregular`). For every challenge but zero, whoever knows an opening
  has an honest proof of that kind (`PlainProofs.ZeroResponseArises`).
- The nullifier is read modulo the order and the overflow flag is ignored, so a value below 2^256 - N has two accepted strings
  (`Nullifiers.ValueStrings`).
- The per-topic prover and verifier refuse the last topic as well as topic 0 (`Membership.MemberIsAccepted`).

## Model

| member | source | states |
|---|---|---|
| `Scalar4x64.MulAdd` | crypto-dbpoe/src/scalar_4x64_impl.h:196-208 | the three-word accumulator grows by exactly a*b; no carry is lost |
| `Scalar4x64.MulAdd2` | crypto-dbpoe/src/scalar_4x64_impl.h:225-244 | the accumulator grows by exactly 2*a*b, both doubling carries included |
| `Scalar4x64.Mul512` | crypto-dbpoe/src/scalar_4x64_impl.h:589-754 | the eight words are the exact 512-bit product |
| `Scalar4x64.Sqr512` | crypto-dbpoe/src/scalar_4x64_impl.h:756-891 | the eight words are the exact square, with symmetric products formed once |
| `Scalar4x64.LimbsUnique` | crypto-dbpoe/src/scalar_4x64_impl.h:756-891 | words are determined by their value, so squaring and multiplying by itself agree word for word |
| `Scalar4x64.Fold512` | crypto-dbpoe/src/scalar_4x64_impl.h:525-549 | the first folding keeps the value modulo N and leaves 385 bits |
| `Scalar4x64.Fold385` | crypto-dbpoe/src/scalar_4x64_impl.h:551-571 | the second folding keeps the value modulo N and leaves a top word of at most 2 |
| `Scalar4x64.Fold258` | crypto-dbpoe/src/scalar_4x64_impl.h:573-586 | the last folding leaves a carry of at most 1, and with a carry a remainder so small that no overflow flag is set too |
| `Scalar4x64.CheckOverflow` | crypto-dbpoe/src/scalar_4x64_impl.h:67-77 | the word-by-word comparison is true exactly for values of at least N |
| `Scalar4x64.Reduce` | crypto-dbpoe/src/scalar_4x64_impl.h:79-91 | adding the complement and dropping the carry subtracts N once, or leaves the words alone |
| `Scalar4x64.Reduce512` | crypto-dbpoe/src/scalar_4x64_impl.h:280-587 | every 512-bit input is reduced to its canonical residue modulo N |
| `Scalar4x64.ScalarMul` | crypto-dbpoe/src/scalar_4x64_impl.h:901-905 | scalar multiplication is the canonical product modulo N |
| `Scalar4x64.ScalarSqr` | crypto-dbpoe/src/scalar_4x64_impl.h:919-923 | scalar squaring is the canonical square modulo N |
| `ScalarOps.Add` | crypto-dbpoe/src/scalar_4x64_impl.h:93-107 | canonical sum modulo N, and the flag tells whether N was subtracted |
| `ScalarOps.Negated` | crypto-dbpoe/src/scalar_4x64_impl.h:150-160 | complement, increment and mask give the canonical negative, zero included |
| `ScalarOps.High` | crypto-dbpoe/src/scalar_4x64_impl.h:166-176 | the word comparison is true exactly above N/2 |
| `ScalarOps.CondNegate` | crypto-dbpoe/src/scalar_4x64_impl.h:178-192 | the masked negation negates or does nothing, and returns the matching sign |
| `ScalarOps.GetBitsVar` | crypto-dbpoe/src/scalar_4x64_impl.h:51-65 | the bits of the value at any offset, also across a word border |
| `ScalarOps.ShrInt` | crypto-dbpoe/src/scalar_4x64_impl.h:907-917 | quotient and remainder by a small power of two |
| `ScalarOps.CaddBit` | crypto-dbpoe/src/scalar_4x64_impl.h:109-125 | adds a power of two or nothing, wherever the carry stops |
| `ScalarOps.MulShiftVar` | crypto-dbpoe/src/scalar_4x64_impl.h:942-957 | the product divided by 2^shift, rounded to nearest, for every shift from 256 to 512 |
| `SplitLambda.HalvesAreShort` | crypto-dbpoe/src/scalar_impl.h:259-296 | despite rounding with 272-bit estimates both signed halves are below 2^128 |
| `SplitLambda.HalvesRecombine` | crypto-dbpoe/src/scalar_impl.h:259-296 | the halves recombine to the scalar up to a multiple of N |
| `SplitLambda.Split` | crypto-dbpoe/src/scalar_impl.h:297-329 | r1 + lambda*r2 is the scalar modulo N and both residues stand for short signed numbers |
| `Field5x52.FoldedKeepsResidue` | crypto-dbpoe/src/field_5x52_int128_impl.h:18-153 | the interleaved folding of the upper columns keeps the value modulo the characteristic |
| `Field5x52.FoldColumns` | crypto-dbpoe/src/field_5x52_int128_impl.h:18-153 | the accumulators stay within the bit counts the code declares, and the limbs are those of the folding |
| `Field5x52.MulInner` | crypto-dbpoe/src/field_5x52_int128_impl.h:18-153 | limbs below 2^52 (top below 2^49) congruent to a*b, for all inputs of magnitude 8 |
| `Field5x52.SqrInner` | crypto-dbpoe/src/field_5x52_int128_impl.h:155-275 | limb for limb the result of multiplying by itself |
| `FieldNormalize.FirstPass` | crypto-dbpoe/src/field_5x52_impl.h:54-77 | for any words: one fold and one carry chain subtract a multiple of the characteristic and what the additions lose |
| `FieldNormalize.Normalize` | crypto-dbpoe/src/field_5x52_impl.h:54-95 | for any words: the unique limbs of a residue, which is that of the value exactly when the first pass has room for its carries |
| `FieldNormalize.NormalizeVar` | crypto-dbpoe/src/field_5x52_impl.h:121-163 | the same with the final subtraction on a branch |
| `FieldNormalize.TidyUnique` | crypto-dbpoe/src/field_5x52_impl.h:33-51 | limbs without excess are determined by their value, so both normalizations agree limb for limb |
| `FieldNormalize.NormalizeWeak` | crypto-dbpoe/src/field_5x52_impl.h:97-119 | magnitude one, and the same residue exactly when no carry is lost |
| `FieldNormalize.NormalizesToZero` | crypto-dbpoe/src/field_5x52_impl.h:165-186 | true exactly when the value, less what is lost, is zero modulo the characteristic |
| `FieldNormalize.NormalizesToZeroVar` | crypto-dbpoe/src/field_5x52_impl.h:188-227 | the same, including the exit that looks at one limb only |
| `FieldNormalize.NegateFe` | crypto-dbpoe/src/field_5x52_impl.h:372-387 | no limb underflows, the magnitude grows by one and the value is negated modulo the characteristic |
| `FieldNormalize.LostIsSmall` | crypto-dbpoe/src/field_5x52_impl.h:57-69 | what the first pass loses is less than the characteristic, and nothing exactly when its carries fit |
| `FieldNormalize.MagnitudeFits` | crypto-dbpoe/src/field_5x52_impl.h:33-51 | up to magnitude 2047 nothing is lost |
| `FieldNormalize.NormalizeTopMagnitude` | crypto-dbpoe/src/field_5x52_impl.h:33-95 | limbs that the consistency check admits at magnitude 2048 and for which normalization returns another residue |
| `FieldLimbs.MulFe` | crypto-dbpoe/src/field_5x52_impl.h:418-432 | the residue of the product, of magnitude one, for operands of magnitude up to 8 |
| `FieldLimbs.AddFe` | crypto-dbpoe/src/field_5x52_impl.h:404-416 | no limb overflows; the residue of the sum, the magnitudes added |
| `FieldLimbs.MulIntFe` | crypto-dbpoe/src/field_5x52_impl.h:390-402 | no limb overflows; the residue of the multiple, the magnitude multiplied |
| `FieldBytes.ToStorage` | crypto-dbpoe/src/field_5x52_impl.h:474-482 | four words with the value of the five limbs; the shifts drop exactly what the neighbour keeps |
| `FieldBytes.FromStorage` | crypto-dbpoe/src/field_5x52_impl.h:484-494 | five limbs without excess and with the value of the four words |
| `FieldBytes.StorageRoundTrip` | crypto-dbpoe/src/field_5x52_impl.h:474-494 | the two conversions are inverse to each other in both directions |
| `FieldBytes.SetFe` | crypto-dbpoe/src/field_5x52_impl.h:286-330 | reads the big-endian number, and refuses exactly what is not below the characteristic |
| `FieldBytes.FeRoundTrip` | crypto-dbpoe/src/field_5x52_impl.h:333-370 | writes the big-endian bytes of the value, which read back to the same limbs |
| `FieldBytes.FeBytesUnique` | crypto-dbpoe/src/field_5x52_impl.h:286-370 | every byte string is the writing of what is read from it, and it is accepted exactly when those limbs are canonical |
| `AdditionChains.FieldInverse` | crypto-dbpoe/src/field_impl.h:136-224 | the chain of squarings and multiplications computes a^(p-2), in any commutative monoid |
| `AdditionChains.FieldRoot` | crypto-dbpoe/src/field_impl.h:38-134 | the chain computes a^((p+1)/4) |
| `AdditionChains.ScalarInverse` | crypto-dbpoe/src/scalar_impl.h:55-218 | the chain computes a^(N-2) |
| `AdditionChains.FieldIsMonoid` | crypto-dbpoe/src/field_5x52_impl.h:418-432 | multiplication modulo the characteristic is such a monoid |
| `BatchInverse.InvAll` | crypto-dbpoe/src/field_impl.h:263-288 | every entry becomes the inverse of its input by one inversion; a zero anywhere turns all results into zero |
| `BatchInverse.FillScratch` | crypto-dbpoe/src/group_impl.h:134-147 | the forward pass stores running products in the x slots of the finite points and finds the last of them |
| `BatchInverse.Distribute` | crypto-dbpoe/src/group_impl.h:148-160 | the backward pass leaves each finite point the inverse of its own z coordinate |
| `BatchInverse.SetAllGej` | crypto-dbpoe/src/group_impl.h:129-168 | every finite point gets its affine coordinates and all flags are copied, unless all points are infinite: then nothing is written |
| `Points.ZinvIsAffine` | crypto-dbpoe/src/group_impl.h:74-82 | scaling by the powers of the inverse z coordinate gives the affine point |
| `Points.AffineUnique` | crypto-dbpoe/src/group_impl.h:74-82 | a finite Jacobian point has only one affine form |
| `PointCells.DoubleInto` | crypto-dbpoe/src/group_impl.h:304-357 | on limbs: the coordinate-by-coordinate code stores the double and its ratio, also over its own operand; for coordinates of magnitude 8 every operation gets what it demands and the results are of magnitude 8 again |
| `PointCells.AddInto` | crypto-dbpoe/src/group_impl.h:364-415 | on limbs and with the same magnitudes: the code stores the sum and its ratio, also over either operand |
| `PointCells.AddGeInto` | crypto-dbpoe/src/group_impl.h:417-464 | the same for an affine second operand |
| `PointCells.AddZinvInto` | crypto-dbpoe/src/group_impl.h:466-520 | the same for a second operand with inverted z coordinate |
| `PointCells.UnifiedInto` | crypto-dbpoe/src/group_impl.h:523-643 | on limbs and with the same magnitudes: the branch-free code with its conditional moves stores the unified sum, also over its operand |
| `Jacobian.RatioIsRight` | crypto-dbpoe/src/group_impl.h:364-464 | r.z = a.z*rzr in every branch that returns a finite point |
| `Jacobian.MixedIsGeneral` | crypto-dbpoe/src/group_impl.h:417-464 | the mixed addition equals the general one with z coordinate 1, coordinate by coordinate |
| `Jacobian.ZinvAgrees` | crypto-dbpoe/src/group_impl.h:466-520 | the addition with inverted z coordinate yields the affine point of the general addition, in every branch |
| `CurveLaw.EqXVar` | crypto-dbpoe/src/group_impl.h:249-255 | the cross-multiplied comparison decides equality of affine abscissas |
| `UnifiedAdd.PlusOnCurve` | crypto-dbpoe/src/group_impl.h:290-302 | the law stays on the curve |
| `CurveGroup.NoZeroOrdinate` | crypto-dbpoe/src/group_impl.h:313-321 | no point of the curve has ordinate 0, because the order is odd: what the doubling formula relies on |
| `CurveGroup.DoubleAdds` | crypto-dbpoe/src/group_impl.h:304-357 | doubling is the tangent construction, for every point of the curve |
| `CurveGroup.AddVarAdds` | crypto-dbpoe/src/group_impl.h:364-415 | addition is the chord-and-tangent law for any two points of the curve: infinity, doubling, cancellation and the general case |
| `CurveGroup.AddGeVarAdds` | crypto-dbpoe/src/group_impl.h:417-464 | the same for an affine second operand |
| `CurveGroup.AddZinvAdds` | crypto-dbpoe/src/group_impl.h:466-520 | the same for a second operand with inverted z coordinate |
| `CurveGroup.AddGeAdds` | crypto-dbpoe/src/group_impl.h:523-643 | the unified formula with its alternative slope is the law for every point of the curve and every finite second operand, degenerate abscissas included |
| `PointTables.JacobianTable` | crypto-dbpoe/src/ecmult_impl.h:81-114 | the links of the chain and the ratios of neighbouring z coordinates |
| `PointTables.GlobalZ` | crypto-dbpoe/src/group_impl.h:170-191 | the last z coordinate becomes common to all: every other point is scaled by the ratios behind it |
| `CurveGroup.GenericPoint` | crypto-dbpoe/src/ecmult_impl.h:81-114 | no finite point meets an exceptional case while its table is built: its order is above twice the table length |
| `CurveGroup.OddMultiples` | crypto-dbpoe/src/ecmult_impl.h:81-114 | the chain of additions of 2p yields the odd multiples of p |
| `CurveGroup.MultiplesInStorage` | crypto-dbpoe/src/ecmult_impl.h:141-242 | after the backward pass over (ratio, y) slots, slot i is the affine point (2i+1)*p, for every finite point and any table length |
| `CurveGroup.MultiplesOverOneZ` | crypto-dbpoe/src/ecmult_impl.h:131-139 | every entry with the common z coordinate is its odd multiple, without an inversion, for every finite point |
| `IsomorphicCurve.PlusImage` | crypto-dbpoe/src/ecmult_impl.h:471-480 | the law commutes with the isomorphism that drops a z coordinate, in every case |
| `IsomorphicCurve.DoubleImage` | crypto-dbpoe/src/ecmult_impl.h:531-533 | doubling on the image of the curve |
| `IsomorphicCurve.AddImage` | crypto-dbpoe/src/ecmult_impl.h:554-559 | adding an entry that is affine on the image |
| `IsomorphicCurve.AddZinvImage` | crypto-dbpoe/src/ecmult_impl.h:560-563 | adding a point that is affine on the curve itself, with the common z coordinate as the inverse |
| `IsomorphicCurve.BackFromImage` | crypto-dbpoe/src/ecmult_impl.h:567-569 | one multiplication of z leads back to the curve |
| `CommonTables.AppendTable` | crypto-dbpoe/src/ecmult_impl.h:481-492 | each further table starts from the last z coordinate, and the ratios lead through from one table to the next |
| `CommonTables.SuffixLeadsToLast` | crypto-dbpoe/src/group_impl.h:170-191 | every z coordinate times the ratios behind it is the last one, across tables |
| `CommonTables.BringTogether` | crypto-dbpoe/src/ecmult_impl.h:493-494 | one backward pass makes all entries of all tables affine on the same image |
| `CoordinateStrauss.AddColumn` | crypto-dbpoe/src/ecmult_impl.h:554-559 | the digits of all points at one position are added |
| `CoordinateStrauss.StraussOnCoordinates` | crypto-dbpoe/src/ecmult_impl.h:422-570 | run on field elements, the algorithm returns Jacobian coordinates of the sum of na[i]*a[i] plus ng*G |
| `CoordinateStrauss.EcmultOnCoordinates` | crypto-dbpoe/src/ecmult_impl.h:572-590 | Jacobian coordinates of na*a + ng*G |
| `Wnaf.EcmultWnaf` | crypto-dbpoe/src/ecmult_impl.h:347-396 | digits are 0 or odd, below 2^(w-1) in absolute value and w apart; the returned length bounds them |
| `Wnaf.FullLengthExact` | crypto-dbpoe/src/ecmult_impl.h:347-396 | at 256 digits no carry is left and the value is the scalar or the scalar less N |
| `WnafFixed.FixedWnaf` | crypto-dbpoe/src/ecmult_impl.h:656-716 | digits are 0 or odd, below 2^w in absolute value, and their value is exactly the scalar plus the skew |
| `WnafConst.ConstWnaf` | crypto-dbpoe/src/ecmult_const_impl.h:51-118 | odd digits below 2^w whose value is the scalar plus 1 or 2, up to N, and never zero |
| `Strauss.OddMultiplesTable` | crypto-dbpoe/src/ecmult_impl.h:81-114 | entry i is (2i+1)*a, in any abelian group |
| `Strauss.StraussWnaf` | crypto-dbpoe/src/ecmult_impl.h:422-570 | the interleaved double-and-add loop gives the sum of na[i]*a[i] plus ng*G |
| `Strauss.Ecmult` | crypto-dbpoe/src/ecmult_impl.h:572-590 | na*a + ng*G |
| `Pippenger.PippengerWnaf` | crypto-dbpoe/src/ecmult_impl.h:735-810 | recoding, buckets, skew correction and running sum give the sum of sc[i]*pt[i] for every bucket window; every bucket index is in range |
| `MultiSizes.WindowTablesAgree` | crypto-dbpoe/src/ecmult_impl.h:816-904 | the two window tables are inverse: w serves exactly the counts above the bound of w-1 up to its own |
| `MultiSizes.PippengerMaxPoints` | crypto-dbpoe/src/ecmult_impl.h:1023-1057 | every count up to the result fits with its own window and the next one does not: the result is the largest |
| `MultiSizes.LargestIs` | crypto-dbpoe/src/ecmult_impl.h:1023-1057 | counting up while one point more fits stops at the one count such that all up to it fit and the next does not |
| `MultiSizes.BatchesPartition` | crypto-dbpoe/src/ecmult_impl.h:1101-1138 | the batches are non-empty, within the limit, partition the points, and are as few and then as small as that allows |
| `MultiVar.PippengerBatch` | crypto-dbpoe/src/ecmult_impl.h:938-1011 | fails exactly when the space or the callback does, restores the scratch space, and otherwise returns the sum |
| `MultiVar.StraussBatch` | crypto-dbpoe/src/ecmult_impl.h:601-638 | the same for the Strauss batch, empty ones with and without a scalar for G included |
| `MultiVar.MultiVarSimple` | crypto-dbpoe/src/ecmult_impl.h:1061-1085 | multiply-and-add one point at a time gives the sum, and fails exactly with the callback |
| `MultiVar.EcmultMultiVar` | crypto-dbpoe/src/ecmult_impl.h:1088-1140 | whatever algorithm and batching is chosen, success means the plain sum with G counted once; it succeeds exactly when the callback delivers every term and one point fits for what is chosen |
| `MultiVar.Schedule` | crypto-dbpoe/src/ecmult_impl.h:1098-1127 | Pippenger's algorithm is chosen exactly when the batches its largest size gives reach the threshold; the choice fails exactly when one point does not fit for what is chosen |
| `MultiVar.PippengerPieces` | crypto-dbpoe/src/ecmult_impl.h:928-975 | the size requested for a batch is that of its pieces and one int for every point |
| `Scratch.ScratchSpace.AllocateFrame` | crypto-dbpoe/src/scratch_impl.h:42-58 | succeeds exactly when the request and its alignment slack are left or the request is empty; the accounting is kept except for an empty request without room for the slack |
| `Scratch.ScratchSpace.DeallocateFrame` | crypto-dbpoe/src/scratch_impl.h:60-64 | removes the last frame and nothing else |
| `Scratch.ScratchSpace.Alloc` | crypto-dbpoe/src/scratch_impl.h:66-79 | succeeds exactly when the rounded size is left in the frame |
| `Scratch.RoundedUp` | crypto-dbpoe/src/scratch_impl.h:66-69 | sizes are rounded to the least multiple of the alignment that is not below |
| `EcmultConst.PrefixRange` | crypto-dbpoe/src/ecmult_const_impl.h:120-255 | every intermediate multiple is non-zero and at most the whole one, so no exceptional addition occurs |
| `EcmultConst.EcmultConst` | crypto-dbpoe/src/ecmult_const_impl.h:120-255 | scalar*a for every scalar, 0 and N-1 included, that fits the given number of bits up to sign |
| `EcmultGen.OffsetsCancel` | crypto-dbpoe/src/ecmult_gen_impl.h:65-91 | the 64 row offsets of the comb add up to zero |
| `EcmultGen.GenContext.Build` | crypto-dbpoe/src/ecmult_gen_impl.h:29-102 | fills every table entry and establishes initial + blind*G = 0; a built context is left alone |
| `EcmultGen.GenContext.EcmultGen` | crypto-dbpoe/src/ecmult_gen_impl.h:125-157 | gn*G for every scalar, whatever the blinding |
| `EcmultGen.GenContext.Blind` | crypto-dbpoe/src/ecmult_gen_impl.h:160-209 | re-blinding keeps the invariant; without a seed it starts over |
| `EcmultGen.GenContext.BlindRepeatedly` | crypto-dbpoe/src/ecmult_gen_impl.h:160-209 | any sequence of re-blindings leaves a correct context |
| `Der.SigParse` | crypto-dbpoe/src/ecdsa_impl.h:145-175 | the cursor code computes the strict parse and never reads past the end |
| `Der.StrictIff` | crypto-dbpoe/src/ecdsa_impl.h:49-175 | on every string below 2 GiB: accepted is exactly a sequence of two non-empty unpadded integers with every length in its one form and nothing behind, and the result is the numbers they stand for, zero where negative or not below N |
| `Der.SigSerialize` | crypto-dbpoe/src/ecdsa_impl.h:177-199 | always reports the needed size, writes the one encoding when it fits and touches nothing else |
| `Der.ParseSerialized` | crypto-dbpoe/src/ecdsa_impl.h:145-199 | every pair of scalars is parsed back from its encoding |
| `Der.ShortLength` | crypto-dbpoe/src/ecdsa_impl.h:49-97 | lengths below 128 have one accepted encoding |
| `Der.CanonicalIff` | crypto-dbpoe/src/ecdsa_impl.h:49-199 | an accepted string is the serialization of what was read if and only if both contents have a clear top bit and a value below N |
| `Der.EncodingUnique` | crypto-dbpoe/src/ecdsa_impl.h:145-175 | two accepted strings with the same non-zero scalars are equal |
| `Der.NegativeReadsZero` | crypto-dbpoe/src/ecdsa_impl.h:99-143 | negative octets of any length up to 64, in either position, are read as zero |
| `Der.OversizedReadsZero` | crypto-dbpoe/src/ecdsa_impl.h:99-143 | numbers of at least N, in either position, are read as zero |
| `LaxDer.LaxParse` | crypto-dbpoe/contrib/lax_der_parsing.c:12-149 | the permissive code computes the lax parse and never reads past the end |
| `LaxDer.LaxIff` | crypto-dbpoe/contrib/lax_der_parsing.c:12-149 | on every string: accepted is exactly a sequence of any skippable length with two integers whose lengths are in any form, leading zeros included, and anything behind; the result is the two unsigned numbers, or zero twice when one is not below N |
| `LaxDer.LaxParsesSerialized` | crypto-dbpoe/contrib/lax_der_parsing.c:12-149 | it reads every serialized pair back |
| `LaxDer.LaxOfAccepted` | crypto-dbpoe/contrib/lax_der_parsing.c:12-149 | on every string that the strict parser accepts it succeeds and reads the same content octets without a sign |
| `LaxDer.LaxAgreesIff` | crypto-dbpoe/contrib/lax_der_parsing.c:12-149 | the parsers agree if and only if no content below N has its top bit set, or, where a content is not below N, both read zero to the strict parser |
| `LaxDer.LaxAgrees` | crypto-dbpoe/contrib/lax_der_parsing.c:12-149 | it agrees with the strict parser on every string accepted with non-zero scalars |
| `LaxDer.LaxDiffersOnNegative` | crypto-dbpoe/contrib/lax_der_parsing.c:12-149 | a negative integer below N is zero to one parser and a number to the other, in either position |
| `LaxDer.LaxDiffersOnOversized` | crypto-dbpoe/contrib/lax_der_parsing.c:12-149 | a number of at least N makes the permissive parser drop the other scalar too, in either position |
| `Sha256.Hasher.constructor` | crypto-dbpoe/src/hash_impl.h:36-46 | a fresh hasher has taken in the empty message |
| `Sha256.Hasher.Write` | crypto-dbpoe/src/hash_impl.h:131-147 | state and buffer depend on the concatenated message alone |
| `Sha256.Hasher.Finalize` | crypto-dbpoe/src/hash_impl.h:149-163 | the digest is the block fold over the message padded as in section 5.1.1 of FIPS 180-4, below 2^61 bytes; the state is cleared |
| `Sha256.PadIff` | crypto-dbpoe/src/hash_impl.h:149-157 | the padding octet by octet: the message, the marker, as few zero octets as reach a block boundary eight octets later, the bit length |
| `Sha256.PadInjective` | crypto-dbpoe/src/hash_impl.h:149-157 | different messages are padded differently |
| `Sha256.HashIs` | crypto-dbpoe/src/hash_impl.h:131-163 | the digest is that of the last of a run of states that starts with the initial one and takes in the padded message block by block |
| `Sha256.Authenticator.constructor` | crypto-dbpoe/src/hash_impl.h:165-191 | keys of any length are brought to one block and masked twice in place |
| `Sha256.Authenticator.Finalize` | crypto-dbpoe/src/hash_impl.h:197-203 | the result is HMAC of section 2 of RFC 2104 over all that was written |
| `Sha256.XorBitsAt` | crypto-dbpoe/src/hash_impl.h:180-188 | every bit of an exclusive or is set exactly when the bits of the operands differ |
| `Sha256.ShortKey` | crypto-dbpoe/src/hash_impl.h:165-170 | the block of a short key is the key and zero octets |
| `Sha256.LongKey` | crypto-dbpoe/src/hash_impl.h:170-176 | a key longer than a block counts as its digest |
| `Sha256.HmacIs` | crypto-dbpoe/src/hash_impl.h:165-203 | with the key block's bits turned over where 0x5C and 0x36 have theirs, HMAC is the digest of the one and the digest of the other and the message |
| `Sha256.HmacEmptyKey` | crypto-dbpoe/src/hash_impl.h:165-203 | with the empty key both blocks are the constants themselves |
| `Sha256.XorCancels` | crypto-dbpoe/src/hash_impl.h:176-191 | masking the masked key with the difference of the masks gives the second mask |
| `Rfc6979.Generator.constructor` | crypto-dbpoe/src/hash_impl.h:206-234 | the state is that of steps b to g of section 3.2 of RFC 6979 |
| `Rfc6979.SeededIs` | crypto-dbpoe/src/hash_impl.h:206-234 | steps b to g one by one, with the keyed strings by their octets: V, a zero or a one, the seed |
| `Rfc6979.Generator.Generate` | crypto-dbpoe/src/hash_impl.h:236-265 | the octets are a prefix of the HMAC chain, and every call after the first is preceded by the update of step h |
| `Rfc6979.UpdateIs` | crypto-dbpoe/src/hash_impl.h:236-249 | step h: the new key is that of V and a zero octet, the new V that of V under it |
| `Rfc6979.OutputIs` | crypto-dbpoe/src/hash_impl.h:250-263 | the output is, 32 octets at a time, the values of a chain in which each is the keyed hash of the one before |
| `Bytes.ScalarRoundTrip` | crypto-dbpoe/src/scalar_4x64_impl.h:127-144 | a scalar survives its 32 bytes without an overflow flag |
| `Bytes.ScalarBytesUnique` | crypto-dbpoe/src/scalar_4x64_impl.h:127-144 | a string read without the flag is the writing of what was read |
| `Ecdsa.SigVerify` | crypto-dbpoe/src/ecdsa_impl.h:201-269 | accepts exactly the signatures of section 4.1.4 of SEC 1 |
| `Ecdsa.SigSign` | crypto-dbpoe/src/ecdsa_impl.h:271-311 | fails exactly when s would be zero; else s is low, satisfies the signature equation for the nonce or its negative, and the recovery id is that of the same nonce |
| `Ecdsa.EquationSuffices` | crypto-dbpoe/src/ecdsa_impl.h:201-269 | any s with s*k = m + r*d, for a non-zero k whose point has abscissa r modulo the order, verifies |
| `Ecdsa.AcceptedExactly` | crypto-dbpoe/src/ecdsa_impl.h:201-269 | a signature verifies under d*G if and only if some non-zero nonce satisfies the signature equation for d and has abscissa r modulo the order |
| `Ecdsa.NegatedVerifies` | crypto-dbpoe/src/ecdsa_impl.h:201-311 | (r, s) verifies if and only if (r, -s) does |
| `Ecdsa.SignThenVerify` | crypto-dbpoe/src/ecdsa_impl.h:201-311 | whenever signing succeeds the signature is low and verifies under d*G |
| `EcdsaOnCurve.XMatches` | crypto-dbpoe/src/ecdsa_impl.h:235-268 | the two cross-multiplied comparisons decide, in Jacobian coordinates, whether the abscissa modulo the order is r |
| `EcdsaOnCurve.SigVerifyOnCurve` | crypto-dbpoe/src/ecdsa_impl.h:201-269 | verification run on field elements accepts exactly the signatures of section 4.1.4 of SEC 1 over the curve |
| `Recovery.SetXo` | crypto-dbpoe/src/group_impl.h:219-240 | the point of the curve over x with the given parity, and failure exactly when the curve has no point over x |
| `Recovery.OneKey` | crypto-dbpoe/src/modules/recovery/main_impl.h:87-121 | a signature with its recovery id fits one key at most |
| `Recovery.SigRecover` | crypto-dbpoe/src/modules/recovery/main_impl.h:87-121 | returns the one finite key with s*R = m*G + r*Q for the point R that r and the recovery id name, and fails exactly when there is none |
| `Recovery.VerifiesIffRecovered` | crypto-dbpoe/src/modules/recovery/main_impl.h:87-121 | a signature verifies under a finite key if and only if some recovery id recovers that key |
| `Recovery.SignThenRecover` | crypto-dbpoe/src/modules/recovery/main_impl.h:87-168 | recovering from what was signed yields the signer's public key, high s included |
| `RingAlgebra.GetJth` | crypto-dbpoe/src/modules/ringcip/ring_impl.h:258-265 | the loop computes the digit of the position |
| `RingAlgebra.DigitsDetermine` | crypto-dbpoe/src/modules/ringcip/ring_impl.h:258-265 | positions below n^m are determined by their m digits |
| `RingAlgebra.EvalIsProduct` | crypto-dbpoe/src/modules/ringcip/ring_impl.h:341-376 | the multiplied-out coefficients evaluate to the product of the linear factors |
| `RingAlgebra.TimesFactor` | crypto-dbpoe/src/modules/ringcip/ring_impl.h:353-374 | the in-place update multiplies the coefficients modulo N by one linear factor |
| `RingProver.Polynomial` | crypto-dbpoe/src/modules/ringcip/ring_impl.h:341-376 | the row of the table holds the coefficients of the position's polynomial |
| `RingSpec.OnlySecretIsMonic` | crypto-dbpoe/src/modules/ringcip/ring_impl.h:341-376 | only the secret position's polynomial has full degree, and it is monic |
| `RingProver.CommitTo` | crypto-dbpoe/src/modules/ringcip/ring_impl.h:378-428 | the accumulation loop computes the vector commitment, exactly when no proper prefix of its sum is infinity |
| `RingProver.CoefficientPoint` | crypto-dbpoe/src/modules/ringcip/ring_impl.h:431-440 | the point for coefficient j blinds the ring weighted with column j, exactly when no proper prefix of its sum is infinity |
| `RingProver.ResponseRows` | crypto-dbpoe/src/modules/ringcip/ring_impl.h:467-474 | the responses of a row add up to the challenge, so the first need not be sent |
| `RingProver.Opening` | crypto-dbpoe/src/modules/ringcip/ring_impl.h:484-494 | the loop computes key*x^m less the weighted blinding factors |
| `RingProver.HashedIff` | crypto-dbpoe/src/modules/ringcip/ring_impl.h:456-465 | what is hashed for a challenge, by its places: the entries of the ring in order, the outer challenge, the points |
| `RingProver.ChallengeDecides` | crypto-dbpoe/src/modules/ringcip/ring_impl.h:456-465 | two challenges agree under every hash if and only if ring, outer challenge and points are the same |
| `RingProver.EveryNonceDrawn` | crypto-dbpoe/src/modules/ringcip/ring_impl.h:313-339 | each nonce comes from octets of its own: every choice whose rows add up to zero can be drawn |
| `RingProver.DrawnUnique` | crypto-dbpoe/src/modules/ringcip/ring_impl.h:313-339 | the nonces are determined by the octets |
| `RingProver.RestrictKeeps` | crypto-dbpoe/src/modules/ringcip/ring_impl.h:378-428 | with fewer digits the generators of the first ones are used, each in its place |
| `RingProof.Create` | crypto-dbpoe/src/modules/ringcip/ring_impl.h:279-513 | refuses exactly on the stated checks, and otherwise, exactly for regular nonces, writes the whole honest proof, challenge included |
| `RingCodec.SaveInjective` | crypto-dbpoe/src/modules/ringcip/ring_impl.h:22-35 | comparing the 33-byte encodings compares the points |
| `RingCodec.WrittenIsRead` | crypto-dbpoe/src/modules/ringcip/ring_impl.h:578-608 | only the serialization of the scalars that were read is accepted |
| `RingCodec.RebuildTail` | crypto-dbpoe/src/modules/ringcip/ring_impl.h:578-591 | leaving out the first response of every row loses nothing |
| `RingCodec.DecodeEncode` | crypto-dbpoe/src/modules/ringcip/ring_impl.h:553-608 | a proof reads back as it was written and has the announced size |
| `RingCodec.PointsPlaced` | crypto-dbpoe/src/modules/ringcip/ring_impl.h:443-454 | the points of a proof stand in the order A, B, C, D, then one for every digit |
| `RingCodec.ScalarsPlaced` | crypto-dbpoe/src/modules/ringcip/ring_impl.h:496-508 | behind them every response but the first of each digit, row by row, then the two blinding responses and the openings |
| `RingVerifier.CheckProof` | crypto-dbpoe/src/modules/ringcip/ring_impl.h:516-700 | for regular proofs, and the contract says exactly which those are, accepts exactly the strings that decode to a transcript satisfying the three equations |
| `RingVerifier.ZeroResponseIrregular` | crypto-dbpoe/src/modules/ringcip/ring_impl.h:650-670 | a zero first response starts a sum at infinity as soon as the first commitment equation is formed |
| `PlainProofs.ZeroResponseArises` | crypto-dbpoe/src/modules/ringcip/ring_impl.h:516-700 | for keys that open the commitment at the position and any challenge but zero there is an honest proof that satisfies all equations and is not regular |
| `RingSpec.RegularJoin` | crypto-dbpoe/src/modules/ringcip/ring_impl.h:610-647 | a sum added up in two parts is regular exactly when the first part is and the second never cancels it |
| `RingSpec.Completeness` | crypto-dbpoe/src/modules/ringcip/ring_impl.h:516-700 | the honest transcript satisfies the two commitment equations always, and the ring equation exactly when x^m times the commitment at the position, neutral where the ring has none, is x^m times the opening |
| `Membership.HonestProofVerdict` | crypto-dbpoe/src/modules/ringcip/ring_impl.h:516-700 | an honestly written proof, for any position below n^m, is accepted exactly when the keys open the commitment there or the challenge is zero |
| `Membership.MissingPositionAccepted` | crypto-dbpoe/src/modules/ringcip/ring_impl.h:516-647 | at a position that the ring does not fill, a proof made without any key is accepted |
| `Membership.Verify` | crypto-dbpoe/src/modules/ringcip/ring_impl.h:516-700 | acceptance with the admission checks on ring size and digits, for exactly the regular proofs and those that are refused unread |
| `Membership.CreateAndVerify` | crypto-dbpoe/src/modules/ringcip/main_impl.h:215-308 | creating and then verifying, with regular nonces and a regular proof, accepts exactly when the keys open the commitment or the challenge is zero |
| `Membership.GenerateTopicMpk` | crypto-dbpoe/src/modules/ringcip/main_impl.h:63-122 | the public key commits to the values of all topics, exactly when no proper prefix of the sum is infinity |
| `Membership.TopicOctetsIff` | crypto-dbpoe/src/modules/ringcip/main_impl.h:94-101 | what is hashed for a topic, by its places: the master key, the names up to that topic, four octets 0x0a |
| `Membership.TopicKeyDecides` | crypto-dbpoe/src/modules/ringcip/main_impl.h:94-101 | two topic values agree under every hash if and only if the master keys and the names up to the topics are the same |
| `Membership.TopicsDiffer` | crypto-dbpoe/src/modules/ringcip/main_impl.h:94-101 | two topics of one user have different values under some hash |
| `Membership.RemoveTopic` | crypto-dbpoe/src/modules/ringcip/main_impl.h:311-394 | taking the published value away leaves a commitment to the other topics |
| `Membership.ProveTopic` | crypto-dbpoe/src/modules/ringcip/main_impl.h:311-394 | publishes the topic's value and, exactly for regular nonces and a ring without the shift itself, writes an honest proof over the shifted ring |
| `Membership.ServiceDecides` | crypto-dbpoe/src/modules/ringcip/main_impl.h:353-358 | the outer challenge depends on the service key, the value W and the name, and on nothing else |
| `Membership.VerifyTopic` | crypto-dbpoe/src/modules/ringcip/main_impl.h:397-454 | accepts exactly the proofs that the ring verifier accepts over the ring shifted by the nullifier; the contract says exactly which are regular |
| `Membership.MemberIsAccepted` | crypto-dbpoe/src/modules/ringcip/main_impl.h:311-454 | with the value of the topic as nullifier a proof is accepted exactly when the public key was generated from the master key or the challenge is zero, for exactly the regular runs |
| `Membership.DeriveSpk` | crypto-dbpoe/src/modules/ringcip/main_impl.h:183-213 | the service key is the derived secret times the base |
| `Membership.ServiceSecretDecides` | crypto-dbpoe/src/modules/ringcip/main_impl.h:125-148 | the secret key for a service depends on the master key and on the whole name, and on nothing else |
| `Membership.AuthProve` | crypto-dbpoe/src/modules/ringcip/main_impl.h:575-637 | the 65 bytes are the nonce point and the Schnorr response |
| `Membership.AuthVerify` | crypto-dbpoe/src/modules/ringcip/main_impl.h:640-690 | accepts exactly when the Schnorr equation holds |
| `Membership.AuthChallengeIs` | crypto-dbpoe/src/modules/ringcip/main_impl.h:613-618 | what is hashed for an authentication: the service key, the outer challenge, the nonce point |
| `Membership.AuthChallengeDecides` | crypto-dbpoe/src/modules/ringcip/main_impl.h:613-618 | two of its challenges agree under every hash if and only if all three are the same |
| `Membership.AuthComplete` | crypto-dbpoe/src/modules/ringcip/main_impl.h:575-690 | a proof verifies under exactly the signer's key, unless the challenge is zero |
| `RingSoundness.ExtractOpens` | crypto-dbpoe/src/modules/ringcip/ring_impl.h:610-647 | openings of a point polynomial at as many distinct challenges as it has coefficients open its leading coefficient, by divided differences |
| `RingSoundness.EquationAsPolynomial` | crypto-dbpoe/src/modules/ringcip/ring_impl.h:610-647 | for responses of one position the ring equation says that z opens a polynomial led by the commitment there |
| `RingDigits.SlopeIsBit` | crypto-dbpoe/src/modules/ringcip/ring_impl.h:672-695 | three answers to the bit equation on one line force a committed digit to be 0 or 1 |
| `RingDigits.PositionOf` | crypto-dbpoe/src/modules/ringcip/ring_impl.h:578-591 | bits, rows that add up to the challenge and fewer columns than the order spell the digits of exactly one position |
| `RingExtraction.LineOpens` | crypto-dbpoe/src/modules/ringcip/ring_impl.h:650-670 | two answers to a commitment equation open both commitments |
| `RingExtraction.GapIsRelation` | crypto-dbpoe/src/modules/ringcip/ring_impl.h:650-695 | a third answer off their line is a relation between the generators |
| `RingExtraction.SpecialSoundness` | crypto-dbpoe/src/modules/ringcip/ring_impl.h:610-700 | transcripts with the same points and distinct challenges, more than max(2, m), over any ring of at most n^m commitments, yield a non-trivial relation between the generators or open what stands at a position, which is the neutral element where the ring has no commitment |
| `RingExtraction.RebuiltRow` | crypto-dbpoe/src/modules/ringcip/ring_impl.h:578-591 | the rows that the verifier rebuilds add up to the challenge |
| `RingExtraction.AcceptedProofsOpen` | crypto-dbpoe/src/modules/ringcip/ring_impl.h:516-700 | the same, stated for byte strings that the verifier accepts |
| `RingBinding.ExactLine` | crypto-dbpoe/src/modules/ringcip/ring_impl.h:650-695 | answers that are given from one line leave no gap, so they relate no generators |
| `RingBinding.PartialRingUnsound` | crypto-dbpoe/src/modules/ringcip/ring_impl.h:516-531 | over a ring with a missing position the answers of a prover without keys, for any nonces, satisfy the equations, relate no generators and combine into an opening of the neutral element, so of no commitment of the ring |
| `MissingPositions.KeylessProof` | crypto-dbpoe/src/modules/ringcip/ring_impl.h:516-700 | over a ring with a missing position there is, for every hash and outer challenge, a string that is accepted; it is written without a key |
| `RegularAnswers.KeylessRegular` | crypto-dbpoe/src/modules/ringcip/ring_impl.h:610-695 | for nonces and challenges that avoid finitely many values, no running sum of the verifier is infinity when it reads the answers of a prover without keys |
| `AcceptedFamilies.FullRingBinds` | crypto-dbpoe/src/modules/ringcip/ring_impl.h:516-700 | over a full ring, strings with the same points that are accepted under enough distinct challenges decode to transcripts that relate the generators or open a commitment of the ring |
| `AcceptedFamilies.KeylessFamilyAccepted` | crypto-dbpoe/src/modules/ringcip/ring_impl.h:516-700 | with a position missing, a prover without keys writes such strings, all of them accepted and read without meeting infinity |
| `AcceptedFamilies.SoundIffFull` | crypto-dbpoe/src/modules/ringcip/ring_impl.h:516-700 | all families of accepted strings relate the generators or open a commitment of the ring if and only if the ring has n^m of them; the same for families that are read without meeting infinity |
| `Nullifiers.OpensKey` | crypto-dbpoe/src/modules/ringcip/main_impl.h:397-454 | what opens a shifted key over the other topics opens, with the published value, the public key, and conversely |
| `Nullifiers.OpensShifted` | crypto-dbpoe/src/modules/ringcip/main_impl.h:397-454 | the openings in accepted strings combine into one of a member of the shifted ring if and only if, with the published value, they open the public key |
| `Nullifiers.ShownOpensKey` | crypto-dbpoe/src/modules/ringcip/main_impl.h:397-454 | the transcripts in accepted strings for a topic relate the generators of the proof, or combine into values that, with the published one, open a public key, or, only with a position missing, into an opening of the neutral element |
| `Nullifiers.OneValue` | crypto-dbpoe/src/modules/ringcip/main_impl.h:397-454 | that for two families of accepted strings; and if the values in both open the same public key, they published the same value, or the difference of these values relates the generators of the topics |
| `Nullifiers.AnyValueAccepted` | crypto-dbpoe/src/modules/ringcip/main_impl.h:397-454 | with a position missing, for every hash and every value some string is accepted for the topic |
| `Nullifiers.KeylessShown` | crypto-dbpoe/src/modules/ringcip/main_impl.h:397-454 | such strings form accepted families, read without meeting infinity, that are bound to no public key |
| `Nullifiers.TopicSoundIffFull` | crypto-dbpoe/src/modules/ringcip/main_impl.h:397-454 | everything accepted for a topic and a value is bound to a public key with that value if and only if no position is missing |
| `Nullifiers.ValueStrings` | crypto-dbpoe/src/modules/ringcip/main_impl.h:397-454 | exactly the 32 bytes of a value and, below 2^256 - N, those of the value plus the order are taken for it |

## Left out

- PlusOnCurve: closure of the curve is proved; that the law is associative and the order is the prime N is the hypothesis `IsSecp256k1`.
- AllocateFrame: the system allocator is assumed to succeed.
- PippengerMaxPoints: sizes are unbounded numbers; `n_points + max_points - 1` is not taken modulo the width of size_t.
- SigSign: the nonce is one whose abscissa is not a multiple of the order, as the code checks in its debugging build.
- SigParse: lengths are read as the code reads them, including the conversion to int; inputs of 2^56 bytes and more, whose long-form lengths could wrap in size_t, are not modelled.
- StrictIff: strings of 2 GiB and more are left to `Der.SigParse`, which models the conversion of lengths to int.
- CheckProof: the number of digits equals that of the context it is given; `Membership.Verify` restricts a larger context.
- CheckProof: what the affine addition returns for an infinite operand is not modelled, so nothing is claimed for proofs that are not regular; byte strings whose x coordinate is not on the curve are not modelled, the codec always loads a finite point.
- SoundIffFull: each string of a family is accepted under a hash of its own, as in an argument that rewinds the prover; the group must have at least five more scalars than there are generators and digits, or the challenges run out.
- TopicSoundIffFull: the same, and the value must not be one whose multiple of the topic's generator is itself a public key; the shifted ring then holds infinity.
- ZeroResponseArises: the sum of the bases is taken to be finite; otherwise the bases are related.
- AcceptedProofsOpen: says what accepted proofs determine; nothing is said about how challenges come about, the hash being arbitrary.
- FieldInverse: the exponent is proved, as those of FieldRoot and ScalarInverse; that the chains invert and find roots (Fermat's theorem and the primality of both moduli) is the hypothesis `IsInverse`, `IsScalarInverse` or `IsRoot` where it is used.
- Build: the seeded generator inside blinding is a parameter: the accepted output comes in as a scalar, and the loops that retry on overflow or zero are left out.
- Blind: the same parameter; the rescaling of the initial point by a random z coordinate changes its coordinates only, and points are group elements there.
- The build with the endomorphism: `Split` is proved, its use inside the multiplications is not modelled.
- StraussOnCoordinates: coordinates are residues; `PointCells` carries the formulas down to limbs one call at a time. The tables of the points are built in separate buffers and joined, where the code uses one buffer with offsets; the other multiplications are modelled over an abstract group only.
- The SHA-256 compression function is an arbitrary function on blocks.
- The 32-bit twins `scalar_8x32_impl.h` and `field_10x26_impl.h`, the inline assembly and the bignum backend.
- Rows of two-dimensional C arrays, such as the coefficient table of the ring prover, are separate sequences.
- Public keys from bytes, private-key DER, tweaks, context cloning, clearing of secrets and timing.
- The proof of concept in Go, the Solidity migration and the plotting script.
