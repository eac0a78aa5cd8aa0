# noble-ed25519 (offline, simplified) in Dafny

This project models `noble-ed25519-offline-simple.js`, a small JavaScript module that derives a
32-byte Ed25519-style public key from a 32-byte private key using BigInt arithmetic. Every
value is an unbounded integer, so the model works over Dafny's `int`. The module has these parts:

- **Field helpers.** `mod` turns JavaScript's truncating `%` into a residue in [0, b). `pow2`
  squares a value modulo P = 2^255 − 19 a given number of times. `pow_2_252_3` is a fixed
  addition chain of squarings and products.
- **`sqrt_ratio_3mod4(u, v)`.** It forms the candidate u·v³·(u·v⁷)^E and checks v·x² against u,
  −u and −u·Gx. It then picks a root, or fails with 'Invalid point', and makes the result even.
- **`pointAdd`.** Affine addition that *multiplies* by (1 ± d·x1·x2·y1·y2). The Edwards law of
  section 5.1.4 of RFC 8032 divides by these terms, so this is not the group law. The model
  reproduces the formula exactly and proves only what it does.
- **`pointMultiply`.** A 256-round double-and-add loop that takes the scalar's bits from the
  lowest up.
- **`getPublicKey`.** It works in five steps:
  1. Checks the length.
  2. Decodes the key little-endian.
  3. Reduces modulo n.
  4. Clears bits 252–254 and sets bit 254.
  5. Multiplies the base point and encodes y little-endian. It then means to put the parity
     of x in the top bit of byte 31, as in section 5.1.2 of RFC 8032.

  As written, that last step (line 135) shifts the BigInt `x & 1n` by the Number 7. ECMAScript
  throws a TypeError for a BigInt and a Number in one `<<`, so every 32-byte key ends in that
  error (see "## Findings").

  There is no SHA-512 expansion, and this is not the clamping of section 5.1.5 of RFC 8032.

The model has these modules:

- `Arith`: powers, powers of two, bit tests, and facts about Euclidean division.
- `Curve`: the constants, points, the error type, `mod`, and the JavaScript `<<` on BigInts and
  Numbers.
- `Field`: `pow2` and the chain.
- `SqrtRatio`: the candidate, the three comparisons and `sqrt_ratio_3mod4`.
- `Points`: `pointAdd` and `pointMultiply`.
- `PublicKey`: decoding, clamping, encoding and `getPublicKey`.

Bitwise BigInt operators become division and remainder by powers of two (`Arith.Bit`,
`PublicKey.ClearBits252To254`, `PublicKey.SetBit254`, `PublicKey.ByteOf`). Dafny's `/` and `%`
are Euclidean, which for a positive divisor is floor division, so this matches BigInt's
two's-complement semantics.

The loops of the source appear as methods with loop invariants:
- the `while` of `pow2` in `Field.Pow2`;
- the 256 rounds of `pointMultiply` in `Points.PointMultiply`;
- the decoding loop in `PublicKey.ClampedPoint`;
- the `Uint8Array` fill in `PublicKey.FillY`.

`PublicKey.GetPublicKeyAsWritten` runs these and then fails at line 135's shift.
`PublicKey.GetPublicKeyIntended` instead performs the intended `|=` into byte 31.

Each method is proved against a specification function: `Field.Squarings`,
`Points.LadderAfter`, `PublicKey.LittleEndian`, `PublicKey.EncodeY` and `PublicKey.EncodePoint`. Lemmas about those
functions carry the properties.

**The code computes another exponent than the name says.** The name `pow_2_252_3` says
x^(2^252 − 3), the exponent section 5.1.3 of RFC 8032 uses. The code does not compute that.
`pow2(x3, 3n)` on line 37 squares x³ three times, which gives x^24, not x^6. Every later line
inherits the error. The model follows the code: `Field.ChainExponent` tracks the exponent line
by line, and the lemmas prove the value is 0x1d00000000000000000000000000000001d0000000180e80075,
which is different from 2^252 − 3. `sqrt_ratio_3mod4` inherits this exponent. It also keeps two other
departures from section 5.1.3 of RFC 8032:
- it multiplies by `CURVE.Gx` where the RFC uses sqrt(−1);
- it accepts the third ("noRoot") comparison instead of failing.

In RFC 8032 that case means no root exists; the code accepts it, and the model follows the code.

## Model

| member | source | states |
|---|---|---|
| Curve.TruncatedRemainder | noble-ed25519-offline-simple.js:19 | BigInt `a % b` has magnitude below \|b\| and takes the sign of the dividend |
| Curve.Mod | noble-ed25519-offline-simple.js:18-21 | for b > 0, `mod(a, b)` lies in [0, b) and equals the Euclidean a % b, negative a included |
| Curve.ConstantRanges | noble-ed25519-offline-simple.js:6-15 | P = 2^255 − 19, 2^252 < n < 2^253, and d, Gx, Gy lie in [0, P) |
| Arith.Bit | noble-ed25519-offline-simple.js:95 | the bit test `s & (1n << i)` yields 0 or 1 |
| Arith.BitOfLowPart | noble-ed25519-offline-simple.js:95 | bit i of s only depends on s mod 2^k for i < k |
| Field.Pow2 | noble-ed25519-offline-simple.js:23-31 | `pow2` does exactly `power` squarings: for power > 0 it returns x^(2^power) mod P in [0, P); for power ≤ 0 it returns x unchanged and unreduced |
| Field.Squarings | noble-ed25519-offline-simple.js:26-29 | for k > 0 rounds the value of `res` lies in [0, P); SquaringsArePowers gives its value x^(2^k) mod P |
| Field.SquaringsArePowers | noble-ed25519-offline-simple.js:26-29 | k rounds of `res = mod(res * res)` give x^(2^k) mod P |
| Field.RepresentsSquarings | noble-ed25519-offline-simple.js:26-29 | squaring k times a value congruent to x^e gives one congruent to x^(e·2^k) |
| Field.Pow2252Minus3 | noble-ed25519-offline-simple.js:33-52 | the chain's result lies in [0, P) |
| Field.ChainHead | noble-ed25519-offline-simple.js:35-39 | x2, x3, x6, x11 stand for x^2, x^3, x^24 (not x^6) and x^29 |
| Field.ChainMiddle | noble-ed25519-offline-simple.js:40-43 | x22, x44 and x176 stand for x raised to the exponent of x11 times 2^11, then also times 2^22, and then also times 2^44·2^88 |
| Field.ChainLateProducts | noble-ed25519-offline-simple.js:44-47 | x220, x223, t1 and t2 add and shift exponents as the lines say |
| Field.ChainLastSteps | noble-ed25519-offline-simple.js:48-51 | t3, t4, t5 and the result finish the exponent as ((f·2^6 + e11)·2^2 + 1) |
| Field.ChainTail | noble-ed25519-offline-simple.js:44-51 | lines 44-51 turn the exponents of x3, x11, x22, x44, x176 into the final exponent |
| Field.ChainExponent | noble-ed25519-offline-simple.js:35-51 | the exponent of x that each line of the chain stands for, one binding per line; its value is stated by ChainExponentValue |
| Field.ChainRepresents | noble-ed25519-offline-simple.js:35-51 | the chain yields x^0x1d00000000000000000000000000000001d0000000180e80075 mod P |
| Field.ChainExponentValue | noble-ed25519-offline-simple.js:35-51 | the exponent built line by line is 0x1d00000000000000000000000000000001d0000000180e80075 |
| Field.Pow2252Minus3IsChainPower | noble-ed25519-offline-simple.js:33-52 | `pow_2_252_3(x)` = x^E mod P for the chain's exponent E |
| Field.ChainExponentIsNot2252Minus3 | noble-ed25519-offline-simple.js:33-52 | E ≡ 5 and 2^252 − 3 ≡ 13 (mod 16), so the function does not raise to 2^252 − 3 |
| SqrtRatio.Candidate | noble-ed25519-offline-simple.js:56-59 | the candidate x lies in [0, P) |
| SqrtRatio.CheckValue | noble-ed25519-offline-simple.js:60 | vx2 lies in [0, P) |
| SqrtRatio.UseRoot1 | noble-ed25519-offline-simple.js:63 | `vx2 === u` can hold only for u in [0, P) |
| SqrtRatio.UseRoot2 | noble-ed25519-offline-simple.js:64 | `vx2 === mod(-u)` implies v·x² ≡ −u (mod P) |
| SqrtRatio.NoRoot | noble-ed25519-offline-simple.js:65 | `vx2 === mod(-u * CURVE.Gx)` implies v·x² ≡ −u·Gx (mod P) |
| SqrtRatio.CubeAndSeventh | noble-ed25519-offline-simple.js:56-57 | v3 ≡ v^3 and v7 ≡ v^7 (mod P) |
| SqrtRatio.PowerOfProduct | noble-ed25519-offline-simple.js:58 | `pow` ≡ (u·v^7)^E (mod P) |
| SqrtRatio.CandidateRecipe | noble-ed25519-offline-simple.js:56-59 | x = u·v^3·(u·v^7)^E mod P, with E the chain's exponent |
| SqrtRatio.SqrtRatio3Mod4 | noble-ed25519-offline-simple.js:54-72 | 'Invalid point' exactly when vx2 differs from u, mod(−u) and mod(−u·Gx); otherwise an even value in [0, P) |
| SqrtRatio.NegatedOddIsEven | noble-ed25519-offline-simple.js:69-70 | negating an odd residue gives an even residue |
| SqrtRatio.NegationKeepsSquare | noble-ed25519-offline-simple.js:70 | the final negation does not change v·x² mod P |
| SqrtRatio.Root1IsSquareRoot | noble-ed25519-offline-simple.js:59-71 | when vx2 = u the call succeeds and v·r² ≡ u (mod P) |
| SqrtRatio.ScaledSquare | noble-ed25519-offline-simple.js:60-62 | scaling the candidate by c scales v·x² by c² (mod P) |
| SqrtRatio.Root2Square | noble-ed25519-offline-simple.js:62-71 | on the root2 branches v·r² ≡ vx2·Gx² (mod P) |
| SqrtRatio.GxIsNotSqrtMinusOne | noble-ed25519-offline-simple.js:62 | Gx² mod P ≠ P − 1, while sqrt(−1) squares to P − 1 |
| Points.Reduce | noble-ed25519-offline-simple.js:18-21 | reducing both coordinates gives a point in range that is congruent to the original |
| Points.PointAdd | noble-ed25519-offline-simple.js:75-88 | both output coordinates lie in [0, P) |
| Points.PointAddCommutes | noble-ed25519-offline-simple.js:75-88 | pointAdd(p, q) = pointAdd(q, p) |
| Points.IdentityRight | noble-ed25519-offline-simple.js:75-88 | pointAdd(p, (0,1)) = (p.x mod P, p.y mod P) |
| Points.IdentityLeft | noble-ed25519-offline-simple.js:75-88 | pointAdd((0,1), p) = (p.x mod P, p.y mod P) |
| Points.PointAddOfReduced | noble-ed25519-offline-simple.js:80-85 | only the residues of the first operand's coordinates matter |
| Points.LadderAfter | noble-ed25519-offline-simple.js:91-99 | after any number of rounds the `result` point is reduced, and after at least one round `current` is too |
| Points.ScalarMult | noble-ed25519-offline-simple.js:90-102 | the result of the 256 rounds is reduced |
| Points.PointMultiply | noble-ed25519-offline-simple.js:90-102 | the loop returns the result of the 256-round ladder taken from bit 0 upwards |
| Points.LadderFirstRound | noble-ed25519-offline-simple.js:94-99 | the first round adds the point into (0,1) if bit 0 is set and doubles it |
| Points.LadderResultStep | noble-ed25519-offline-simple.js:95-97 | round i adds `current` into `result` exactly when bit i is set |
| Points.ClearBitsKeepResult | noble-ed25519-offline-simple.js:95-97 | rounds whose bit is clear leave `result` unchanged |
| Points.LadderDependsOnLowBits | noble-ed25519-offline-simple.js:94-99 | after k rounds the state depends only on bits below k |
| Points.SameLowBitsSameProduct | noble-ed25519-offline-simple.js:90-102 | scalars agreeing on bits 0..255 give the same result |
| Points.ScalarMultModTwoPow256 | noble-ed25519-offline-simple.js:90-102 | the result depends only on the scalar mod 2^256 |
| Points.ZeroBitsGiveIdentity | noble-ed25519-offline-simple.js:90-102 | all of bits 0..255 clear gives (0, 1) |
| Points.LadderOnTwoBits | noble-ed25519-offline-simple.js:90-102 | a scalar with nothing set above bit 1 is finished after two rounds |
| Points.ScalarOne | noble-ed25519-offline-simple.js:90-102 | scalar 1 gives the point with its coordinates reduced |
| Points.ScalarTwo | noble-ed25519-offline-simple.js:90-102 | scalar 2 gives pointAdd(p, p) |
| Points.ScalarThree | noble-ed25519-offline-simple.js:90-102 | scalar 3 gives pointAdd(p, pointAdd(p, p)) |
| Points.SmallMultiplesOfG | noble-ed25519-offline-simple.js:90-102 | for G: 1 gives G, 2 gives pointAdd(G, G), 3 gives pointAdd(G, pointAdd(G, G)) |
| PublicKey.LittleEndian | noble-ed25519-offline-simple.js:114-117 | the sum Σ bytes[i]·256^i lies below 2^(8·length) |
| PublicKey.LittleEndianNextByte | noble-ed25519-offline-simple.js:116 | each round adds byte i shifted by 8·i |
| PublicKey.ClearBits252To254 | noble-ed25519-offline-simple.js:121 | `&= ~(7n << 252n)` zeroes bits 252–254 and keeps the bits below 252 and from 255 up |
| PublicKey.SetBit254 | noble-ed25519-offline-simple.js:122 | `\|= (1n << 254n)` sets bit 254 and keeps the bits below 254 and from 255 up |
| PublicKey.Clamp | noble-ed25519-offline-simple.js:120-122 | the clamped scalar is ((key mod n) mod 2^252) + 2^254, so it lies in [2^254, 2^255) |
| PublicKey.ClampLayout | noble-ed25519-offline-simple.js:120-122 | the clamped scalar is ((key mod n) mod 2^252) + 2^254: bit 254 set, bits 252, 253 and all bits from 255 up clear |
| PublicKey.ByteOf | noble-ed25519-offline-simple.js:133 | `(y >> 8i) & 255` is the byte of y between bits 8i and 8i + 7, (y mod 2^(8i+8)) div 2^(8i) |
| PublicKey.EncodeY | noble-ed25519-offline-simple.js:132-134 | 32 bytes, byte i being (y >> 8i) & 255 |
| Curve.ToInt32 | noble-ed25519-offline-simple.js:135 | ECMAScript's ToInt32 wraps an integer into [−2^31, 2^31) and keeps it modulo 2^32; it is the Number side of `<<` |
| Curve.ShiftLeft | noble-ed25519-offline-simple.js:135 | `a << b` throws a TypeError exactly when one operand is a BigInt and the other a Number; two BigInts shift exactly, two Numbers give a signed 32-bit result |
| PublicKey.OrTopBit | noble-ed25519-offline-simple.js:135 | the intended `\|=` of (x & 1) shifted by 7 sets the top bit of the byte when x is odd and keeps its low seven bits; as written line 135 throws before it |
| PublicKey.EncodePoint | noble-ed25519-offline-simple.js:128-135 | the intended encoding (line 135 read as `Number(x & 1n) << 7`), 32 bytes: bytes 0–30 are those of y, byte 31 keeps the low seven bits of y's byte 31 and its top bit is 1 when x is odd and y's bit 255 otherwise |
| PublicKey.EncodeYPrefix | noble-ed25519-offline-simple.js:132-134 | the first k bytes read little-endian give y mod 2^(8k) |
| PublicKey.LastByteOfSmall | noble-ed25519-offline-simple.js:133-135 | for y < 2^255 byte 31 is below 128, so the parity bit does not collide with y |
| PublicKey.EncodingWithoutParity | noble-ed25519-offline-simple.js:133-135 | clearing the top bit of byte 31 gives back the bytes of y |
| PublicKey.EncodeYRoundTrip | noble-ed25519-offline-simple.js:132-134 | the 32 bytes of y < 2^255 read little-endian are y |
| PublicKey.EncodeRoundTrip | noble-ed25519-offline-simple.js:128-137 | decoding the output gives back y and the parity of x |
| PublicKey.EncodingFromBytes | noble-ed25519-offline-simple.js:130-135 | the filled array with the parity OR-ed in is the encoding, and it decodes to y and x mod 2 |
| PublicKey.PublicPoint | noble-ed25519-offline-simple.js:113-125 | the multiplied point is reduced |
| PublicKey.ClampedPoint | noble-ed25519-offline-simple.js:113-125 | the decoding loop, the clamping and the multiplication give G times Clamp(LittleEndian(key)) |
| PublicKey.FillY | noble-ed25519-offline-simple.js:130-134 | the fill loop leaves a new 32-byte array holding EncodeY(y) |
| PublicKey.ParityShiftThrows | noble-ed25519-offline-simple.js:135 | `(x & 1n) << 7` (a BigInt shifted by a Number) throws a TypeError; `Number(x & 1n) << 7` gives 128·(x mod 2) |
| PublicKey.GetPublicKeyAsWritten | noble-ed25519-offline-simple.js:105-138 | always fails: 'Private key must be 32 bytes' when the key is not 32 bytes, the TypeError of line 135 otherwise |
| PublicKey.GetPublicKeyIntended | noble-ed25519-offline-simple.js:105-138 | with line 135 as intended: fails exactly when the key is not 32 bytes; otherwise returns the encoding of G times the clamped scalar, which decodes to its y and the parity of its x |

## Findings

| source | as written | input that shows it | evidently intended | confidence | as-written member | corrected member |
|---|---|---|---|---|---|---|
| noble-ed25519-offline-simple.js:135 | `Number((x & 1n) << 7)` shifts the BigInt `x & 1n` by the Number 7, which throws a TypeError | any 32-byte key, e.g. 32 zero bytes | `Number(x & 1n) << 7`, which sets the top bit of byte 31 when x is odd | high; not executed | PublicKey.GetPublicKeyAsWritten, PublicKey.ParityShiftThrows | PublicKey.GetPublicKeyIntended |

## Left out

- The `instanceof Uint8Array` check (line 106) is left out. The input is a `seq<Byte>`, which
  rules out anything else. Only the length check remains as an error result.
- The `export` statement (line 141) is module plumbing, so it is left out.
- `CURVE.a` and `CURVE.h` (lines 9 and 11) are never used, so they are left out. `CURVE.G`
  (line 14) is `Curve.G`, built from Gx and Gy.
- Associativity, inverses, curve membership, results of the form k·G in the true group, and RFC
  8032 test vectors are not stated. The addition formula is non-standard, so they do not hold
  for this code.
- `pow_2_252_3` raises x to E, not 2^252 − 3, so it is no inverse or square-root step, and the
  model proves no such property of it. `sqrt_ratio_3mod4` returns a square root of u/v on the
  root1 branch (`SqrtRatio.Root1IsSquareRoot`). On the root2 branches v·r² ≡ vx2·Gx²
  (`SqrtRatio.Root2Square`), which is u only by accident, because Gx is not sqrt(−1)
  (`SqrtRatio.GxIsNotSqrtMinusOne`); no square-root property is stated for those branches.
- Concrete outputs for particular keys are not evaluated. 256 rounds of 255-bit arithmetic are
  beyond what the verifier can compute.
- Timing and side-channel behaviour cannot be expressed in the model.
- Curve.ShiftLeft: a Number is modelled by its integer value only. Fractions, NaN and
  infinities never reach a shift in the source, so the model does not represent them.
- Curve.Mod: requires b ≠ 0. BigInt `%` throws a RangeError for a zero divisor, and every call
  in the source passes P or n.
- Field.Pow2252Minus3: it is a function, so it uses the specification function `Squarings` for
  each `pow2` call instead of calling the method `Field.Pow2`. `Field.Pow2`'s ensures clause
  proves the two agree.
- The error messages are constructors of `Curve.Error`. `InvalidInput` is 'Private key must be
  32 bytes', `InvalidPoint` is 'Invalid point' and `MixedBigIntNumber` is the TypeError of a
  BigInt mixed with a Number. The wording of the messages is not modelled.
