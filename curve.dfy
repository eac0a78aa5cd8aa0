/** The fixed curve parameters, the affine point and result types, and the
    source's `mod` reduction. */
module Curve {
  import opened Arith

  /** The field prime P = 2^255 - 19. */
  const P: int := 0x7fffffffffffffffffffffffffffffffffffffffffffffffffffffffffffffed
  /** The group order, `CURVE.n`. */
  const N: int := 0x1000000000000000000000000000000014def9dea2f79cd65812631a5cf5d3ed
  /** The curve coefficient `CURVE.d`. */
  const D: int := 0x52036cee2b6ffe738cc740797779e89800700a4d4141d8ab75eb4dca135978a3
  /** The coordinates of the base point, `CURVE.Gx` and `CURVE.Gy`. */
  const Gx: int := 0x216936d3cd6e53fec0a4e231fdd6dc5c692cc7609525a7b2c9562d608f25d51a
  const Gy: int := 0x6666666666666666666666666666666666666666666666666666666666666658

  /** An affine pair `[x, y]` of BigInts. Nothing forces the coordinates
      into [0, P): the operations accept any integers, as the source does. */
  datatype Point = Point(x: int, y: int)

  /** The base point `CURVE.G`. */
  const G: Point := Point(Gx, Gy)

  /** The pair `[0n, 1n]` that the scalar multiplication starts from. */
  const Identity: Point := Point(0, 1)

  /** The exceptions the source throws. */
  datatype Error =
    | InvalidInput       // 'Private key must be 32 bytes'
    | InvalidPoint       // 'Invalid point'
    | MixedBigIntNumber  // TypeError: a BigInt and a Number in one operation

  datatype Result<T> = Ok(value: T) | Err(error: Error)

  function Abs(a: int): (r: nat)
  {
    if a < 0 then -a else a
  }

  /** BigInt `a % b`: truncating division, so the remainder takes the sign of
      the dividend and its magnitude is |a| mod |b|. */
  function TruncatedRemainder(a: int, b: int): (r: int)
    requires b != 0
    ensures Abs(r) < Abs(b)
    ensures a >= 0 ==> r >= 0
    ensures a <= 0 ==> r <= 0
  {
    if a >= 0 then a % Abs(b) else -((-a) % Abs(b))
  }

  /** For a negative dividend and a positive divisor, the truncating remainder
      is the Euclidean one shifted down by b, unless it is zero. */
  lemma NegativeRemainder(a: int, b: int)
    requires a < 0 && b > 0
    ensures var t := TruncatedRemainder(a, b);
      if t >= 0 then t == a % b else b + t == a % b
  {
    var q, r := (-a) / b, (-a) % b;
    assert -a == q * b + r;
    if r == 0 {
      DivModUnique(a, b, -q, 0);
    } else {
      DivModUnique(a, b, -q - 1, b - r);
    }
  }

  /** The source's `mod(a, b)`: the truncating remainder, moved into [0, b)
      by adding b when it is negative. For a positive modulus this is the
      Euclidean `a % b`, negative a included. */
  function Mod(a: int, b: int): (r: int)
    requires b != 0
    ensures b > 0 ==> 0 <= r < b
    ensures b > 0 ==> r == a % b
  {
    var t := TruncatedRemainder(a, b);
    var r := if t >= 0 then t else b + t;
    // the proof that r is the Euclidean remainder when a is negative
    if a < 0 && b > 0 then NegativeRemainder(a, b); r else r
  }

  /** The two numeric types of JavaScript. A Number is modelled by its
      integer value only. */
  datatype Numeric = BigInt(big: int) | Number(num: int)

  /** ECMAScript's ToInt32 on an integer: the value wrapped into the signed
      32-bit range. */
  function ToInt32(a: int): (r: int)
    ensures -0x8000_0000 <= r < 0x8000_0000
    ensures (r - a) % 0x1_0000_0000 == 0
  {
    var m := a % 0x1_0000_0000;
    if m >= 0x8000_0000 then m - 0x1_0000_0000 else m
  }

  /** JavaScript's `a << b`. Two BigInts shift exactly (a negative count
      shifts right, rounding down); two Numbers shift ToInt32(a) by b mod 32
      and wrap to 32 bits; a BigInt and a Number together throw a
      TypeError. */
  function ShiftLeft(a: Numeric, b: Numeric): (r: Result<Numeric>)
    ensures r.Err? <==> a.BigInt? != b.BigInt?
    ensures r.Err? ==> r.error == MixedBigIntNumber
    ensures r.Ok? && a.BigInt? && b.big >= 0 ==> r == Ok(BigInt(a.big * TwoPow(b.big)))
    ensures r.Ok? && a.Number? ==> r.value.Number? && -0x8000_0000 <= r.value.num < 0x8000_0000
  {
    match (a, b)
    case (BigInt(x), BigInt(k)) =>
      Ok(BigInt(if k >= 0 then x * TwoPow(k) else x / TwoPow(-k)))
    case (Number(x), Number(k)) => Ok(Number(ToInt32(ToInt32(x) * TwoPow(k % 32))))
    case _ => Err(MixedBigIntNumber)
  }

  /** A value already in [0, P) is its own residue. */
  lemma ReducedIsItself(r: int)
    requires 0 <= r < P
    ensures r % P == r
  {
    DivModUnique(r, P, 0, r);
  }

  /** The powers of two the curve constants are measured against. */
  lemma PowersOfTwo()
    ensures TwoPow(8) == 256
    ensures TwoPow(252) == 0x1000000000000000000000000000000000000000000000000000000000000000
    ensures TwoPow(253) == 2 * TwoPow(252) && TwoPow(254) == 4 * TwoPow(252)
    ensures TwoPow(255) == 8 * TwoPow(252) && TwoPow(256) == 16 * TwoPow(252)
  {
    assert TwoPow(8) == 256;
    TwoPowAdd(8, 8);
    assert TwoPow(16) == 0x1_0000;
    TwoPowAdd(16, 16);
    assert TwoPow(32) == 0x1_0000_0000;
    TwoPowAdd(32, 32);
    assert TwoPow(64) == 0x1_0000_0000_0000_0000;
    TwoPowAdd(64, 64);
    assert TwoPow(128) == 0x1_0000_0000_0000_0000_0000_0000_0000_0000;
    TwoPowAdd(128, 128);
    assert TwoPow(256) == 0x1_0000_0000_0000_0000_0000_0000_0000_0000_0000_0000_0000_0000_0000_0000_0000_0000;
    TwoPowAdd(252, 4);
    TwoPowAdd(252, 1);
    TwoPowAdd(252, 2);
    TwoPowAdd(252, 3);
    assert TwoPow(4) == 16;
  }

  /** The constants against powers of two, and their ranges. */
  lemma ConstantRanges()
    ensures P == TwoPow(255) - 19
    ensures TwoPow(252) < N < TwoPow(253)
    ensures 0 <= D < P && 0 <= Gx < P && 0 <= Gy < P
  {
    PowersOfTwo();
  }
}
