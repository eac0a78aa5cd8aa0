/** The source's affine `pointAdd` and the double-and-add `pointMultiply`.
    The addition multiplies by (1 ± d·x1·x2·y1·y2) where the Edwards law of
    section 5.1.4 of RFC 8032 divides by it, so it is not the group law; the
    model keeps the formula as written and proves only what it does. */
module Points {
  import opened Arith
  import opened Curve

  /** A point with both coordinates reduced into [0, P). */
  predicate Reduced(p: Point)
  {
    0 <= p.x < P && 0 <= p.y < P
  }

  /** The point with both coordinates put through `mod`. */
  function Reduce(p: Point): (r: Point)
    ensures Reduced(r)
    ensures r.x % P == p.x % P && r.y % P == p.y % P
  {
    ReducedIsItself(Mod(p.x, P));
    ReducedIsItself(Mod(p.y, P));
    Point(Mod(p.x, P), Mod(p.y, P))
  }

  /** The source's `pointAdd(p1, p2)`. */
  function PointAdd(p1: Point, p2: Point): (r: Point)
    ensures Reduced(r)
  {
    var x1y2 := Mod(p1.x * p2.y, P);
    var x2y1 := Mod(p2.x * p1.y, P);
    var dx1x2y1y2 := Mod(D * p1.x * p2.x * p1.y * p2.y, P);
    var x3 := Mod((x1y2 + x2y1) * Mod(1 + dx1x2y1y2, P), P);
    var y3 := Mod((p1.y * p2.y + p1.x * p2.x) * Mod(1 - dx1x2y1y2, P), P);
    Point(x3, y3)
  }

  /** The formula is symmetric in its two arguments. */
  lemma PointAddCommutes(p: Point, q: Point)
    ensures PointAdd(p, q) == PointAdd(q, p)
  {
    ProductRegroup(D, p.x, q.x, p.y, q.y);
    ProductRegroup(D, q.x, p.x, q.y, p.y);
    assert p.x * q.x == q.x * p.x && p.y * q.y == q.y * p.y;
  }

  lemma ProductRegroup(k: int, a: int, b: int, c: int, d: int)
    ensures k * a * b * c * d == (k * (a * b)) * (c * d)
  {
  }

  /** (0, 1) on the right reduces p and changes nothing else. */
  lemma IdentityRight(p: Point)
    ensures PointAdd(p, Identity) == Reduce(p)
  {
    var r := Mod(p.x, P);
    assert p.x * 1 == p.x && 0 * p.y == 0 && p.y * 1 + p.x * 0 == p.y;
    assert D * p.x * 0 * p.y * 1 == 0;
    assert Mod(0, P) == 0 && Mod(1 + 0, P) == 1 && Mod(1 - 0, P) == 1;
    assert (r + 0) * 1 == r && p.y * 1 == p.y;
    ReducedIsItself(r);
  }

  /** (0, 1) on the left does the same. */
  lemma IdentityLeft(p: Point)
    ensures PointAdd(Identity, p) == Reduce(p)
  {
    PointAddCommutes(Identity, p);
    IdentityRight(p);
  }

  /** Only the residues of the first operand's coordinates matter. */
  lemma PointAddOfReduced(p: Point, q: Point)
    ensures PointAdd(Reduce(p), q) == PointAdd(p, q)
  {
    var a, b := Reduce(p).x, Reduce(p).y;
    MulCongruent(a, q.y, p.x, q.y, P);
    MulCongruent(q.x, b, q.x, p.y, P);
    MulCongruent(D, a, D, p.x, P);
    MulCongruent(D * a, q.x, D * p.x, q.x, P);
    MulCongruent(D * a * q.x, b, D * p.x * q.x, p.y, P);
    MulCongruent(D * a * q.x * b, q.y, D * p.x * q.x * p.y, q.y, P);
    MulCongruent(b, q.y, p.y, q.y, P);
    MulCongruent(a, q.x, p.x, q.x, P);
    AddCongruent(b * q.y, a * q.x, p.y * q.y, p.x * q.x, P);
    var m := Mod(1 - Mod(D * p.x * q.x * p.y * q.y, P), P);
    MulCongruent(b * q.y + a * q.x, m, p.y * q.y + p.x * q.x, m, P);
  }

  /** The pair (`result`, `current`) of the source's `pointMultiply`. */
  datatype LadderState = LadderState(result: Point, current: Point)

  /** The ladder after its first i rounds: round i adds `current` into
      `result` when bit i of the scalar is set, and then doubles `current`.
      Bits are taken from the lowest up. */
  function LadderAfter(point: Point, scalar: int, i: nat): (st: LadderState)
    ensures Reduced(st.result)
    ensures i > 0 ==> Reduced(st.current)
  {
    if i == 0 then LadderState(Identity, point)
    else
      var prev := LadderAfter(point, scalar, i - 1);
      var result := if Bit(scalar, i - 1) == 1 then PointAdd(prev.result, prev.current)
                    else prev.result;
      LadderState(result, PointAdd(prev.current, prev.current))
  }

  /** The value `pointMultiply(point, scalar)` returns: the ladder after
      its 256 rounds. */
  function ScalarMult(point: Point, scalar: int): (r: Point)
    ensures Reduced(r)
  {
    LadderAfter(point, scalar, 256).result
  }

  /** The source's `pointMultiply(point, scalar)`. */
  method PointMultiply(point: Point, scalar: int) returns (result: Point)
    ensures result == ScalarMult(point, scalar)
    ensures Reduced(result)
  {
    result := Identity;
    var current := point;
    for i := 0 to 256
      invariant LadderState(result, current) == LadderAfter(point, scalar, i)
    {
      if Bit(scalar, i) == 1 {
        result := PointAdd(result, current);
      }
      current := PointAdd(current, current);
    }
  }

  /** Rounds whose bit is clear leave `result` alone. */
  lemma {:induction false} ClearBitsKeepResult(point: Point, scalar: int, i: nat, k: nat)
    requires i <= k
    requires forall j :: i <= j < k ==> Bit(scalar, j) == 0
    ensures LadderAfter(point, scalar, k).result == LadderAfter(point, scalar, i).result
  {
    if i < k {
      ClearBitsKeepResult(point, scalar, i, k - 1);
    }
  }

  /** The ladder after k rounds depends on the scalar only through its bits
      below k. */
  lemma {:induction false} LadderDependsOnLowBits(point: Point, s: int, t: int, k: nat)
    requires forall j :: 0 <= j < k ==> Bit(s, j) == Bit(t, j)
    ensures LadderAfter(point, s, k) == LadderAfter(point, t, k)
  {
    if k > 0 {
      LadderDependsOnLowBits(point, s, t, k - 1);
    }
  }

  /** Two scalars that agree on bits 0..255 give the same result. */
  lemma SameLowBitsSameProduct(point: Point, s: int, t: int)
    requires forall j :: 0 <= j < 256 ==> Bit(s, j) == Bit(t, j)
    ensures ScalarMult(point, s) == ScalarMult(point, t)
  {
    LadderDependsOnLowBits(point, s, t, 256);
  }

  /** Bits at and above 256 are ignored: the scalar counts only modulo 2^256. */
  lemma ScalarMultModTwoPow256(point: Point, scalar: int)
    ensures ScalarMult(point, scalar) == ScalarMult(point, scalar % TwoPow(256))
  {
    forall j | 0 <= j < 256
      ensures Bit(scalar, j) == Bit(scalar % TwoPow(256), j)
    {
      BitOfLowPart(scalar, 256, j);
    }
    SameLowBitsSameProduct(point, scalar, scalar % TwoPow(256));
  }

  /** A scalar whose bits 0..255 are all clear gives (0, 1). */
  lemma ZeroBitsGiveIdentity(point: Point, scalar: int)
    requires forall j :: 0 <= j < 256 ==> Bit(scalar, j) == 0
    ensures ScalarMult(point, scalar) == Identity
  {
    ClearBitsKeepResult(point, scalar, 0, 256);
  }

  /** The bits of the small scalars 1, 2 and 3. */
  lemma SmallScalarBits(j: nat)
    requires j >= 2
    ensures Bit(1, j) == 0 && Bit(2, j) == 0 && Bit(3, j) == 0
  {
    TwoPowMonotone(2, j);
    BitsAboveAreClear(1, 2, j);
    BitsAboveAreClear(2, 2, j);
    BitsAboveAreClear(3, 2, j);
  }

  /** The first round of the ladder. */
  lemma LadderFirstRound(point: Point, scalar: int)
    ensures LadderAfter(point, scalar, 1) ==
      LadderState(if Bit(scalar, 0) == 1 then PointAdd(Identity, point) else Identity,
                  PointAdd(point, point))
  {
  }

  /** How round i changes `result`. */
  lemma LadderResultStep(point: Point, scalar: int, i: nat)
    ensures var prev := LadderAfter(point, scalar, i);
      LadderAfter(point, scalar, i + 1).result ==
      if Bit(scalar, i) == 1 then PointAdd(prev.result, prev.current) else prev.result
  {
  }

  /** A scalar with no bit set above bit 1 is done after two rounds. */
  lemma LadderOnTwoBits(point: Point, scalar: int)
    requires forall j :: 2 <= j < 256 ==> Bit(scalar, j) == 0
    ensures var r1 := if Bit(scalar, 0) == 1 then PointAdd(Identity, point) else Identity;
      ScalarMult(point, scalar) ==
      if Bit(scalar, 1) == 1 then PointAdd(r1, PointAdd(point, point)) else r1
  {
    ClearBitsKeepResult(point, scalar, 2, 256);
    LadderFirstRound(point, scalar);
    LadderResultStep(point, scalar, 1);
  }

  /** Scalar 1 gives the point, reduced. */
  lemma ScalarOne(point: Point)
    ensures ScalarMult(point, 1) == Reduce(point)
  {
    forall j | 2 <= j < 256 ensures Bit(1, j) == 0 {
      SmallScalarBits(j);
    }
    assert Bit(1, 0) == 1 && Bit(1, 1) == 0;
    LadderOnTwoBits(point, 1);
    IdentityLeft(point);
  }

  /** Scalar 2 gives the point's doubling. */
  lemma ScalarTwo(point: Point)
    ensures ScalarMult(point, 2) == PointAdd(point, point)
  {
    forall j | 2 <= j < 256 ensures Bit(2, j) == 0 {
      SmallScalarBits(j);
    }
    assert Bit(2, 0) == 0 && Bit(2, 1) == 1;
    LadderOnTwoBits(point, 2);
    var d := PointAdd(point, point);
    IdentityLeft(d);
    ReducedIsItself(d.x);
    ReducedIsItself(d.y);
  }

  /** Scalar 3 gives the point added to its doubling. */
  lemma ScalarThree(point: Point)
    ensures ScalarMult(point, 3) == PointAdd(point, PointAdd(point, point))
  {
    forall j | 2 <= j < 256 ensures Bit(3, j) == 0 {
      SmallScalarBits(j);
    }
    assert Bit(3, 0) == 1 && Bit(3, 1) == 1;
    LadderOnTwoBits(point, 3);
    IdentityLeft(point);
    PointAddOfReduced(point, PointAdd(point, point));
  }

  /** For the base point: 1·G = G, 2·G = G + G and 3·G = G + (G + G). */
  lemma SmallMultiplesOfG()
    ensures ScalarMult(G, 1) == G
    ensures ScalarMult(G, 2) == PointAdd(G, G)
    ensures ScalarMult(G, 3) == PointAdd(G, PointAdd(G, G))
  {
    ScalarOne(G);
    ScalarTwo(G);
    ScalarThree(G);
    ConstantRanges();
    ReducedIsItself(Gx);
    ReducedIsItself(Gy);
  }
}
