/** The source's `sqrt_ratio_3mod4(u, v)`: the candidate u·v³·(u·v⁷)^E of the
    square-root recipe of section 5.1.3 of RFC 8032, its three-way check, and
    the final choice of the even root. E is the exponent the chain of
    `pow_2_252_3` builds (Field.ChainExponent), and the adjustment constant is
    `CURVE.Gx`, not sqrt(-1). */
module SqrtRatio {
  import opened Arith
  import opened Curve
  import opened Field

  /** sqrt(-1) modulo P, the constant section 5.1.3 of RFC 8032 multiplies
      by; the source does not use it. */
  const SqrtMinusOne: int := 0x2b8324804fc1df0b2b4d00993dfbd7a72f431806ad2fe478c4ee1b274a0ea0b0

  /** Lines 56-59: the first candidate `x`. */
  function Candidate(u: int, v: int): (x: int)
    ensures 0 <= x < P
  {
    var v3 := Mod(v * v * v, P);
    var v7 := Mod(v3 * v3 * v, P);
    var pow := Pow2252Minus3(u * v7);
    Mod(u * v3 * pow, P)
  }

  /** Line 60: `vx2`, v times the square of the candidate. */
  function CheckValue(u: int, v: int): (vx2: int)
    ensures 0 <= vx2 < P
  {
    var x := Candidate(u, v);
    Mod(v * x * x, P)
  }

  /** Lines 63-65: the three comparisons. `u` is compared as given, so a u
      outside [0, P) never matches the first test. */
  predicate UseRoot1(u: int, v: int)
    ensures UseRoot1(u, v) ==> 0 <= u < P
  {
    CheckValue(u, v) == u
  }

  /** `vx2 === mod(-u)`: v·x² ≡ −u (mod P). */
  predicate UseRoot2(u: int, v: int)
    ensures UseRoot2(u, v) ==> (CheckValue(u, v) + u) % P == 0
  {
    NegationCancels(u);
    CheckValue(u, v) == Mod(-u, P)
  }

  /** `vx2 === mod(-u * CURVE.Gx)`: v·x² ≡ −u·Gx (mod P). */
  predicate NoRoot(u: int, v: int)
    ensures NoRoot(u, v) ==> (CheckValue(u, v) + u * Gx) % P == 0
  {
    NegationCancels(u * Gx);
    CheckValue(u, v) == Mod(-u * Gx, P)
  }

  /** The residue of −a, added back to a, is a multiple of P. */
  lemma NegationCancels(a: int)
    ensures (Mod(-a, P) + a) % P == 0
  {
    var q := (-a) / P;
    var n := Mod(-a, P);
    assert -a == q * P + n;
    assert n + a == (-q) * P;
    ModAddMultiple(-q, 0, P);
  }

  /** The source's `sqrt_ratio_3mod4(u, v)`. It throws 'Invalid point' when
      none of the three comparisons holds; otherwise it picks root1 when the
      first one holds and root2 (the candidate times Gx) when either of the
      other two does, the "noRoot" case included, and finally negates an odd
      choice. */
  function SqrtRatio3Mod4(u: int, v: int): (r: Result<int>)
    ensures r.Err? <==> !UseRoot1(u, v) && !UseRoot2(u, v) && !NoRoot(u, v)
    ensures r.Err? ==> r.error == InvalidPoint
    ensures r.Ok? ==> 0 <= r.value < P && r.value % 2 == 0
  {
    var x := Candidate(u, v);
    var root1 := x;
    var root2 := Mod(x * Gx, P);
    if UseRoot1(u, v) || UseRoot2(u, v) || NoRoot(u, v) then
      var chosen := if UseRoot1(u, v) then root1 else root2;
      var isNegative := chosen % 2 == 1;
      if isNegative then NegatedOddIsEven(chosen); Ok(Mod(-chosen, P)) else Ok(chosen)
    else
      Err(InvalidPoint)
  }

  /** P is odd, so P - c is even for odd c. */
  lemma NegatedOddIsEven(c: int)
    requires 0 <= c < P && c % 2 == 1
    ensures 0 <= Mod(-c, P) < P && Mod(-c, P) % 2 == 0
  {
    DivModUnique(-c, P, -1, P - c);
  }

  lemma CubeIsPow(v: int)
    ensures v * v * v == Pow(v, 3)
  {
    assert Pow(v, 1) == v;
    assert Pow(v, 2) == v * v;
  }

  /** Lines 56-57: v3 and v7 stand for v^3 and v^7. */
  lemma CubeAndSeventh(v: int, v3: int, v7: int)
    requires v3 == Mod(v * v * v, P) && v7 == Mod(v3 * v3 * v, P)
    ensures v3 % P == Pow(v, 3) % P && v7 % P == Pow(v, 7) % P
  {
    CubeIsPow(v);
    ReducedIsItself(v3);
    MulCongruent(v3, v3, Pow(v, 3), Pow(v, 3), P);
    MulCongruent(v3 * v3, v, Pow(v, 3) * Pow(v, 3), v, P);
    PowAdd(v, 3, 3);
    PowAdd(v, 6, 1);
    assert Pow(v, 1) == v;
    ReducedIsItself(v7);
  }

  /** Line 58: `pow` stands for (u·v⁷)^E. */
  lemma PowerOfProduct(u: int, v: int, v7: int)
    requires v7 % P == Pow(v, 7) % P
    ensures Pow2252Minus3(u * v7) % P == Pow(u * Pow(v, 7), ChainExponent()) % P
  {
    var w, ww := u * v7, u * Pow(v, 7);
    MulCongruent(u, v7, u, Pow(v, 7), P);
    var e := ChainExponent();
    Pow2252Minus3IsChainPower(w);
    PowModBase(w, e, P);
    PowModBase(ww, e, P);
    ReducedIsItself(Pow2252Minus3(w));
  }

  /** The candidate follows the recipe u·v³·(u·v⁷)^E modulo P, with E the
      chain's exponent. */
  lemma CandidateRecipe(u: int, v: int)
    ensures Candidate(u, v) == (u * Pow(v, 3) * Pow(u * Pow(v, 7), ChainExponent())) % P
  {
    var v3 := Mod(v * v * v, P);
    var v7 := Mod(v3 * v3 * v, P);
    CubeAndSeventh(v, v3, v7);
    var pow := Pow2252Minus3(u * v7);
    PowerOfProduct(u, v, v7);
    MulCongruent(u, v3, u, Pow(v, 3), P);
    MulCongruent(u * v3, pow, u * Pow(v, 3), Pow(u * Pow(v, 7), ChainExponent()), P);
  }

  /** Negating modulo P does not change the square. */
  lemma NegationKeepsSquare(v: int, x: int, n: int)
    requires n == (-x) % P
    ensures (v * n * n) % P == (v * x * x) % P
  {
    ModOfMod(-x, P);
    MulCongruent(v, n, v, -x, P);
    MulCongruent(v * n, n, v * -x, -x, P);
    assert v * -x * -x == v * x * x;
  }

  /** When the first comparison holds, the result r is a square root of u/v:
      v·r² ≡ u (mod P). */
  lemma Root1IsSquareRoot(u: int, v: int)
    requires UseRoot1(u, v)
    ensures SqrtRatio3Mod4(u, v).Ok?
    ensures var r := SqrtRatio3Mod4(u, v).value; (v * r * r) % P == u
  {
    var x := Candidate(u, v);
    var r := SqrtRatio3Mod4(u, v).value;
    assert r == x || r == Mod(-x, P);
    NegationKeepsSquare(v, x, Mod(-x, P));
    assert (v * x * x) % P == u;
  }

  lemma SquareOfScaled(v: int, x: int, c: int)
    ensures v * (x * c) * (x * c) == (v * x * x) * (c * c)
  {
  }

  /** Scaling x by c scales v·x² by c². */
  lemma ScaledSquare(v: int, x: int, c: int, vx2: int, y: int)
    requires vx2 == (v * x * x) % P && y == (x * c) % P
    ensures (v * y * y) % P == (vx2 * c * c) % P
  {
    var xc, vx, cc := x * c, v * x * x, c * c;
    ModOfMod(xc, P);
    MulCongruent(v, y, v, xc, P);
    MulCongruent(v * y, y, v * xc, xc, P);
    SquareOfScaled(v, x, c);
    ModOfMod(vx, P);
    MulCongruent(vx, cc, vx2, cc, P);
    assert vx2 * c * c == vx2 * cc;
  }

  /** Otherwise the result is ± root2 = x·Gx, so v·r² ≡ vx2·Gx² (mod P). On
      the useRoot2 branch vx2 ≡ -u, so r is a square root of u/v only if
      Gx² ≡ -1, which it is not (GxIsNotSqrtMinusOne); on the noRoot branch
      vx2 ≡ -u·Gx, so v·r² ≡ -u·Gx³, a square root only if -Gx³ ≡ 1. */
  lemma Root2Square(u: int, v: int)
    requires SqrtRatio3Mod4(u, v).Ok? && !UseRoot1(u, v)
    ensures var r := SqrtRatio3Mod4(u, v).value;
      (v * r * r) % P == (CheckValue(u, v) * Gx * Gx) % P
  {
    var x := Candidate(u, v);
    var root2 := Mod(x * Gx, P);
    var r := SqrtRatio3Mod4(u, v).value;
    assert r == root2 || r == Mod(-root2, P);
    NegationKeepsSquare(v, root2, Mod(-root2, P));
    ScaledSquare(v, x, Gx, CheckValue(u, v), root2);
  }

  /** SqrtMinusOne squares to -1 modulo P; Gx, which the source uses in its
      place, does not. */
  lemma GxIsNotSqrtMinusOne()
    ensures (SqrtMinusOne * SqrtMinusOne) % P == P - 1
    ensures (Gx * Gx) % P != P - 1
  {
  }
}
