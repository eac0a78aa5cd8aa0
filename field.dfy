/** Field arithmetic modulo P: the source's `pow2` (repeated squaring) and
    the fixed addition chain `pow_2_252_3`. */
module Field {
  import opened Arith
  import opened Curve

  /** The value of `res` in the source's `pow2` after k rounds of
      `res = mod(res * res)`, starting from x. */
  function Squarings(x: int, k: nat): (r: int)
    ensures k > 0 ==> 0 <= r < P
  {
    if k == 0 then x
    else
      var s := Squarings(x, k - 1);
      Mod(s * s, P)
  }

  /** The source's `pow2(x, power)`: squares x modulo P `power` times. When
      power is positive the result is x^(2^power) reduced into [0, P); when it
      is not, the loop does not run and x comes back unreduced. */
  method Pow2(x: int, power: int) returns (res: int)
    ensures power <= 0 ==> res == x
    ensures power > 0 ==> 0 <= res < P && res == Pow(x, TwoPow(power)) % P
    ensures res == Squarings(x, if power > 0 then power else 0)
  {
    res := x;
    var remaining := power;
    ghost var done: nat := 0;
    while remaining > 0
      invariant if power > 0 then 0 <= remaining && done == power - remaining
                else remaining == power && done == 0
      invariant res == Squarings(x, done)
    {
      res := Mod(res * res, P);
      remaining := remaining - 1;
      done := done + 1;
    }
    if power > 0 {
      SquaringsArePowers(x, power);
    }
  }

  /** v stands for x^e in the field: the two agree modulo P. */
  ghost predicate Represents(v: int, x: int, e: nat)
  {
    v % P == Pow(x, e) % P
  }

  /** Multiplying two representatives adds their exponents. */
  lemma RepresentsProduct(a: int, b: int, x: int, ea: nat, eb: nat)
    requires Represents(a, x, ea) && Represents(b, x, eb)
    ensures Represents(Mod(a * b, P), x, ea + eb)
  {
    ReducedIsItself(Mod(a * b, P));
    MulMod(a, b, P);
    MulMod(Pow(x, ea), Pow(x, eb), P);
    PowAdd(x, ea, eb);
  }

  /** The exponent after k squarings of a value that stands for x^e. */
  ghost function SquaredExponent(e: nat, k: nat): (r: nat)
  {
    e * TwoPow(k)
  }

  /** One more squaring doubles the exponent. */
  lemma SquaredExponentStep(e: nat, k: nat)
    requires k > 0
    ensures SquaredExponent(e, k) == SquaredExponent(e, k - 1) + SquaredExponent(e, k - 1)
  {
    assert TwoPow(k) == 2 * TwoPow(k - 1);
  }

  /** k squarings multiply the exponent by 2^k. */
  lemma {:induction false} RepresentsSquarings(a: int, x: int, e: nat, k: nat)
    requires Represents(a, x, e)
    ensures Represents(Squarings(a, k), x, SquaredExponent(e, k))
  {
    if k > 0 {
      RepresentsSquarings(a, x, e, k - 1);
      var s, f := Squarings(a, k - 1), SquaredExponent(e, k - 1);
      RepresentsProduct(s, s, x, f, f);
      SquaredExponentStep(e, k);
    }
  }

  /** After k > 0 squarings the source's pow2 holds x^(2^k) mod P. */
  lemma SquaringsArePowers(x: int, k: nat)
    requires k > 0
    ensures Squarings(x, k) == Pow(x, TwoPow(k)) % P
  {
    assert Pow(x, 1) == x;
    RepresentsSquarings(x, x, 1, k);
    ReducedIsItself(Squarings(x, k));
  }

  /** The exponent that the chain in `pow_2_252_3` actually builds, one
      binding per line of the chain. The step for `x6` squares x^3 three
      times, which gives x^24 and not x^6, and every later step inherits
      that; so this is not 2^252 - 3 (see ChainExponentIsNot2252Minus3). */
  ghost function ChainExponent(): (e: nat)
  {
    var e2 := 2;
    var e3 := e2 + 1;
    var e6 := SquaredExponent(e3, 3);    // 24
    var e9 := e6 + e3;           // 27
    var e11 := e9 + e2;          // 29
    var e22 := SquaredExponent(e11, 11);
    var e44 := SquaredExponent(e22, 22);
    var e88 := SquaredExponent(e44, 44);
    var e176 := SquaredExponent(e88, 88);
    var e220 := e176 + e44;
    var e223 := e220 + e3;
    var t1 := SquaredExponent(e223, 23);
    var t2 := t1 + e22;
    var t3 := SquaredExponent(t2, 6);
    var t4 := t3 + e11;
    var t5 := SquaredExponent(t4, 2);
    t5 + 1
  }

  /** The source's `pow_2_252_3(x)`, binding for binding. */
  function Pow2252Minus3(x: int): (r: int)
    ensures 0 <= r < P
  {
    var x2 := Mod(x * x, P);
    var x3 := Mod(x2 * x, P);
    var x6 := Squarings(x3, 3);
    var x9 := Mod(x6 * x3, P);
    var x11 := Mod(x9 * x2, P);
    var x22 := Squarings(x11, 11);
    var x44 := Squarings(x22, 22);
    var x88 := Squarings(x44, 44);
    var x176 := Squarings(x88, 88);
    var x220 := Mod(x176 * x44, P);
    var x223 := Mod(x220 * x3, P);
    var t1 := Squarings(x223, 23);
    var t2 := Mod(t1 * x22, P);
    var t3 := Squarings(t2, 6);
    var t4 := Mod(t3 * x11, P);
    var t5 := Squarings(t4, 2);
    Mod(t5 * x, P)
  }

  /** Lines 35-39: x2, x3 and x11 stand for x^2, x^3 and x^29; x6 stands
      for x^24, not the x^6 its name suggests. */
  lemma ChainHead(x: int, x2: int, x3: int, x6: int, x11: int)
    requires x2 == Mod(x * x, P) && x3 == Mod(x2 * x, P)
    requires x6 == Squarings(x3, 3) && x11 == Mod(Mod(x6 * x3, P) * x2, P)
    ensures Represents(x2, x, 2) && Represents(x3, x, 3)
    ensures Represents(x6, x, 24) && Represents(x11, x, 29)
  {
    assert Pow(x, 1) == x;
    RepresentsProduct(x, x, x, 1, 1);
    RepresentsProduct(x2, x, x, 2, 1);
    RepresentsSquarings(x3, x, 3, 3);
    assert SquaredExponent(3, 3) == 24;
    RepresentsProduct(x6, x3, x, 24, 3);
    RepresentsProduct(Mod(x6 * x3, P), x2, x, 27, 2);
  }

  /** Lines 40-43: four runs of squarings starting from x11. */
  lemma ChainMiddle(x: int, x11: int, x22: int, x44: int, x176: int,
                    e11: nat, e22: nat, e44: nat, e176: nat)
    requires x22 == Squarings(x11, 11) && x44 == Squarings(x22, 22)
    requires x176 == Squarings(Squarings(x44, 44), 88)
    requires e22 == SquaredExponent(e11, 11) && e44 == SquaredExponent(e22, 22)
    requires e176 == SquaredExponent(SquaredExponent(e44, 44), 88)
    requires Represents(x11, x, e11)
    ensures Represents(x22, x, e22) && Represents(x44, x, e44) && Represents(x176, x, e176)
  {
    RepresentsSquarings(x11, x, e11, 11);
    RepresentsSquarings(x22, x, e22, 22);
    RepresentsSquarings(x44, x, e44, 44);
    RepresentsSquarings(Squarings(x44, 44), x, SquaredExponent(e44, 44), 88);
  }

  /** Lines 44-47: x220, x223, t1 and t2. */
  lemma ChainLateProducts(x: int, x3: int, x22: int, x44: int, x176: int, t2: int,
                          e22: nat, e44: nat, e176: nat)
    requires Represents(x3, x, 3) && Represents(x22, x, e22)
    requires Represents(x44, x, e44) && Represents(x176, x, e176)
    requires t2 == Mod(Squarings(Mod(Mod(x176 * x44, P) * x3, P), 23) * x22, P)
    ensures Represents(t2, x, SquaredExponent(e176 + e44 + 3, 23) + e22)
  {
    var x220 := Mod(x176 * x44, P);
    RepresentsProduct(x176, x44, x, e176, e44);
    var x223 := Mod(x220 * x3, P);
    RepresentsProduct(x220, x3, x, e176 + e44, 3);
    RepresentsSquarings(x223, x, e176 + e44 + 3, 23);
    RepresentsProduct(Squarings(x223, 23), x22, x, SquaredExponent(e176 + e44 + 3, 23), e22);
  }

  /** Lines 48-51: t3, t4, t5 and the final product with x. */
  lemma ChainLastSteps(x: int, x11: int, t2: int, r: int, e11: nat, f2: nat)
    requires Represents(x11, x, e11) && Represents(t2, x, f2)
    requires r == Mod(Squarings(Mod(Squarings(t2, 6) * x11, P), 2) * x, P)
    ensures r == Pow(x, SquaredExponent(SquaredExponent(f2, 6) + e11, 2) + 1) % P
  {
    assert Pow(x, 1) == x;
    var t3 := Squarings(t2, 6);
    RepresentsSquarings(t2, x, f2, 6);
    var f3 := SquaredExponent(f2, 6);
    var t4 := Mod(t3 * x11, P);
    RepresentsProduct(t3, x11, x, f3, e11);
    var t5 := Squarings(t4, 2);
    RepresentsSquarings(t4, x, f3 + e11, 2);
    RepresentsProduct(t5, x, x, SquaredExponent(f3 + e11, 2), 1);
    ReducedIsItself(r);
  }

  /** Lines 44-51: the products and squarings that finish the chain. */
  lemma ChainTail(x: int, x3: int, x11: int, x22: int, x44: int, x176: int, r: int,
                  e11: nat, e22: nat, e44: nat, e176: nat, e: nat)
    requires Represents(x3, x, 3) && Represents(x11, x, e11) && Represents(x22, x, e22)
    requires Represents(x44, x, e44) && Represents(x176, x, e176)
    requires var x223 := Mod(Mod(x176 * x44, P) * x3, P);
             var t2 := Mod(Squarings(x223, 23) * x22, P);
             var t4 := Mod(Squarings(t2, 6) * x11, P);
             r == Mod(Squarings(t4, 2) * x, P)
    requires var f2 := SquaredExponent(e176 + e44 + 3, 23) + e22;
             e == SquaredExponent(SquaredExponent(f2, 6) + e11, 2) + 1
    ensures r == Pow(x, e) % P
  {
    var t2 := Mod(Squarings(Mod(Mod(x176 * x44, P) * x3, P), 23) * x22, P);
    ChainLateProducts(x, x3, x22, x44, x176, t2, e22, e44, e176);
    ChainLastSteps(x, x11, t2, r, e11, SquaredExponent(e176 + e44 + 3, 23) + e22);
  }

  /** The powers of two that the chain squares by. */
  lemma ChainShifts()
    ensures TwoPow(2) == 4 && TwoPow(3) == 8 && TwoPow(6) == 64
    ensures TwoPow(11) == 0x800 && TwoPow(22) == 0x40_0000 && TwoPow(23) == 0x80_0000
    ensures TwoPow(44) == 0x1000_0000_0000
    ensures TwoPow(88) == 0x100_0000_0000_0000_0000_0000
  {
    assert TwoPow(11) == 0x800;
    TwoPowAdd(11, 11);
    TwoPowAdd(22, 1);
    TwoPowAdd(22, 22);
    TwoPowAdd(44, 44);
  }

  /** The chain's exponent as a number: about 2^200, where 2^252 - 3 would
      be needed for a square root or an inverse. */
  lemma ChainExponentValue()
    ensures ChainExponent() == 0x1d00000000000000000000000000000001d0000000180e80075
  {
    ChainShifts();
  }

  /** The whole chain, over values given as parameters. */
  lemma ChainRepresents(x: int, x2: int, x3: int, x6: int, x11: int, x22: int,
                        x44: int, x176: int, r: int)
    requires x2 == Mod(x * x, P) && x3 == Mod(x2 * x, P)
    requires x6 == Squarings(x3, 3) && x11 == Mod(Mod(x6 * x3, P) * x2, P)
    requires x22 == Squarings(x11, 11) && x44 == Squarings(x22, 22)
    requires x176 == Squarings(Squarings(x44, 44), 88)
    requires var x223 := Mod(Mod(x176 * x44, P) * x3, P);
             var t2 := Mod(Squarings(x223, 23) * x22, P);
             var t4 := Mod(Squarings(t2, 6) * x11, P);
             r == Mod(Squarings(t4, 2) * x, P)
    ensures r == Pow(x, 0x1d00000000000000000000000000000001d0000000180e80075) % P
  {
    ChainShifts();
    ChainHead(x, x2, x3, x6, x11);
    ChainMiddle(x, x11, x22, x44, x176, 29, 0xe800, 0x3a00000000,
                0x3a00000000000000000000000000000000000000000);
    ChainTail(x, x3, x11, x22, x44, x176, r, 29, 0xe800, 0x3a00000000,
              0x3a00000000000000000000000000000000000000000,
              0x1d00000000000000000000000000000001d0000000180e80075);
  }

  /** `pow_2_252_3(x)` is x raised to the chain's exponent, reduced mod P. */
  lemma Pow2252Minus3IsChainPower(x: int)
    ensures Pow2252Minus3(x) == Pow(x, ChainExponent()) % P
  {
    var x2 := Mod(x * x, P);
    var x3 := Mod(x2 * x, P);
    var x6 := Squarings(x3, 3);
    var x11 := Mod(Mod(x6 * x3, P) * x2, P);
    var x22 := Squarings(x11, 11);
    var x44 := Squarings(x22, 22);
    var x176 := Squarings(Squarings(x44, 44), 88);
    var x223 := Mod(Mod(x176 * x44, P) * x3, P);
    var t2 := Mod(Squarings(x223, 23) * x22, P);
    var t4 := Mod(Squarings(t2, 6) * x11, P);
    var r := Mod(Squarings(t4, 2) * x, P);
    assert Pow2252Minus3(x) == r;
    ChainRepresents(x, x2, x3, x6, x11, x22, x44, x176, r);
    ChainExponentValue();
  }

  /** The chain's exponent is 5 modulo 16 while 2^252 - 3 is 13 modulo 16,
      so the function named after 2^252 - 3 raises to another power. */
  lemma ChainExponentIsNot2252Minus3()
    ensures ChainExponent() % 16 == 5
    ensures (TwoPow(252) - 3) % 16 == 13
    ensures ChainExponent() != TwoPow(252) - 3
  {
    ChainExponentValue();
    PowersOfTwo();
  }
}
