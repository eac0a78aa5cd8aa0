/** Exact integer facts the model needs: powers, powers of two, bit tests and
    Euclidean division. Dafny's `/` and `%` on `int` are Euclidean, which for a
    positive divisor is floor division; that is what makes `(s / TwoPow(i)) % 2`
    agree with the two's-complement bit tests of JavaScript BigInt, negative
    numbers included. */
module Arith {

  /** 2^k: the value of the BigInt expression `1n << k`. */
  function TwoPow(k: nat): (r: nat)
    ensures r >= 1
  {
    if k == 0 then 1 else 2 * TwoPow(k - 1)
  }

  /** x^e over the integers. */
  function Pow(x: int, e: nat): (r: int)
  {
    if e == 0 then 1 else x * Pow(x, e - 1)
  }

  /** Bit i of s in two's complement: whether `s & (1n << i)` is non-zero. */
  function Bit(s: int, i: nat): (b: int)
    ensures b == 0 || b == 1
  {
    (s / TwoPow(i)) % 2
  }

  lemma {:induction false} TwoPowAdd(a: nat, b: nat)
    ensures TwoPow(a + b) == TwoPow(a) * TwoPow(b)
  {
    if a > 0 {
      TwoPowAdd(a - 1, b);
      assert TwoPow(a + b) == 2 * TwoPow(a - 1 + b);
    }
  }

  lemma {:induction false} TwoPowMonotone(a: nat, b: nat)
    requires a <= b
    ensures TwoPow(a) <= TwoPow(b)
  {
    if a < b {
      TwoPowMonotone(a, b - 1);
    }
  }

  lemma {:induction false} PowAdd(x: int, a: nat, b: nat)
    ensures Pow(x, a + b) == Pow(x, a) * Pow(x, b)
  {
    if a > 0 {
      PowAdd(x, a - 1, b);
      calc {
        Pow(x, a + b);
        x * Pow(x, a - 1 + b);
        x * (Pow(x, a - 1) * Pow(x, b));
        (x * Pow(x, a - 1)) * Pow(x, b);
      }
    }
  }

  /** Euclidean division is determined by its defining equation. */
  lemma DivModUnique(a: int, m: int, q: int, r: int)
    requires m > 0 && 0 <= r < m && a == q * m + r
    ensures a / m == q && a % m == r
  {
    var q0, r0 := a / m, a % m;
    assert a == q0 * m + r0;
    assert (q - q0) * m == r0 - r;
    if q - q0 >= 1 {
      assert false;
    } else if q - q0 <= -1 {
      assert false;
    }
  }

  lemma ModAddMultiple(k: int, a: int, m: int)
    requires m > 0
    ensures (k * m + a) % m == a % m
    ensures (k * m + a) / m == k + a / m
  {
    DivModUnique(k * m + a, m, k + a / m, a % m);
  }

  lemma MulMod(a: int, b: int, m: int)
    requires m > 0
    ensures (a * b) % m == ((a % m) * (b % m)) % m
  {
    var qa, ra := a / m, a % m;
    var qb, rb := b / m, b % m;
    calc {
      a * b;
      (qa * m + ra) * (qb * m + rb);
      (qa * qb * m + qa * rb + ra * qb) * m + ra * rb;
    }
    ModAddMultiple(qa * qb * m + qa * rb + ra * qb, ra * rb, m);
  }

  lemma AddMod(a: int, b: int, m: int)
    requires m > 0
    ensures (a + b) % m == ((a % m) + (b % m)) % m
  {
    ModAddMultiple(a / m + b / m, a % m + b % m, m);
  }

  lemma ModOfMod(a: int, m: int)
    requires m > 0
    ensures (a % m) % m == a % m
  {
    DivModUnique(a % m, m, 0, a % m);
  }

  lemma {:induction false} PowModBase(x: int, e: nat, m: int)
    requires m > 0
    ensures Pow(x % m, e) % m == Pow(x, e) % m
  {
    if e > 0 {
      var r := x % m;
      var pr, px := Pow(r, e - 1), Pow(x, e - 1);
      PowModBase(x, e - 1, m);
      ModOfMod(x, m);
      MulCongruent(r, pr, x, px, m);
      assert Pow(r, e) == r * pr && Pow(x, e) == x * px;
    }
  }

  /** Products of congruent factors are congruent. */
  lemma MulCongruent(a: int, b: int, c: int, d: int, m: int)
    requires m > 0 && a % m == c % m && b % m == d % m
    ensures (a * b) % m == (c * d) % m
  {
    MulMod(a, b, m);
    MulMod(c, d, m);
  }

  /** Sums of congruent terms are congruent. */
  lemma AddCongruent(a: int, b: int, c: int, d: int, m: int)
    requires m > 0 && a % m == c % m && b % m == d % m
    ensures (a + b) % m == (c + d) % m
  {
    AddMod(a, b, m);
    AddMod(c, d, m);
  }

  /** For positive b and c: a % (b * c) == a % b + ((a / b) % c) * b and
      a / (b * c) == (a / b) / c. */
  lemma DivModSplit(a: int, b: int, c: int)
    requires b > 0 && c > 0
    ensures a % (b * c) == a % b + ((a / b) % c) * b
    ensures a / (b * c) == (a / b) / c
  {
    var q := a / b;
    var lo := a % b + (q % c) * b;
    assert 0 <= lo < b * c by {
      assert (q % c) * b <= (c - 1) * b;
    }
    calc {
      a;
      q * b + a % b;
      ((q / c) * c + q % c) * b + a % b;
      (q / c) * (b * c) + lo;
    }
    DivModUnique(a, b * c, q / c, lo);
  }

  /** A value below b * c has a quotient by b below c. */
  lemma DivBelow(a: int, b: int, c: int)
    requires b > 0 && 0 <= a < b * c
    ensures 0 <= a / b < c
  {
    var q := a / b;
    assert q * b + a % b == a;
  }

  /** Every bit at or above position i of a value in [0, 2^i) is clear. */
  lemma BitsAboveAreClear(s: int, i: nat, j: nat)
    requires 0 <= s < TwoPow(i) && i <= j
    ensures s / TwoPow(j) == 0 && Bit(s, j) == 0
  {
    TwoPowMonotone(i, j);
    DivModUnique(s, TwoPow(j), 0, s);
  }

  /** Reducing modulo an even multiple 2 * h * m of m keeps the parity of the
      quotient by m. */
  lemma QuotientParityOfLowPart(s: int, m: int, h: int)
    requires m > 0 && h > 0
    ensures (s % (2 * h * m)) / m % 2 == (s / m) % 2
  {
    var t := 2 * h * m;
    var hi := s / t;
    assert s == (hi * h * 2) * m + s % t by {
      assert s == hi * t + s % t;
    }
    ModAddMultiple(hi * h * 2, s % t, m);
    ModAddMultiple(hi * h, (s % t) / m, 2);
  }

  /** Bits below position k depend only on s modulo 2^k. */
  lemma BitOfLowPart(s: int, k: nat, i: nat)
    requires i < k
    ensures Bit(s % TwoPow(k), i) == Bit(s, i)
  {
    TwoPowAdd(k - i, i);
    TwoPowAdd(1, k - i - 1);
    assert TwoPow(k) == 2 * TwoPow(k - i - 1) * TwoPow(i);
    QuotientParityOfLowPart(s, TwoPow(i), TwoPow(k - i - 1));
  }
}
