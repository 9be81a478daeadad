/*
 * The arithmetic the sieve is measured against: divisibility, primality by
 * its textbook definition, and the two facts the sieve of Eratosthenes rests
 * on (every composite has a prime factor no larger than its square root;
 * trial division up to the square root decides primality).
 */
module Primes {

  /** `d` is a positive divisor of `v`. */
  predicate Divides(d: int, v: int)
  {
    d > 0 && v % d == 0
  }

  /** The textbook definition: at least 2 and no divisor strictly between 1 and itself. */
  predicate Prime(v: int)
  {
    v >= 2 && forall d :: 2 <= d < v ==> !Divides(d, v)
  }

  /** A positive multiple of a positive number is at least that number. */
  lemma MulAtLeast(a: int, k: int)
    requires a > 0 && k >= 1
    ensures a * k >= a
  {
    assert a * k == a * (k - 1) + a;
  }

  /** Division with remainder is unique: `a*t + r` leaves remainder `r`. */
  lemma ModOfMultiplePlus(a: int, t: int, r: int)
    requires a > 0 && 0 <= r < a
    ensures (a * t + r) % a == r
  {
    var x := a * t + r;
    var q, s := x / a, x % a;
    assert x == a * q + s && 0 <= s < a;
    var k := t - q;
    assert a * k == s - r by {
      assert a * t - a * q == a * (t - q);
    }
    if k >= 1 {
      MulAtLeast(a, k);
      assert false;
    } else if k <= -1 {
      MulAtLeast(a, -k);
      assert false;
    }
  }

  /** A multiple of `a` written as `a * t` is divisible by `a`. */
  lemma DividesProduct(a: int, t: int)
    requires a > 0
    ensures Divides(a, a * t)
  {
    ModOfMultiplePlus(a, t, 0);
  }

  /** The quotient of an exact division, as a factorisation. */
  lemma Cofactor(d: int, v: int)
    requires Divides(d, v)
    ensures v == d * (v / d)
  {
  }

  lemma DividesTransitive(a: int, b: int, c: int)
    requires Divides(a, b) && Divides(b, c)
    ensures Divides(a, c)
  {
    Cofactor(a, b);
    Cofactor(b, c);
    var x, y := b / a, c / b;
    assert c == a * (x * y) by {
      assert c == (a * x) * y;
    }
    DividesProduct(a, x * y);
  }

  /**
   * The least divisor of `c` that is at least `d`; `c` itself bounds the
   * search.
   */
  function LeastDivisorFrom(c: int, d: int): (r: int)
    requires 2 <= d <= c
    decreases c - d
    ensures d <= r <= c && Divides(r, c)
    ensures forall e :: d <= e < r ==> !Divides(e, c)
  {
    if Divides(d, c) then d else LeastDivisorFrom(c, d + 1)
  }

  /**
   * Every composite `c` has a prime factor `p` with `p * p <= c`: the reason a
   * sieve may start striking the multiples of `p` at `p * p`.
   */
  lemma SmallPrimeFactor(c: int) returns (p: int)
    requires c >= 2 && !Prime(c)
    ensures Prime(p) && Divides(p, c) && p * p <= c
  {
    p := LeastDivisorFrom(c, 2);
    LeastDivisorIsPrime(c, p);
    Cofactor(p, c);
    var q := c / p;
    CofactorAtLeast(c, p, q);
    MulMonotone(p, q, p);
  }

  /** Multiplying by a non-negative factor keeps the order. */
  lemma MulMonotone(x: int, y: int, k: int)
    requires x <= y && k >= 0
    ensures k * x <= k * y
  {
    assert k * y - k * x == k * (y - x);
  }

  /** A number at least 2 whose square is at most `v` is below `v`. */
  lemma BelowItsSquare(d: int, v: int)
    requires 2 <= d && d * d <= v
    ensures d < v
  {
    MulMonotone(2, d, d);
  }

  /** The least divisor from 2 of `c` is prime. */
  lemma LeastDivisorIsPrime(c: int, p: int)
    requires c >= 2 && p == LeastDivisorFrom(c, 2)
    ensures Prime(p)
  {
    forall e | 2 <= e < p
      ensures !Divides(e, p)
    {
      if Divides(e, p) {
        DividesTransitive(e, p, c);
      }
    }
  }

  /** For a composite `c`, the cofactor of its least divisor is no smaller than it. */
  lemma CofactorAtLeast(c: int, p: int, q: int)
    requires c >= 2 && !Prime(c) && p == LeastDivisorFrom(c, 2) && c == p * q
    ensures q >= p
  {
    var d :| 2 <= d < c && Divides(d, c);
    assert p < c;
    if q <= 1 {
      assert false;
    }
    assert c == q * p;
    DividesProduct(q, p);
    MulAtLeast(q, p);
  }

  /** A divisor `v >= 2` with `v * v <= c` is a proper divisor, so `c` is composite. */
  lemma SmallDivisorMakesComposite(v: int, c: int)
    requires v >= 2 && v * v <= c && Divides(v, c)
    ensures !Prime(c)
  {
    assert v * v >= 2 * v by {
      assert v * v - 2 * v == v * (v - 2);
      assert v * (v - 2) >= 0;
    }
    assert v < c;
  }

  /**
   * `v` is prime exactly when it is at least 2 and no prime `p` with
   * `p * p <= v` divides it.
   */
  lemma PrimeIffNoSmallPrimeFactor(v: int)
    ensures Prime(v) <==> v >= 2 && forall p :: Prime(p) && p * p <= v ==> !Divides(p, v)
  {
    if v >= 2 && !Prime(v) {
      var p := SmallPrimeFactor(v);
    }
    if Prime(v) {
      forall p | Prime(p) && p * p <= v
        ensures !Divides(p, v)
      {
        if Divides(p, v) {
          SmallDivisorMakesComposite(p, v);
        }
      }
    }
  }

  lemma SquareMonotone(d: int, e: int)
    requires 0 <= d <= e
    ensures d * d <= e * e
  {
    assert e * e - d * d == (e - d) * (e + d);
    assert (e - d) * (e + d) >= 0;
  }

  /**
   * Trial division by the odd numbers: no odd `e` from `d` on with
   * `e * e <= v` divides `v`.
   */
  function NoOddFactorFrom(v: int, d: int): (r: bool)
    requires 3 <= d
    decreases v - d
  {
    d * d > v || (!Divides(d, v) && NoOddFactorFrom(v, d + 2))
  }

  /**
   * Trial division from an odd `d` finds no divisor exactly when no odd
   * number from `d` up to the square root divides `v`.
   */
  lemma {:induction false} NoOddFactorFromCorrect(v: int, d: int)
    requires 3 <= d && d % 2 == 1
    decreases v - d
    ensures NoOddFactorFrom(v, d) <==> forall e :: d <= e && e * e <= v && e % 2 == 1 ==> !Divides(e, v)
  {
    if d * d > v {
      forall e | d <= e
        ensures e * e > v
      {
        SquareMonotone(d, e);
      }
    } else {
      BelowItsSquare(d, v);
      NoOddFactorFromCorrect(v, d + 2);
      forall e | d <= e && e * e <= v && e % 2 == 1 && e != d
        ensures d + 2 <= e
      {
      }
    }
  }

  /**
   * Primality by trial division up to the square root, by 2 and then by the
   * odd numbers: a computable reference for `Prime`.
   */
  predicate IsPrimeByTrial(v: int)
  {
    v >= 2 && (v == 2 || !Divides(2, v)) && NoOddFactorFrom(v, 3)
  }

  /** Trial division agrees with the textbook definition on every integer. */
  lemma TrialDivisionDecidesPrime(v: int)
    ensures IsPrimeByTrial(v) <==> Prime(v)
  {
    if v >= 2 {
      NoOddFactorFromCorrect(v, 3);
      if !Prime(v) {
        var p := SmallPrimeFactor(v);
        if p % 2 == 0 {
          assert Divides(2, p);
          assert p == 2;
          assert v != 2;
        }
      } else {
        forall e | 2 <= e && e * e <= v
          ensures !Divides(e, v)
        {
          SmallDivisorCheck(e, v);
        }
        if v % 2 == 0 {
          assert Divides(2, v);
        }
      }
    }
  }

  /** Helper: a prime has no divisor `e >= 2` with `e * e <= v`. */
  lemma SmallDivisorCheck(e: int, v: int)
    requires Prime(v) && 2 <= e && e * e <= v
    ensures !Divides(e, v)
  {
    if Divides(e, v) {
      SmallDivisorMakesComposite(e, v);
    }
  }
}
