/**
 * Integer division as C performs it.
 *
 * C's `/` on `int` discards the fractional part of the quotient (it truncates
 * toward zero), and `(a / b) * b + a % b == a` holds (C99, section 6.5.5), so the remainder takes
 * the sign of the dividend. Dafny's `/` on `int` is Euclidean instead (the
 * remainder is never negative). The two agree on non-negative dividends and
 * positive divisors and differ on negative dividends that the divisor does not
 * divide, which is exactly where pointer coordinates outside a window live.
 */
module CDivision {

  function Abs(a: int): (r: nat)
    ensures r == a || r == -a
  {
    if a < 0 then -a else a
  }

  /** The quotient of C's `a / b`. */
  function TruncDiv(a: int, b: int): (q: int)
    requires b != 0
    // the remainder a - q * b is smaller than the divisor in magnitude ...
    ensures Abs(a - q * b) < Abs(b)
    // ... and is zero or has the sign of the dividend
    ensures a - q * b == 0 || (a - q * b < 0 <==> a < 0)
  {
    var m: int := Quot(Abs(a), Abs(b));
    var q: int := if (a < 0) == (b < 0) then m else -m;
    SignedQuotient(a, b, m, Abs(a) - m * Abs(b), q);
    q
  }

  /** The quotient of two naturals, by repeated subtraction. */
  function Quot(n: nat, d: nat): (m: nat)
    requires d >= 1
    ensures m * d <= n < m * d + d
    decreases n
  {
    if n < d then 0
    else
      var m := Quot(n - d, d);
      assert (m + 1) * d == m * d + d;
      m + 1
  }

  /** Repeated subtraction and Dafny's division of naturals agree. */
  lemma QuotIsDiv(n: nat, d: nat)
    requires d >= 1
    ensures Quot(n, d) == n / d
  {
    var m, f := Quot(n, d), n / d;
    DivMod(n, d);
    assert (m + 1) * d == m * d + d && (f + 1) * d == f * d + d;
    if m < f {
      MulLe(m + 1, f, d);
      assert false;
    } else if f < m {
      MulLe(f + 1, m, d);
      assert false;
    }
  }

  /**
   * Dividing the magnitudes and giving the quotient the sign the operands'
   * signs call for leaves a remainder with the dividend's sign.
   */
  lemma SignedQuotient(a: int, b: int, m: int, r: int, q: int)
    requires b != 0 && Abs(a) == m * Abs(b) + r && 0 <= r < Abs(b)
    requires q == if (a < 0) == (b < 0) then m else -m
    ensures Abs(a - q * b) < Abs(b)
    ensures a - q * b == 0 || (a - q * b < 0 <==> a < 0)
  {
    if a < 0 && b < 0 {
      MulNegRight(m, b);
      assert a - q * b == -r;
    } else if b < 0 {
      MulNegBoth(m, b);
      assert a - q * b == r;
    } else if a < 0 {
      MulNegLeft(m, b);
      assert a - q * b == -r;
    } else {
      assert a - q * b == r;
    }
  }

  /** Dafny's division of naturals. */
  lemma DivMod(n: nat, d: nat)
    requires d >= 1
    ensures n == (n / d) * d + n % d && 0 <= n % d < d
  {
  }

  /** The two conditions of TruncDiv's contract single out one quotient. */
  lemma TruncDivUnique(a: int, b: int, q: int)
    requires b != 0
    requires Abs(a - q * b) < Abs(b)
    requires a - q * b == 0 || (a - q * b < 0 <==> a < 0)
    ensures q == TruncDiv(a, b)
  {
    var p := TruncDiv(a, b);
    var r, s := a - q * b, a - p * b;
    // both remainders lie on the same side of zero, so they differ by less than |b|
    assert Abs(r - s) < Abs(b);
    Distrib(p, q, b);
    if p != q {
      AbsMulAtLeast(p - q, b);
      assert false;
    }
  }

  /** A non-zero multiple of b is at least |b| away from zero. */
  lemma AbsMulAtLeast(k: int, b: int)
    requires k != 0 && b != 0
    ensures Abs(k * b) >= Abs(b)
  {
    AbsMulIsMulAbs(k, b);
    MulLe(1, Abs(k), Abs(b));
  }

  lemma AbsMulIsMulAbs(k: int, b: int)
    ensures Abs(k * b) == Abs(k) * Abs(b)
  {
    if k < 0 && b < 0 {
      MulNegBoth(-k, b);
    } else if k < 0 {
      MulNegLeft(-k, b);
    } else if b < 0 {
      MulNegRight(k, -b);
    }
    MulNonNeg(Abs(k), Abs(b));
  }

  lemma MulNonNeg(x: int, y: int)
    requires x >= 0 && y >= 0
    ensures x * y >= 0
  {
  }

  lemma MulNegLeft(x: int, y: int)
    ensures (-x) * y == -(x * y)
  {
  }

  lemma MulNegRight(x: int, y: int)
    ensures x * (-y) == -(x * y)
  {
  }

  lemma MulNegBoth(x: int, y: int)
    ensures (-x) * y == x * (-y)
  {
  }

  lemma Distrib(p: int, q: int, b: int)
    ensures p * b - q * b == (p - q) * b
  {
  }

  lemma MulLe(x: int, y: int, b: int)
    requires x <= y && b >= 0
    ensures x * b <= y * b
  {
    MulNonNeg(y - x, b);
    Distrib(y, x, b);
  }

  /** Anything smaller in magnitude than the divisor truncates to zero. */
  lemma TruncDivSmall(a: int, b: int)
    requires b != 0 && Abs(a) < Abs(b)
    ensures TruncDiv(a, b) == 0
  {
    TruncDivUnique(a, b, 0);
  }

  /** For non-negative dividends and positive divisors C and Dafny agree (floor). */
  lemma TruncDivIsFloor(a: int, b: int)
    requires a >= 0 && b >= 1
    ensures TruncDiv(a, b) == a / b
  {
    QuotIsDiv(a, b);
  }

  /**
   * For a non-negative coordinate, the quotient names the block of b
   * consecutive values that holds it.
   */
  lemma TruncDivBrackets(a: int, b: int)
    requires a >= 0 && b >= 1
    ensures TruncDiv(a, b) * b <= a < (TruncDiv(a, b) + 1) * b
  {
    var q := TruncDiv(a, b);
    assert (q + 1) * b == q * b + b;
  }

  /** Dividing an exact multiple gives the factor back, whatever its sign. */
  lemma TruncDivExact(k: int, b: int)
    requires b != 0
    ensures TruncDiv(k * b, b) == k
  {
    TruncDivUnique(k * b, b, k);
  }

  /** Truncation is symmetric about zero (floor is not). */
  lemma TruncDivNegate(a: int, b: int)
    requires b != 0
    ensures TruncDiv(-a, b) == -TruncDiv(a, b)
  {
    var q := TruncDiv(a, b);
    var r := a - q * b;
    MulNegLeft(q, b);
    assert -a - (-q) * b == -r;
    assert Abs(-r) == Abs(r);
    TruncDivUnique(-a, b, -q);
  }

  /**
   * For a negative dividend that b does not divide, C's quotient is one more
   * than the floor: it rounds toward zero, not down.
   */
  lemma TruncDivNegativeDividend(a: int, b: int)
    requires a < 0 && b >= 1
    ensures a % b == 0 ==> TruncDiv(a, b) == a / b
    ensures a % b != 0 ==> TruncDiv(a, b) == a / b + 1
  {
    var f := a / b;
    assert a == f * b + a % b;
    if a % b == 0 {
      TruncDivUnique(a, b, f);
    } else {
      assert a - (f + 1) * b == a % b - b;
      TruncDivUnique(a, b, f + 1);
    }
  }

  /** Dividing by a positive divisor never grows a value's magnitude. */
  lemma TruncDivShrinks(a: int, b: int)
    requires b >= 1
    ensures Abs(TruncDiv(a, b)) <= Abs(a)
  {
    // reduce to a non-negative dividend, where C and Dafny agree
    var n := Abs(a);
    var q := TruncDiv(n, b);
    assert q <= n by {
      TruncDivIsFloor(n, b);
      DivAtMost(n, b);
    }
    assert q >= 0 by {
      TruncDivSignOfDividend(n, b);
    }
    if a < 0 {
      TruncDivNegate(-a, b);
      assert -(-a) == a;
    }
  }

  lemma DivAtMost(n: nat, d: nat)
    requires d >= 1
    ensures n / d <= n
  {
    var m := n / d;
    assert m * d <= n by {
      assert n == m * d + n % d;
    }
    MulLe(1, d, m);
    assert d * m == m * d;
  }

  /** Truncating division by a positive divisor preserves order. */
  lemma TruncDivMonotone(a: int, a': int, b: int)
    requires a <= a' && b >= 1
    ensures TruncDiv(a, b) <= TruncDiv(a', b)
  {
    if a >= 0 {
      TruncDivMonotoneNonNeg(a, a', b);
    } else if a' < 0 {
      TruncDivMonotoneNonNeg(-a', -a, b);
      TruncDivNegate(a, b);
      TruncDivNegate(a', b);
    } else {
      // a < 0 <= a': the quotients are <= 0 and >= 0 respectively
      TruncDivNegate(a, b);
      TruncDivSignOfDividend(-a, b);
      TruncDivSignOfDividend(a', b);
    }
  }

  lemma TruncDivSignOfDividend(a: int, b: int)
    requires a >= 0 && b >= 1
    ensures TruncDiv(a, b) >= 0
  {
  }

  /** The non-negative half of TruncDivMonotone. */
  lemma TruncDivMonotoneNonNeg(a: int, a': int, b: int)
    requires 0 <= a <= a' && b >= 1
    ensures TruncDiv(a, b) <= TruncDiv(a', b)
  {
    var q, q' := TruncDiv(a, b), TruncDiv(a', b);
    assert q * b <= a by {
      TruncDivBrackets(a, b);
    }
    assert a' < (q' + 1) * b by {
      TruncDivBrackets(a', b);
    }
    if q > q' {
      MulLe(q' + 1, q, b);
      assert false;
    }
  }
}
