/**
 The numeric helpers of the /bfhl handler: trial-division primality,
 Euclid's greatest common divisor and the least common multiple defined
 through it. Numbers are unbounded mathematical integers.
 */
module Numeric {

  /** `d` is a positive divisor of `n`. */
  predicate Divides(d: int, n: int)
  {
    d > 0 && n % d == 0
  }

  /** The textbook definition of a prime number: the independent reference for `IsPrime`. */
  ghost predicate IsPrimeNumber(n: int)
  {
    n >= 2 && forall d :: 2 <= d < n ==> !Divides(d, n)
  }

  // ---------------------------------------------------------------------------
  // Arithmetic facts about divisibility

  /** A multiple of `d` leaves no remainder, and dividing it by `d` gives the factor back. */
  lemma MultipleOf(d: int, k: int)
    requires d > 0
    ensures (d * k) % d == 0
    ensures (d * k) / d == k
  {
    var m := d * k;
    var q, r := m / d, m % d;
    assert m == d * q + r && 0 <= r < d;
    assert d * (k - q) == r;
    MulMonotone(d, 1, k - q);
    MulMonotone(d, k - q, -1);
  }

  /** Multiplying by a non-negative number preserves order. */
  lemma MulMonotone(x: int, a: int, b: int)
    requires x >= 0
    ensures a <= b ==> x * a <= x * b
  {
    if a <= b {
      assert x * b - x * a == x * (b - a);
    }
  }

  /** A number with no remainder modulo `d` is `d` times its quotient. */
  lemma DividesIsMultiple(d: int, n: int)
    requires Divides(d, n)
    ensures n == d * (n / d)
  {
  }

  /** Divisibility is closed under integer linear combinations. */
  lemma DividesCombination(d: int, x: int, y: int, p: int, q: int)
    requires Divides(d, x) && Divides(d, y)
    ensures Divides(d, p * x + q * y)
  {
    var a, b := x / d, y / d;
    DividesIsMultiple(d, x);
    DividesIsMultiple(d, y);
    calc {
      p * x + q * y;
      p * (d * a) + q * (d * b);
      d * (p * a) + d * (q * b);
      d * (p * a + q * b);
    }
    MultipleOf(d, p * a + q * b);
  }

  /** Divisibility is transitive. */
  lemma DividesTransitive(a: int, b: int, c: int)
    requires Divides(a, b) && Divides(b, c)
    ensures Divides(a, c)
  {
    DividesIsMultiple(b, c);
    DividesCombination(a, b, 0, c / b, 0);
  }

  /** A positive multiple of `d` is at least `d`. */
  lemma DivisorBound(d: int, n: int)
    requires Divides(d, n) && n > 0
    ensures d <= n
  {
    DividesIsMultiple(d, n);
    var k := n / d;
    MulMonotone(d, k, 0);
    MulMonotone(d, 1, k);
  }

  // ---------------------------------------------------------------------------
  // Primality by trial division

  /**
   The loop of the primality test from candidate divisor `i` on: it keeps
   going while `i * i <= n` and stops at the first `i` dividing `n`.
   */
  function TrialDivision(n: int, i: int): (r: bool)
    requires 2 <= i
    ensures r <==> forall d {:trigger Divides(d, n)} :: i <= d && d * d <= n ==> !Divides(d, n)
    decreases n - i
  {
    if i * i > n then
      assert forall d :: i <= d ==> i * i <= d * d by {
        forall d | i <= d ensures i * i <= d * d {
          SquareMonotone(i, d);
        }
      }
      true
    else if n % i == 0 then
      assert Divides(i, n);
      false
    else
      assert i <= i * i by { SquareMonotone(1, i); }
      TrialDivision(n, i + 1)
  }

  /** Squaring preserves order on non-negative numbers. */
  lemma SquareMonotone(a: int, b: int)
    requires 0 <= a <= b
    ensures a * a <= b * b
  {
    assert a * a <= a * b <= b * b;
  }

  /**
   The primality test: numbers below 2 are not prime; otherwise a number is
   prime when no candidate `d` with `d * d <= n` divides it.
   */
  function IsPrime(n: int): (r: bool)
    ensures n < 2 ==> !r
    ensures r <==> n >= 2 && forall d {:trigger Divides(d, n)} :: 2 <= d && d * d <= n ==> !Divides(d, n)
  {
    if n < 2 then false else TrialDivision(n, 2)
  }

  /**
   A number with a divisor strictly between 1 and itself has one whose
   square does not exceed it: the divisor or its cofactor.
   */
  lemma SmallDivisor(n: int, d: int) returns (e: int)
    requires 2 <= d < n && Divides(d, n)
    ensures 2 <= e && e * e <= n && Divides(e, n)
  {
    if d * d <= n {
      e := d;
    } else {
      DividesIsMultiple(d, n);
      e := n / d;
      assert n == d * e;
      MulMonotone(d, e, 1);
      assert e >= 2;
      MulMonotone(d, d, e);
      assert e < d;
      MulMonotone(e, e, d);
      MultipleOf(e, d);
      assert n == e * d;
    }
  }

  /** Trial division up to the square root decides primality exactly. */
  lemma {:induction false} IsPrimeCorrect(n: int)
    ensures IsPrime(n) <==> IsPrimeNumber(n)
  {
    if n >= 2 && !IsPrimeNumber(n) {
      var d :| 2 <= d < n && Divides(d, n);
      var e := SmallDivisor(n, d);
      assert Divides(e, n);
    }
  }

  // ---------------------------------------------------------------------------
  // Greatest common divisor and least common multiple

  /**
   Euclid's algorithm: `gcd(a, 0) = a`, otherwise `gcd(b, a % b)`.
   The result divides both arguments and every common divisor divides it.
   */
  function Gcd(a: nat, b: nat): (g: nat)
    ensures b == 0 ==> g == a
    ensures g == 0 <==> a == 0 && b == 0
    ensures g > 0 ==> Divides(g, a) && Divides(g, b)
    ensures forall d {:trigger Divides(d, g)} :: Divides(d, a) && Divides(d, b) ==> Divides(d, g)
    decreases b
  {
    if b == 0 then
      a
    else
      var g := Gcd(b, a % b);
      assert Divides(g, a) by {
        assert a == (a / b) * b + 1 * (a % b);
        DividesCombination(g, b, a % b, a / b, 1);
      }
      assert forall d :: Divides(d, a) && Divides(d, b) ==> Divides(d, a % b) by {
        forall d | Divides(d, a) && Divides(d, b) ensures Divides(d, a % b) {
          assert a % b == 1 * a + (-(a / b)) * b;
          DividesCombination(d, a, b, 1, -(a / b));
        }
      }
      g
  }

  /** A common divisor of two numbers, not both zero, is at most their gcd. */
  lemma GcdIsGreatest(a: nat, b: nat, d: int)
    requires a > 0 || b > 0
    requires Divides(d, a) && Divides(d, b)
    ensures d <= Gcd(a, b)
  {
    DivisorBound(d, Gcd(a, b));
  }

  /** Coefficients `(s, t)` with `s * a + t * b == Gcd(a, b)` (extended Euclid). */
  function Bezout(a: nat, b: nat): (st: (int, int))
    ensures st.0 * a + st.1 * b == Gcd(a, b)
    decreases b
  {
    if b == 0 then
      (1, 0)
    else
      var st := Bezout(b, a % b);
      var q, r := a / b, a % b;
      DivMod(a, b);
      Regroup(a, b, q, r, st.0, st.1);
      (st.1, st.0 - st.1 * q)
  }

  /** Euclidean division: the quotient times the divisor plus the remainder. */
  lemma DivMod(a: int, b: int)
    requires b > 0
    ensures a == (a / b) * b + a % b
  {
  }

  /** Rewriting a combination of `b` and `a % b` as one of `a` and `b`. */
  lemma Regroup(a: int, b: int, q: int, r: int, s: int, t: int)
    requires a == q * b + r
    ensures s * b + t * r == t * a + (s - t * q) * b
  {
    assert t * a == t * (q * b) + t * r;
    assert t * (q * b) == (t * q) * b;
    assert (s - t * q) * b == s * b - (t * q) * b;
  }

  /**
   The least common multiple `a * b / gcd(a, b)`. The division is exact,
   and for positive arguments the result is a positive multiple of both.
   */
  function Lcm(a: nat, b: nat): (l: nat)
    requires a > 0 || b > 0
    ensures (a * b) % Gcd(a, b) == 0
    ensures l * Gcd(a, b) == a * b
    ensures a > 0 && b > 0 ==> l > 0 && Divides(a, l) && Divides(b, l)
  {
    QuotientFacts(a, b);
    (a * b) / Gcd(a, b)
  }

  /** The facts behind `Lcm`: with `g = Gcd(a, b)`, `a * b / g` is `(a / g) * b`, a multiple of both. */
  lemma QuotientFacts(a: nat, b: nat)
    requires a > 0 || b > 0
    ensures (a * b) % Gcd(a, b) == 0
    ensures (a * b) / Gcd(a, b) * Gcd(a, b) == a * b
    ensures a > 0 && b > 0 ==> var l := (a * b) / Gcd(a, b); l > 0 && Divides(a, l) && Divides(b, l)
  {
    var g := Gcd(a, b);
    DividesIsMultiple(g, a);
    var a' := a / g;
    assert a * b == g * (a' * b);
    MultipleOf(g, a' * b);
    if a > 0 && b > 0 {
      assert a' > 0 by {
        MulMonotone(g, a', 0);
      }
      assert a' * b > 0;
      MultipleOf(b, a');
      assert a' * b == b * a';
      DividesIsMultiple(g, b);
      var b' := b / g;
      assert g * (a' * b) == g * (a * b') by {
        calc {
          g * (a * b');
          (g * a') * (g * b');
          g * (a' * (g * b'));
          g * (a' * b);
        }
      }
      MulCancel(a' * b, a * b', g);
      MultipleOf(a, b');
    }
  }

  /** A positive factor cancels. */
  lemma MulCancel(x: int, y: int, g: int)
    requires g > 0 && g * x == g * y
    ensures x == y
  {
    assert g * (x - y) == 0;
  }

  /** Multiplying a common multiple `m` through Bezout's identity exhibits `a * b` as a factor of `m * g`. */
  lemma BezoutScaled(a: int, b: int, m: int, s: int, t: int, u: int, v: int, g: int)
    requires m == a * u && m == b * v && s * a + t * b == g
    ensures m * g == (a * b) * (s * v + t * u)
  {
    assert m * g == s * (a * m) + t * (b * m);
    assert a * m == (a * b) * v;
    assert b * m == (a * b) * u;
    assert s * ((a * b) * v) == (a * b) * (s * v);
    assert t * ((a * b) * u) == (a * b) * (t * u);
  }

  /** From `m * g == p * w` and `l * g == p` with `g` positive, `m == l * w`. */
  lemma CancelFactor(m: int, g: int, l: int, w: int, p: int)
    requires g > 0 && m * g == p * w && l * g == p
    ensures m == l * w
  {
    assert g * m == g * (l * w) by {
      assert p * w == (l * g) * w == g * (l * w);
    }
    MulCancel(m, l * w, g);
  }

  /** Every common multiple of two positive numbers is a multiple of their lcm. */
  lemma LcmIsLeast(a: nat, b: nat, m: int)
    requires a > 0 && b > 0
    requires Divides(a, m) && Divides(b, m)
    ensures Divides(Lcm(a, b), m)
  {
    var g, l := Gcd(a, b), Lcm(a, b);
    var (s, t) := Bezout(a, b);
    DividesIsMultiple(a, m);
    DividesIsMultiple(b, m);
    var u, v := m / a, m / b;
    var w := s * v + t * u;
    BezoutScaled(a, b, m, s, t, u, v, g);
    CancelFactor(m, g, l, w, a * b);
    MultipleOf(l, w);
  }
}
