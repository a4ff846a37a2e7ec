/** Greatest common divisors, and the remainders that the multiples of a number leave. */
module Divisors {
  import opened Bits

  function Gcd(a: nat, b: nat): nat
    decreases b
  {
    if b == 0 then a else Gcd(b, a % b)
  }

  lemma Quotient(x: int, n: nat) returns (q: int, r: nat)
    requires n >= 1
    ensures x == q * n + r && r == x % n && (x >= 0 ==> q >= 0)
  {
    q, r := x / n, x % n;
  }

  lemma {:induction false} GcdDivides(a: nat, b: nat) returns (x: nat, y: nat)
    requires a + b > 0
    ensures Gcd(a, b) >= 1 && a == x * Gcd(a, b) && b == y * Gcd(a, b)
    decreases b
  {
    if b == 0 {
      x, y := 1, 0;
    } else {
      var q, r := Quotient(a, b);
      var u, v := GcdDivides(b, a % b);
      x, y := q * u + v, u;
      CommonFactor(a, b, q, r, u, v, Gcd(a, b));
    }
  }

  lemma CommonFactor(a: nat, b: nat, q: nat, r: nat, u: nat, v: nat, g: nat)
    requires a == q * b + r && b == u * g && r == v * g
    ensures a == (q * u + v) * g
  {
    assert q * (u * g) == (q * u) * g;
  }

  /** The greatest common divisor is a combination of the two numbers. */
  lemma {:induction false} Bezout(a: nat, b: nat) returns (x: int, y: int)
    ensures x * a + y * b == Gcd(a, b)
    decreases b
  {
    if b == 0 {
      x, y := 1, 0;
    } else {
      var u, v := Bezout(b, a % b);
      var q := a / b;
      x, y := v, u - v * q;
      assert a % b == a - q * b;
      Rearranged(u, v, q, a, b);
    }
  }

  lemma Rearranged(u: int, v: int, q: int, a: int, b: int)
    ensures u * b + v * (a - q * b) == v * a + (u - v * q) * b
  {
    assert v * (q * b) == (v * q) * b;
  }

  lemma GcdAtMost(a: nat, n: nat)
    requires n >= 1
    ensures 1 <= Gcd(a, n) <= n
  {
    var x, y := GcdDivides(a, n);
    if y >= 1 {
      MulMonotone(1, y, Gcd(a, n));
    }
  }

  /** Some multiple of `a` leaves the remainder `n - Gcd(a, n)`. */
  lemma LargestRemainder(a: nat, n: nat) returns (k: nat)
    requires n >= 1
    ensures (k * a) % n == n - Gcd(a, n)
  {
    GcdAtMost(a, n);
    var x, y := Bezout(a, n);
    var q;
    q, k := Quotient(-x, n);
    Multiplied(x, y, q, k, a, n, Gcd(a, n));
    RemainderIs(k * a, y - q * a - 1, n - Gcd(a, n), n);
  }

  lemma RemainderIs(t: int, m: int, r: nat, n: nat)
    requires t == m * n + r && r < n
    ensures t % n == r
  {
    ModOf(m, r, n);
  }

  lemma Multiplied(x: int, y: int, q: int, k: int, a: int, n: int, g: int)
    requires -x == q * n + k && x * a + y * n == g
    ensures k * a == (y - q * a - 1) * n + (n - g)
  {
    assert k == -x - q * n;
    assert (-x - q * n) * a == -(x * a) - (q * n) * a;
    assert (q * n) * a == (q * a) * n;
    assert (y - q * a - 1) * n == y * n - (q * a) * n - n;
  }

  /** And no multiple of `a` leaves a larger one. */
  lemma RemainderBound(a: nat, n: nat, k: nat)
    requires n >= 1
    ensures (k * a) % n <= n - Gcd(a, n)
  {
    var x, y := GcdDivides(a, n);
    var g, r, q := Gcd(a, n), (k * a) % n, (k * a) / n;
    assert k * a == q * n + r;
    MultipleOf(k, x, q, y, g, a, n, r);
    MultipleBelow(k * x - q * y, y, g);
  }

  lemma MultipleOf(k: int, x: int, q: int, y: int, g: int, a: int, n: int, r: int)
    requires a == x * g && n == y * g && k * a == q * n + r
    ensures r == (k * x - q * y) * g
  {
    assert k * (x * g) == (k * x) * g;
    assert q * (y * g) == (q * y) * g;
  }

  /** Multiples of `g` below `y * g` are at most `(y - 1) * g`. */
  lemma MultipleBelow(m: int, y: int, g: int)
    requires g >= 1 && m * g < y * g
    ensures m * g <= y * g - g
  {
    if m <= y - 1 {
      assert m * g <= (y - 1) * g;
    }
  }
}
