/** Greatest common divisors: what Euclid's algorithm returns, and which remainders the multiples of a number leave. */
module Euclid {
  import opened Machine

  function Gcd(a: nat, b: nat): (g: nat)
    requires a > 0 || b > 0
    ensures g > 0
    decreases b
  {
    if b == 0 then a else Gcd(b, a % b)
  }

  lemma Regroup(q: int, p: int, r: int, g: int)
    ensures q * (p * g) + r * g == (q * p + r) * g
  {
  }

  /** It divides both numbers. */
  lemma {:induction false} GcdDivides(a: nat, b: nat) returns (p: nat, q: nat)
    requires a > 0 || b > 0
    ensures a == p * Gcd(a, b) && b == q * Gcd(a, b)
    decreases b
  {
    if b == 0 {
      p, q := 1, 0;
    } else {
      var p', q' := GcdDivides(b, a % b);
      assert a == (a / b) * b + a % b;
      Regroup(a / b, p', q', Gcd(a, b));
      p, q := (a / b) * p' + q', p';
    }
  }

  lemma FactorIsSmaller(n: int, g: int)
    requires n > 0 && g > 0
    ensures n <= n * g
  {
    if g > 1 { MultiplesApart(1, g, n); }
  }

  lemma GcdFits(a: nat, b: nat)
    requires a > 0
    ensures Gcd(a, b) <= a && a / Gcd(a, b) > 0
  {
    var p, _ := GcdDivides(a, b);
    var g := Gcd(a, b);
    if p > 0 { FactorIsSmaller(g, p); }
    assert a == (a / g) * g + a % g;
  }

  lemma Exchange(x: int, y: int, a: int, b: int, q: int)
    ensures x * b + y * (a - q * b) == y * a + (x - y * q) * b
  {
    assert y * (a - q * b) == y * a - y * (q * b);
    assert y * (q * b) == (y * q) * b;
    assert (x - y * q) * b == x * b - (y * q) * b;
  }

  /** It is a combination of both, so every common divisor divides it. */
  lemma {:induction false} GcdCombines(a: nat, b: nat) returns (x: int, y: int)
    requires a > 0 || b > 0
    ensures x * a + y * b == Gcd(a, b)
    decreases b
  {
    if b == 0 {
      x, y := 1, 0;
    } else {
      var x', y' := GcdCombines(b, a % b);
      assert a % b == a - (a / b) * b;
      Exchange(x', y', a, b, a / b);
      x, y := y', x' - y' * (a / b);
    }
  }

  /** Reducing the factor modulo `n` changes the product by a multiple of `d`, once `n * m` is one. */
  lemma ReducedFactor(k: int, q: int, n: int, m: int, p: int, d: int)
    requires n * m == p * d
    ensures (k - q * n) * m == k * m - (q * p) * d
  {
    assert (k - q * n) * m == k * m - (q * n) * m;
    assert (q * n) * m == q * (n * m) == q * (p * d) == (q * p) * d;
  }

  lemma Scaled(x: int, y: int, d: int, m: int, g: int, c: int)
    requires x * d + y * m == g
    ensures (y * c) * m == c * g - (c * x) * d
  {
    assert c * g == c * (x * d + y * m) == c * (x * d) + c * (y * m);
    assert c * (x * d) == (c * x) * d;
    assert c * (y * m) == (y * c) * m;
  }

  lemma IntoPeriod(k0: int, n: int) returns (k: nat, q: int)
    requires n > 0
    ensures 1 <= k <= n && k == k0 - q * n
  {
    var r := (k0 - 1) % n;
    q := (k0 - 1) / n;
    assert k0 - 1 == q * n + r;
    k := r + 1;
  }

  lemma Shifted(a: int, b: int, d: int)
    ensures (-a - b) * d == -(a * d) - b * d
  {
  }

  /** Among the first `d / g` multiples of `m` one leaves any given multiple of the divisor `g` modulo `d`. */
  lemma MultipleMet(d: nat, m: nat, n: nat, c: int) returns (k: nat, w: int)
    requires n > 0 && d > 0 && d == n * Gcd(d, m)
    ensures 1 <= k <= n && k * m - w * d == c * Gcd(d, m)
  {
    var g := Gcd(d, m);
    var x, y := GcdCombines(d, m);
    var _, p := GcdDivides(d, m);
    assert n * m == p * d by { assert n * (p * g) == p * (n * g); }
    Scaled(x, y, d, m, g, c);
    var q;
    k, q := IntoPeriod(y * c, n);
    ReducedFactor(y * c, q, n, m, p, d);
    Shifted(c * x, q * p, d);
    w := -(c * x) - q * p;
  }
}
