/** Integer facts the solver needs spelled out. */
module Arith {
  lemma Multiples(a: nat, b: nat, d: nat)
    requires a < b
    ensures a * d + d <= b * d
  {
    var k := b - a - 1;
    calc {
      b * d;
      (a + 1 + k) * d;
      a * d + d + k * d;
    }
    Product(k, d);
  }

  lemma Product(a: nat, b: nat)
    ensures a * b >= 0
  {
  }

  lemma QuotientMonotone(a: nat, b: nat, d: nat)
    requires d > 0 && a <= b
    ensures 0 <= a / d <= b / d
  {
    QuotientAtLeast(a, 0, d);
    assert a == (a / d) * d + a % d;
    QuotientAtLeast(b, a / d, d);
  }

  lemma QuotientAtLeast(n: nat, b: nat, d: nat)
    requires d > 0 && b * d <= n
    ensures b <= n / d
  {
    var q := n / d;
    assert n == q * d + n % d;
    if q < b {
      Multiples(q, b, d);
    }
  }

  lemma Distribute(h: nat, b: nat, p: nat)
    ensures (2 * h + b) * p == h * (2 * p) + b * p
  {
  }

  lemma DivisionUnique(n: nat, d: nat, q: nat, r: nat)
    requires d > 0 && n == q * d + r && r < d
    ensures n / d == q && n % d == r
  {
    var q', r' := n / d, n % d;
    assert n == q' * d + r';
    if q > q' { Multiples(q', q, d); }
    if q < q' { Multiples(q, q', d); }
  }

  lemma DivideTwice(n: nat, a: nat, b: nat)
    requires a > 0 && b > 0
    ensures a * b > 0 && n / a / b == n / (a * b)
  {
    var q, r := n / a, n % a;
    var q', r' := q / b, q % b;
    calc {
      n;
      q * a + r;
      { assert q == q' * b + r'; }
      (q' * b + r') * a + r;
      { Regroup(q', b, r', a); }
      q' * (a * b) + (r' * a + r);
    }
    Multiples(r', b, a);
    DivisionUnique(n, a * b, q', r' * a + r);
  }

  lemma Regroup(q: nat, b: nat, r: nat, a: nat)
    ensures (q * b + r) * a == q * (a * b) + r * a
  {
  }

  /** The last binary digit of a remainder by an even modulus. */
  lemma HalfModulus(n: nat, p: nat)
    requires p > 0
    ensures n % (2 * p) / p % 2 == n / p % 2 && n % (2 * p) % p == n % p
  {
    var q, r := n / p, n % p;
    var h, b := q / 2, q % 2;
    Distribute(h, b, p);
    assert n == h * (2 * p) + (b * p + r) by { assert q == 2 * h + b; }
    assert b * p + r < 2 * p by { assert b == 0 || b == 1; }
    DivisionUnique(n, 2 * p, h, b * p + r);
    DivisionUnique(b * p + r, p, b, r);
  }

  /** Adding to an offset split into a block number and a rest. */
  lemma SplitSum(a: nat, b: nat, d: nat)
    requires d > 0
    ensures a / d + (a % d + b) / d == (a + b) / d
    ensures (a % d + b) % d == (a + b) % d
  {
    var q, x := a / d, a % d + b;
    calc {
      a + b;
      q * d + x;
      q * d + (x / d) * d + x % d;
      (q + x / d) * d + x % d;
    }
    DivisionUnique(a + b, d, q + x / d, x % d);
  }
}
