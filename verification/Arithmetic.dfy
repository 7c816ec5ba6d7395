/** Division facts the solver does not find by itself. */
module Arithmetic {

  lemma MultipleBounds(n: nat, d: int)
    ensures d >= 1 ==> n * d >= n
    ensures d <= -1 ==> n * d <= 0 - n
  {
  }

  lemma DivisionIs(x: int, n: nat, q: int, r: nat)
    requires n > 0 && x == n * q + r && r < n
    ensures x / n == q && x % n == r
  {
    var q', r' := x / n, x % n;
    assert x == n * q' + r';
    assert n * (q' - q) == r - r';
    MultipleBounds(n, q' - q);
  }

  lemma DivideTwice(n: nat, a: nat, b: nat)
    requires a > 0 && b > 0
    ensures n / a / b == n / (a * b)
  {
    DivideKnown(n, a, b, n / a, n % a, n / a / b, n / a % b);
  }

  lemma DivideKnown(n: nat, a: nat, b: nat, q: nat, r: nat, q': nat, r': nat)
    requires r < a && r' < b && n == a * q + r && q == b * q' + r'
    ensures a * b > 0 && n / (a * b) == q'
  {
    Regroup(a, b, q', r', r);
    DivisionIs(n, a * b, q', a * r' + r);
  }

  lemma Regroup(a: nat, b: nat, q: nat, s: nat, r: nat)
    requires s < b && r < a
    ensures a * (b * q + s) + r == (a * b) * q + (a * s + r)
    ensures a * s + r < a * b && a * b > 0
  {
    assert a * (b * q + s) == a * (b * q) + a * s;
    assert a * (b * q) == (a * b) * q;
    var d := b - 1 - s;
    assert a * b == a * s + a * d + a by {
      assert b == s + d + 1;
    }
    assert a * d >= 0;
  }
}
