/** Remainders by a positive divisor that is not a constant: the facts every ring index needs. */
module Modular {

  lemma QuotientRemainder(a: nat, n: nat, q: nat, r: nat)
    requires n > 0 && r < n && a == n * q + r
    ensures a % n == r
  {
    var d := a / n - q;
    assert a == n * (a / n) + a % n;
    assert n * d == r - a % n by {
      assert n * (a / n) - n * q == n * d;
    }
    MultipleBound(n, d);
  }

  lemma MultipleBound(n: nat, d: int)
    requires n > 0
    ensures d >= 1 ==> n * d >= n
    ensures d <= -1 ==> n * d + n <= 0
  {
  }

  lemma NextIndexMod(a: nat, n: nat)
    requires n > 0
    ensures (a + 1) % n == if a % n + 1 < n then a % n + 1 else 0
  {
    var q, r := a / n, a % n;
    assert a == n * q + r;
    if r + 1 < n {
      QuotientRemainder(a + 1, n, q, r + 1);
    } else {
      assert n * (q + 1) == n * q + n;
      QuotientRemainder(a + 1, n, q + 1, 0);
    }
  }

  lemma AddModulus(a: nat, n: nat)
    requires n > 0
    ensures (a + n) % n == a % n
  {
    assert a == n * (a / n) + a % n;
    assert n * (a / n + 1) == n * (a / n) + n;
    QuotientRemainder(a + n, n, a / n + 1, a % n);
  }

  /** Two numbers less than n apart have different remainders. */
  lemma RemaindersDiffer(a: nat, b: nat, n: nat)
    requires a < b < a + n
    ensures a % n != b % n
  {
    var d := b / n - a / n;
    assert a == n * (a / n) + a % n;
    assert b == n * (b / n) + b % n;
    assert b - a == n * d + (b % n - a % n) by {
      assert n * (b / n) - n * (a / n) == n * d;
    }
    MultipleBound(n, d);
  }

  /** Stepping a reduced index is reducing the stepped one. */
  lemma StepRemainder(a: nat, n: nat)
    requires n > 0
    ensures (a % n + 1) % n == (a + 1) % n
  {
    NextIndexMod(a, n);
    if a % n + 1 < n {
      QuotientRemainder(a % n + 1, n, 0, a % n + 1);
    } else {
      QuotientRemainder(n, n, 1, 0);
    }
  }

  /** Adding to a reduced number and reducing again is reducing the sum. */
  lemma AddWraps(x: nat, d: nat, n: nat)
    requires n > 0
    ensures (x % n + d) % n == (x + d) % n
  {
    var q, p := x / n, (x % n + d) / n;
    assert n * (q + p) == n * q + n * p;
    QuotientRemainder(x + d, n, q + p, (x % n + d) % n);
  }

  lemma SmallRemainder(a: nat, n: nat)
    requires a < n
    ensures a % n == a
  {
    QuotientRemainder(a, n, 0, a);
  }
}
