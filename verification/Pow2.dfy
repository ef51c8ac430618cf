/** Powers of two: every size parameter of the simulator is one, so that its
    shifts and masks are division and remainder. */
module Pow2 {

  predicate IsPow2(n: nat) {
    n == 1 || (n >= 2 && n % 2 == 0 && IsPow2(n / 2))
  }

  /** C's test `(n & (n-1)) == 0`, which zero passes as well. */
  predicate PassesSizeTest(n: nat) {
    n == 0 || IsPow2(n)
  }

  /** C's test `(addr & (n-1)) == 0`: for n == 0 the mask is all ones. */
  predicate PassesAlignTest(addr: nat, n: nat) {
    if n == 0 then addr == 0 else addr % n == 0
  }

  lemma {:induction false} Divides(a: nat, b: nat)
    requires IsPow2(a) && IsPow2(b) && a <= b
    ensures b % a == 0
  {
    if a != 1 {
      Divides(a / 2, b / 2);
      var k := (b / 2) / (a / 2);
      assert b / 2 == k * (a / 2);
      assert b == k * a;
      MultipleMod(k, a);
    }
  }

  lemma MultipleMod(k: int, a: int)
    requires a > 0
    ensures (k * a) % a == 0 && (k * a) / a == k
  {
    DivModUnique(k * a, a, k, 0);
  }

  lemma MulMonotone(k: int, d: int)
    requires d > 0
    ensures k >= 1 ==> k * d >= d
    ensures k <= -1 ==> k * d <= -d
  {
    if k >= 1 {
      assert (k - 1) * d >= 0;
    } else if k <= -1 {
      assert (-k - 1) * d >= 0;
    }
  }

  lemma Distribute(a: int, b: int, d: int)
    ensures (a - b) * d == a * d - b * d
    ensures (a + b) * d == a * d + b * d
  {
  }

  lemma Assoc(a: int, b: int, d: int)
    ensures (a * b) * d == a * (b * d)
  {
  }

  /** Quotient and remainder are the only pair that fits. */
  lemma DivModUnique(x: int, d: int, q: int, r: int)
    requires d > 0 && x == q * d + r && 0 <= r < d
    ensures x / d == q && x % d == r
  {
    var q', r' := x / d, x % d;
    assert x == q' * d + r';
    Distribute(q, q', d);
    MulMonotone(q - q', d);
  }

  lemma {:induction false} Product(a: nat, b: nat)
    requires IsPow2(a) && IsPow2(b)
    ensures a * b >= 1 && IsPow2(a * b)
  {
    if a == 1 {
      assert a * b == b;
    } else {
      Product(a / 2, b);
      var h := (a / 2) * b;
      assert a * b == 2 * h by { Distribute(a / 2, -(a / 2), b); }
      assert (2 * h) / 2 == h && (2 * h) % 2 == 0;
    }
  }
}
