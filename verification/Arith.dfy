/** Facts about products, quotients and remainders that the solver needs to be told. */
module Arith {

  lemma QuotientUnique(q1: int, r1: int, q2: int, r2: int, p: nat)
    requires 0 <= r1 < p && 0 <= r2 < p && q1 * p + r1 == q2 * p + r2
    ensures q1 == q2 && r1 == r2
  {
    var d := q1 - q2;
    assert d * p == q1 * p - q2 * p;
    if d >= 1 {
      MulMono(1, d, p);
    } else if d <= -1 {
      MulMono(d, -1, p);
    }
  }

  lemma DivMod(x: int, p: nat)
    requires p >= 1
    ensures x == (x / p) * p + x % p && 0 <= x % p < p
  {
  }

  lemma DivUnique(x: int, p: nat, q: int, r: int)
    requires 0 <= r < p && x == q * p + r
    ensures x / p == q && x % p == r
  {
    DivMod(x, p);
    QuotientUnique(x / p, x % p, q, r, p);
  }

  lemma MulMono(a: int, b: int, p: nat)
    requires a <= b
    ensures a * p <= b * p
  {
  }

  /** With all digits below p, a two-digit number orders like its digits. */
  lemma Weigh(p: nat, a: int, b: nat, c: int, d: nat)
    requires b < p && d < p
    ensures a * p + b < c * p + d <==> a < c || (a == c && b < d)
    ensures a * p + b == c * p + d <==> a == c && b == d
  {
    if a < c {
      MulMono(a + 1, c, p);
      assert (a + 1) * p == a * p + p;
    } else if a > c {
      MulMono(c + 1, a, p);
      assert (c + 1) * p == c * p + p;
    }
  }

  lemma DivBound(x: int, p: nat, q: int)
    requires p >= 1
    ensures x / p < q <==> x < q * p
    ensures x >= 0 ==> x / p >= 0
  {
    DivMod(x, p);
    Weigh(p, x / p, x % p, q, 0);
    Weigh(p, x / p, x % p, 0, 0);
  }

  /** The three digits of x to the base p. */
  lemma Digits(x: nat, p: nat)
    requires p >= 1
    ensures p * p >= 1
    ensures x / (p * p) == x / p / p
    ensures x == ((x / (p * p)) * p + (x / p) % p) * p + x % p
  {
    var y := x / p;
    var z := y / p;
    DivMod(x, p);
    DivMod(y, p);
    MulMono(1, p, p);
    MulMono(0, y % p, p);
    MulMono(y % p, p - 1, p);
    DigitsSum(p, z, y % p, x % p);
    DivUnique(x, p * p, z, (y % p) * p + x % p);
  }

  lemma DigitsSum(p: nat, a: int, b: int, c: int)
    ensures (a * p + b) * p + c == a * (p * p) + (b * p + c)
    ensures (p - 1) * p == p * p - p
  {
  }

  function Pow2(n: nat): (r: nat)
    ensures r > 0
  {
    if n == 0 then 1 else 2 * Pow2(n - 1)
  }

  lemma {:induction false} Pow2Sum(m: nat, n: nat)
    ensures Pow2(m + n) == Pow2(m) * Pow2(n)
    decreases n
  {
    if n > 0 {
      Pow2Sum(m, n - 1);
      assert Pow2(m) * (2 * Pow2(n - 1)) == 2 * (Pow2(m) * Pow2(n - 1));
    }
  }
}
