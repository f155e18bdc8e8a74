/** The facts about products, quotients and powers that the other modules share. */
module Numbers {
  lemma MulMonotone(a: nat, b: nat, c: nat)
    requires a <= b
    ensures a * c <= b * c && c * a <= c * b
  {
    assert (b - a) * c >= 0;
  }

  lemma ProductMonotone(a: nat, b: nat, c: nat, d: nat)
    requires a <= b && c <= d
    ensures 0 <= a * c <= b * d
  {
    MulMonotone(a, b, c);
    MulMonotone(c, d, b);
  }

  lemma Positive(a: nat, b: nat)
    requires a > 0 && b > 0
    ensures a * b > 0
  {}

  /** A multiple of b that is not zero is at least b away from it. */
  lemma Gap(d: int, b: nat)
    ensures d >= 1 ==> d * b >= b
    ensures d <= -1 ==> d * b + b <= 0
  {
    if d >= 1 { MulMonotone(1, d, b); }
    if d <= -1 {
      MulMonotone(1, -d, b);
      assert (-d) * b == -(d * b);
    }
  }

  /** Quotient and remainder are the only pair there is. */
  lemma QuotientRemainder(n: nat, d: nat, q: nat, r: nat)
    requires n == q * d + r && r < d
    ensures n / d == q && n % d == r
  {
    var k := n / d - q;
    assert n == (n / d) * d + n % d;
    assert k * d == r - n % d;
    Gap(k, d);
  }

  function Pow(b: int, e: nat): (r: int)
    ensures b > 0 ==> r > 0
    ensures b >= 0 ==> r >= 0
  {
    if e == 0 then 1
    else
      var r := Pow(b, e - 1);
      assert b > 0 ==> r * b > 0;
      r * b
  }

  lemma {:induction false} PowSum(m: nat, n: nat)
    ensures Pow(2, m + n) == Pow(2, m) * Pow(2, n)
  {
    if n > 0 { PowSum(m, n - 1); }
  }

  lemma {:induction false} PowGrows(m: nat, n: nat)
    requires m <= n
    ensures 0 < Pow(2, m) <= Pow(2, n)
  {
    if m < n { PowGrows(m, n - 1); }
  }

  lemma PowTable()
    ensures Pow(2, 16) == 0x1_0000 && Pow(2, 31) == 0x8000_0000 && Pow(2, 32) == 0x1_0000_0000
    ensures Pow(2, 63) == 0x8000_0000_0000_0000 && Pow(2, 64) == 0x1_0000_0000_0000_0000
  {
    assert Pow(2, 3) == 8 && Pow(2, 4) == 16;
    PowSum(4, 4);
    PowSum(8, 8);
    PowSum(8, 4);
    PowSum(12, 3);
    PowSum(16, 15);
    PowSum(31, 1);
    PowSum(32, 31);
    PowSum(32, 32);
  }
}
