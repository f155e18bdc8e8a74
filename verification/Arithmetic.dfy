/**
  The u32 routines of the core library that are more than one instruction: division and
  remainder, power, shifts, square root, and the split of a word into two halves.  Some ask
  an untrusted prophet for the answer and then check it, in the field.
*/
module Arithmetic {
  import opened Wrappers
  import opened Field
  import opened Numbers

  // ----- division -----

  /** The checks on a remainder r and a quotient q, in the order they are made. */
  predicate DivModPasses(dividend: U32, divisor: U32, r: Word, q: Word) {
    && RangeCheck(r)
    && RangeCheck(FieldSub(divisor, FieldAdd(r, 1)))
    && FieldAdd(FieldMul(q, divisor), r) == dividend
  }

  /** The range check meant for the quotient is applied to the address it is stored at. */
  method U32DivMod(dividend: U32, divisor: U32, r: Word, q: Word, quotientAddress: Word)
    returns (answer: Option<(Word, Word)>)
    ensures answer.Some? <==> DivModPasses(dividend, divisor, r, q) && RangeCheck(quotientAddress)
    ensures answer.Some? ==> answer.value == (q, r) && r < divisor
  {
    if !RangeCheck(r) { return None; }
    RemainderChecked(divisor, r);
    if !RangeCheck(FieldSub(divisor, FieldAdd(r, 1))) { return None; }
    if !RangeCheck(quotientAddress) { return None; }
    if FieldAdd(FieldMul(q, divisor), r) != dividend { return None; }
    answer := Some((q, r));
  }

  lemma RemainderChecked(divisor: U32, r: U32)
    ensures RangeCheck(FieldSub(divisor, FieldAdd(r, 1))) <==> r < divisor
  {
    assert (r + 1) % P == r + 1;
    if r < divisor {
      assert (divisor - (r + 1)) % P == divisor - (r + 1);
    } else {
      assert (divisor - (r + 1)) % P == divisor - (r + 1) + P;
    }
  }

  /** x mod p is a exactly when x is a plus a multiple of p. */
  lemma Congruent(x: nat, a: Word)
    ensures x % P == a <==> exists k: nat :: x == a + k * P
  {
    if x % P == a {
      assert x == a + (x / P) * P;
    }
    if k: nat :| x == a + k * P {
      RemainderOf(x, k, a);
    }
  }

  lemma RemainderOf(x: nat, k: nat, a: Word)
    requires x == a + k * P
    ensures x % P == a && x / P == k
  {
    QuotientRemainder(x, P, k, a);
  }

  lemma SumOfProduct(q: Word, b: U32, r: U32)
    ensures FieldAdd(FieldMul(q, b), r) == (q * b + r) % P
  {
    var x := q * b;
    assert x >= 0;
    RemainderOf(x, x / P, x % P);
    RemainderOf(x % P + r, (x % P + r) / P, (x % P + r) % P);
    assert x + r == (x % P + r) % P + ((x % P + r) / P + x / P) * P;
    RemainderOf(x + r, (x % P + r) / P + x / P, (x % P + r) % P);
  }

  /** What the checks accept: dividends of a, a + p, a + 2p, ... divided by the divisor. */
  lemma DivModAnswers(a: U32, b: U32, r: Word, q: Word)
    ensures DivModPasses(a, b, r, q) <==> r < b && exists k: nat :: q * b + r == a + k * P
  {
    if RangeCheck(r) {
      RemainderChecked(b, r);
      SumOfProduct(q, b, r);
      assert q * b >= 0;
      Congruent(q * b + r, a);
    }
  }

  /** Division by zero is never accepted, and the right answer always is. */
  lemma HonestDivision(a: U32, b: U32)
    ensures forall r, q :: !DivModPasses(a, 0, r, q)
    ensures b > 0 ==> DivModPasses(a, b, a % b, a / b)
  {
    forall r, q ensures !DivModPasses(a, 0, r, q) { DivModAnswers(a, 0, r, q); }
    if b > 0 {
      assert a / b <= a && (a / b) * b + a % b == a + 0 * P by { EuclidHere(a, b); }
      DivModAnswers(a, b, a % b, a / b);
    }
  }

  lemma EuclidHere(a: nat, b: nat)
    requires b > 0
    ensures a / b <= a && (a / b) * b + a % b == a
  {
    assert a == b * (a / b) + a % b;
    if a / b > a {
      MulMonotone(a + 1, a / b, b);
      assert (a + 1) * b == a * b + b;
      assert a * b >= a by { MulMonotone(1, b, a); }
    }
  }

  /** An accepted quotient that is a u32 is the quotient. */
  lemma SmallQuotientIsExact(a: U32, b: U32, r: Word, q: Word)
    ensures DivModPasses(a, b, r, q) && RangeCheck(q) <==> b > 0 && q == a / b && r == a % b
  {
    DivModAnswers(a, b, r, q);
    if DivModPasses(a, b, r, q) && RangeCheck(q) {
      ProductBelowP(q, b);
      SmallSum(q, b, r);
      var k: nat :| q * b + r == a + k * P;
      Gap(k, P);
      QuotientRemainder(a, b, q, r);
    }
    if b > 0 {
      HonestDivision(a, b);
      EuclidHere(a, b);
    }
  }

  lemma SmallSum(q: U32, b: U32, r: nat)
    requires r < b
    ensures q * b + r < P
  {
    MulMonotone(q, TWO_32 - 1, b);
    MulMonotone(b, TWO_32 - 1, TWO_32 - 1);
    assert (TWO_32 - 1) * b == b * (TWO_32 - 1);
    assert (TWO_32 - 1) * (TWO_32 - 1) == 0xFFFF_FFFE_0000_0001;
  }

  /** The check pins the answer down only for the divisors 0 and 1: from 2 on a second answer passes. */
  lemma DivisionIsUnique(a: U32, b: U32)
    ensures (forall r, q :: DivModPasses(a, b, r, q) ==> b > 0 && q == a / b && r == a % b) <==> b <= 1
  {
    if b >= 2 {
      var q, r := (a + P) / b, (a + P) % b;
      EuclidHere(a + P, b);
      MulMonotone(2, b, q);
      assert q < P;
      assert q * b + r == a + 1 * P;
      DivModAnswers(a, b, r, q);
      if q == a / b { EuclidHere(a, b); }
      assert DivModPasses(a, b, r, q);
    } else {
      forall r: Word, q: Word | DivModPasses(a, b, r, q) ensures b > 0 && q == a / b && r == a % b {
        DivModAnswers(a, b, r, q);
        var k: nat :| q * b + r == a + k * P;
        Gap(k, P);
      }
    }
  }

  // ----- power -----

  /** One multiplication per round, in the field, and one range check at the end. */
  method U32Power(base: U32, exponent: U32) returns (r: Option<Word>)
    ensures r == if RangeCheck(Pow(base, exponent) % P) then Some(Pow(base, exponent) % P) else None
  {
    var counter, result: Word := 0, 1;
    var next := FieldAdd(counter, 1);
    assert next == 1 by { assert 1 % P == 1; }
    while next <= exponent
      invariant counter <= exponent && next == counter + 1
      invariant result == Pow(base, counter) % P
      decreases exponent - counter
    {
      ProductMod(Pow(base, counter), base);
      result := FieldMul(result, base);
      counter := next;
      next := FieldAdd(counter, 1);
      assert (counter + 1) % P == counter + 1;
    }
    if !RangeCheck(result) { return None; }
    r := Some(result);
  }

  lemma ProductMod(x: nat, b: nat)
    ensures ((x % P) * b) % P == (x * b) % P
  {
    var y := (x % P) * b;
    assert x == x / P * P + x % P;
    assert x * b == (x / P * P) * b + y;
    assert (x / P * P) * b == (x / P * b) * P;
    assert x * b >= 0 && y >= 0 && x / P * b >= 0;
    RemainderOf(y, y / P, y % P);
    assert x * b == y % P + (y / P + x / P * b) * P;
    RemainderOf(x * b, y / P + x / P * b, y % P);
  }

  /** Below p the loop computes the power, and the check is exact. */
  lemma PowerExact(base: U32, exponent: U32)
    requires Pow(base, exponent) < P
    ensures Pow(base, exponent) % P == Pow(base, exponent)
    ensures RangeCheck(Pow(base, exponent) % P) <==> Pow(base, exponent) < TWO_32
  {
    RemainderOf(Pow(base, exponent), 0, Pow(base, exponent));
  }

  // ----- powers of two -----

  /** 2^r in the field. */
  function PowTwo(r: nat): Word { Pow(2, r) % P }

  lemma PowTwoSum(m: nat, n: nat)
    ensures PowTwo(m + n) == FieldMul(PowTwo(m), PowTwo(n))
  {
    PowSum(m, n);
    ProductMod(Pow(2, m), Pow(2, n));
    ProductMod(Pow(2, n), PowTwo(m));
    assert PowTwo(m) * Pow(2, n) == Pow(2, n) * PowTwo(m) && PowTwo(n) * PowTwo(m) == PowTwo(m) * PowTwo(n);
  }

  /** p divides 2^64 - 2^32 + 1, so 2^64 is 2^32 - 1, 2^96 is -1 and 2^192 is 1. */
  lemma PowTwoTable()
    ensures PowTwo(32) == TWO_32 && PowTwo(64) == TWO_32 - 1 && PowTwo(96) == P - 1 && PowTwo(192) == 1
  {
    PowTable();
    PowTwoSum(32, 32);
    PowTwoSum(64, 32);
    PowTwoSum(96, 96);
    assert (TWO_32 * TWO_32) % P == TWO_32 - 1;
    assert ((TWO_32 - 1) * TWO_32) % P == P - 1;
    assert ((P - 1) * (P - 1)) % P == 1 by {
      assert (P - 1) * (P - 1) == 1 + (P - 2) * P;
      RemainderOf((P - 1) * (P - 1), P - 2, 1);
    }
  }

  lemma {:induction false} PowTwoPeriod(r: nat)
    ensures PowTwo(r) == PowTwo(r % 192)
  {
    hide Pow, PowTwo;
    if r >= 192 {
      PowTwoPeriod(r - 192);
      PowTwoTable();
      PowTwoSum(r - 192, 192);
      assert PowTwo(r - 192) * 1 == PowTwo(r - 192);
      assert (r - 192) % 192 == r % 192;
    }
  }

  lemma PowTwoBelow64(s: nat)
    requires s < 64
    ensures PowTwo(s) == Pow(2, s) && (PowTwo(s) < TWO_32 <==> s < 32) && 0 < PowTwo(s) <= 0x8000_0000_0000_0000
  {
    PowTable();
    PowGrows(s, 63);
    RemainderOf(Pow(2, s), 0, Pow(2, s));
    if s < 32 { PowGrows(s, 31); } else { PowGrows(32, s); }
  }

  lemma PowTwoBelow96(s: nat)
    requires 64 <= s < 96
    ensures PowTwo(s) == (TWO_32 - 1) * Pow(2, s - 64)
    ensures (PowTwo(s) < TWO_32 <==> s == 64) && 0 < PowTwo(s) <= 0x8000_0000_0000_0000
  {
    var j := s - 64;
    PowTwoTable();
    PowTable();
    PowTwoBelow64(j);
    PowTwoSum(64, j);
    PowGrows(j, 31);
    MulMonotone(Pow(2, j), 0x8000_0000, TWO_32 - 1);
    var x: nat := (TWO_32 - 1) * Pow(2, j);
    RemainderOf(x, 0, x);
    if j > 0 {
      PowGrows(1, j);
      MulMonotone(2, Pow(2, j), TWO_32 - 1);
    }
  }

  lemma PowTwoAbove96(s: nat)
    requires 96 <= s < 192
    ensures PowTwo(s) == P - PowTwo(s - 96) && !RangeCheck(PowTwo(s))
  {
    hide Pow, PowTwo;
    PowTwoTable();
    var w := PowTwo(s - 96);
    if s - 96 < 64 { PowTwoBelow64(s - 96); } else { PowTwoBelow96(s - 96); }
    PowTwoSum(s - 96, 96);
    Negated(w);
  }

  lemma Negated(w: Word)
    requires w > 0
    ensures FieldMul(w, P - 1) == P - w
  {
    assert w * (P - 1) == (P - w) + (w - 1) * P;
    RemainderOf(w * (P - 1), w - 1, P - w);
  }

  /** Which shift amounts get past the range check on the power of two. */
  lemma PowTwoAccepted(r: nat)
    ensures RangeCheck(PowTwo(r)) <==> r % 192 < 32 || r % 192 == 64
    ensures r % 192 < 32 ==> PowTwo(r) == Pow(2, r % 192)
    ensures r % 192 == 64 ==> PowTwo(r) == TWO_32 - 1
  {
    hide Pow, PowTwo;
    PowTwoPeriod(r);
    var s := r % 192;
    if s < 64 {
      PowTwoBelow64(s);
    } else if s < 96 {
      PowTwoBelow96(s);
      if s == 64 { PowTwoTable(); }
    } else {
      PowTwoAbove96(s);
    }
  }

  // ----- shifts -----

  method ShiftLeft(l: U32, r: U32) returns (x: Option<Word>)
    ensures x.Some? <==> RangeCheck(PowTwo(r)) && l * PowTwo(r) < TWO_32
    ensures x.Some? ==> x.value == l * PowTwo(r)
  {
    var power := U32Power(2, r);
    if power.None? { return None; }
    MulChecked(l, power.value);
    var product := FieldMul(l, power.value);
    if !RangeCheck(product) { return None; }
    x := Some(product);
  }

  /** By less than 32 the product is the true one; by 32 to 63 the power of two is always rejected. */
  lemma ShiftLeftSmall(l: U32, r: U32)
    requires r < 64
    ensures RangeCheck(PowTwo(r)) <==> r < 32
    ensures l * PowTwo(r) == l * Pow(2, r)
  {
    PowTwoBelow64(r);
  }

  /** From 64 on what is accepted is never the true result, except for zero. */
  lemma ShiftLeftLarge(l: U32, r: U32)
    requires r >= 64 && RangeCheck(PowTwo(r))
    ensures l * PowTwo(r) == l * Pow(2, r) <==> l == 0
  {
    var w, x := PowTwo(r), Pow(2, r);
    PowTable();
    PowGrows(63, r);
    assert w < x;
    Gap(l, x - w);
    assert l * (x - w) == l * x - l * w;
  }

  method ShiftRight(l: U32, r: U32, rem: Word, quot: Word, quotientAddress: Word) returns (x: Option<Word>)
    ensures x.Some? ==> x.value == quot && RangeCheck(PowTwo(r)) && DivModPasses(l, PowTwo(r), rem, quot)
    ensures x.Some? && RangeCheck(quot) ==> PowTwo(r) > 0 && x.value == l / PowTwo(r)
    ensures x.None? ==> !RangeCheck(PowTwo(r)) || !RangeCheck(quotientAddress) || !DivModPasses(l, PowTwo(r), rem, quot)
  {
    var power := U32Power(2, r);
    if power.None? { return None; }
    var answer := U32DivMod(l, power.value, rem, quot, quotientAddress);
    if answer.None? { return None; }
    SmallQuotientIsExact(l, power.value, rem, quot);
    x := Some(answer.value.0);
  }

  /**
    Which right shifts get past the check on the power, and when what the honest prophet then
    answers is the shifted operand: always below 64, and from 64 on only for operands below
    the power as the field sees it.
  */
  lemma ShiftRightExact(l: U32, r: U32)
    ensures RangeCheck(PowTwo(r)) <==> r % 192 < 32 || r % 192 == 64
    ensures RangeCheck(PowTwo(r)) ==>
      && PowTwo(r) > 0
      && DivModPasses(l, PowTwo(r), l % PowTwo(r), l / PowTwo(r))
      && (l / PowTwo(r) == l / Pow(2, r) <==> r < 64 || l < PowTwo(r))
  {
    hide Pow, PowTwo, DivModPasses;
    PowTwoAccepted(r);
    if RangeCheck(PowTwo(r)) {
      PowTwoPositive(r);
      HonestDivision(l, PowTwo(r));
      if r < 64 {
        PowTwoBelow64(r);
      } else {
        ShiftedOut(l, r);
        SmallDividend(l, PowTwo(r));
      }
    }
  }

  lemma PowTwoPositive(r: nat)
    requires RangeCheck(PowTwo(r))
    ensures PowTwo(r) > 0
  {
    hide Pow, PowTwo;
    PowTwoAccepted(r);
    if r % 192 < 32 { PowGrows(0, r % 192); }
  }

  lemma ShiftedOut(l: U32, r: nat)
    requires r >= 64
    ensures Pow(2, r) > 0 && l / Pow(2, r) == 0
  {
    hide Pow;
    PowTable();
    PowGrows(63, r);
    SmallDividend(l, Pow(2, r));
  }

  lemma SmallDividend(l: nat, d: nat)
    requires d > 0
    ensures l / d == 0 <==> l < d
  {
    if l < d { QuotientRemainder(l, d, 0, l); } else { assert l == (l / d) * d + l % d; }
  }

  /** By 192 the operand is not shifted at all, and by 64 the largest one gives 1. */
  lemma ShiftRightGoesWrong(l: U32)
    requires l > 0
    ensures RangeCheck(PowTwo(192)) && DivModPasses(l, PowTwo(192), 0, l) && l / Pow(2, 192) == 0
    ensures RangeCheck(PowTwo(64)) && DivModPasses(TWO_32 - 1, PowTwo(64), 0, 1) && (TWO_32 - 1) / Pow(2, 64) == 0
  {
    hide Pow, PowTwo, DivModPasses;
    PowTwoTable();
    HonestDivision(l, 1);
    HonestDivision(TWO_32 - 1, TWO_32 - 1);
    ShiftedOut(l, 192);
    ShiftedOut(TWO_32 - 1, 64);
  }

  // ----- square root -----

  predicate SqrtPasses(value: Word, root: Word) {
    RangeCheck(root) && FieldMul(root, root) == value
  }

  /** A root is accepted exactly when it is the exact one, so only perfect squares have any. */
  lemma SqrtExact(value: Word, root: Word)
    ensures SqrtPasses(value, root) <==> root < TWO_32 && root * root == value
  {
    if root < TWO_32 { MulChecked(root, root); }
  }

  lemma SqrtUnique(value: Word, root: Word, other: Word)
    requires SqrtPasses(value, root) && SqrtPasses(value, other)
    ensures root == other
  {
    SqrtExact(value, root);
    SqrtExact(value, other);
    if root < other { SquaresGrow(root, other); }
    if other < root { SquaresGrow(other, root); }
  }

  lemma SquaresGrow(x: nat, y: nat)
    requires x < y
    ensures x * x < y * y
  {
    MulMonotone(x, y, x);
    MulMonotone(x + 1, y, y);
    assert (x + 1) * y == x * y + y && x * y == y * x;
  }

  // ----- splitting a word -----

  predicate SplitPasses(x: Word, high: Word, low: Word) {
    RangeCheck(high) && RangeCheck(low) && FieldAdd(FieldMul(high, TWO_32), low) == x
  }

  /** The accepted pairs are the digits of x and, where they fit, those of x + p. */
  lemma SplitAnswers(x: Word, high: Word, low: Word)
    ensures SplitPasses(x, high, low) <==>
            high < TWO_32 && low < TWO_32 && (high * TWO_32 + low == x || high * TWO_32 + low == x + P)
  {
    if high < TWO_32 && low < TWO_32 {
      var n := high * TWO_32;
      RemainderOf(n, n / P, n % P);
      RemainderOf(n % P + low, (n % P + low) / P, (n % P + low) % P);
      assert n + low == (n % P + low) % P + ((n % P + low) / P + n / P) * P;
      RemainderOf(n + low, (n % P + low) / P + n / P, (n % P + low) % P);
      assert SplitPasses(x, high, low) <==> (n + low) % P == x;
      assert n + low < 2 * P;
      if n + low >= P { RemainderOf(n + low, 1, n + low - P); } else { RemainderOf(n + low, 0, n + low); }
    }
  }

  /** The honest halves always pass, and nothing else does exactly when x is at least 2^32 - 1. */
  lemma SplitUnique(x: Word)
    ensures SplitPasses(x, x / TWO_32, x % TWO_32)
    ensures (forall high, low :: SplitPasses(x, high, low) ==> high == x / TWO_32 && low == x % TWO_32) <==>
            x >= TWO_32 - 1
  {
    SplitAnswers(x, x / TWO_32, x % TWO_32);
    if x >= TWO_32 - 1 {
      forall high, low | SplitPasses(x, high, low) ensures high == x / TWO_32 && low == x % TWO_32 {
        SplitAnswers(x, high, low);
      }
    } else {
      var y := x + P;
      SplitAnswers(x, y / TWO_32, y % TWO_32);
      assert SplitPasses(x, y / TWO_32, y % TWO_32);
    }
  }

  // ----- operations on one operand -----

  /** The bitwise complement is a checked subtraction from the largest u32, and is never rejected. */
  lemma BitwiseNotExact(x: U32)
    ensures RangeCheck(FieldSub(TWO_32 - 1, x)) && FieldSub(TWO_32 - 1, x) == TWO_32 - 1 - x
  {
    SubChecked(TWO_32 - 1, x);
  }

  /** `++` and `--` are not followed by a check: at the ends of the range they leave it. */
  lemma IncrementLeavesRange(x: U32)
    ensures RangeCheck(FieldAdd(x, 1)) <==> x < TWO_32 - 1
    ensures RangeCheck(FieldSub(x, 1)) <==> x > 0
    ensures x == TWO_32 - 1 ==> FieldAdd(x, 1) == TWO_32
    ensures x == 0 ==> FieldSub(x, 1) == P - 1
  {
    AddChecked(x, 1);
    SubChecked(x, 1);
    assert (TWO_32 - 1 + 1) % P == TWO_32 && (0 - 1) % P == P - 1;
  }
}
