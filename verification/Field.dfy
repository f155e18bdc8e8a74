/**
  The word of the target machine is an element of the prime field of order
  p = 2^64 - 2^32 + 1.  Every integer of the language is carried in such a word, the
  arithmetic instructions work modulo p, and `builtin_range_check` stops the program
  unless its operand is below 2^32.
*/
module Field {
  import opened Numbers

  const P: nat := 0xFFFF_FFFF_0000_0001
  const TWO_32: nat := 0x1_0000_0000

  type Word = x: nat | x < P
  type U32 = x: nat | x < TWO_32

  function FieldAdd(l: Word, r: Word): Word { (l + r) % P }

  function FieldSub(l: Word, r: Word): Word { (l - r) % P }

  function FieldMul(l: Word, r: Word): Word { (l * r) % P }

  /** The run-time check: it passes exactly the words that are u32 values. */
  predicate RangeCheck(w: Word) { w < TWO_32 }

  /** On u32 operands the checked sum is accepted exactly when it fits, and is then exact. */
  lemma AddChecked(l: U32, r: U32)
    ensures RangeCheck(FieldAdd(l, r)) <==> l + r < TWO_32
    ensures RangeCheck(FieldAdd(l, r)) ==> FieldAdd(l, r) == l + r
  {
    assert (l + r) % P == l + r;
  }

  /** A negative difference wraps to a word far above 2^32, so the check sees it. */
  lemma SubChecked(l: U32, r: U32)
    ensures RangeCheck(FieldSub(l, r)) <==> r <= l
    ensures RangeCheck(FieldSub(l, r)) ==> FieldSub(l, r) == l - r
  {
    if r <= l {
      assert (l - r) % P == l - r;
    } else {
      assert (l - r) % P == l - r + P;
    }
  }

  /** (2^32 - 1)^2 is below p, so a product of u32 values never wraps. */
  lemma ProductBelowP(l: U32, r: U32)
    ensures 0 <= l * r < P
  {
    ProductMonotone(l, TWO_32 - 1, r, TWO_32 - 1);
    assert (TWO_32 - 1) * (TWO_32 - 1) == 0xFFFF_FFFE_0000_0001;
  }

  lemma MulChecked(l: U32, r: U32)
    ensures FieldMul(l, r) == l * r
    ensures RangeCheck(FieldMul(l, r)) <==> l * r < TWO_32
  {
    ProductBelowP(l, r);
    assert (l * r) % P == l * r;
  }
}
