/**
  The heap of a running program: an allocator that only ever moves forward, vectors that
  carry their length in the first word, block copy and slices.  Addresses are words, and
  adding to an address wraps at p.
*/
module Memory {
  import opened Wrappers
  import opened Field
  import opened Arithmetic

  /** The heap begins 2 * (2^32 - 1) words below p. */
  const HEAP_START: Word := P - 2 * (TWO_32 - 1)
  const ROOM: nat := P - HEAP_START

  type Words = map<Word, Word>

  function Peek(m: Words, a: Word): Word { if a in m then m[a] else 0 }

  // ----- runs of the allocator -----

  function Sum(sizes: seq<Word>): nat {
    if sizes == [] then 0 else Sum(sizes[..|sizes| - 1]) + sizes[|sizes| - 1]
  }

  /** Where the allocator stands after giving out blocks of these sizes. */
  function Top(sizes: seq<Word>): Word {
    if sizes == [] then HEAP_START else FieldAdd(Top(sizes[..|sizes| - 1]), sizes[|sizes| - 1])
  }

  /** The address of word j of block i. */
  function WordOf(sizes: seq<Word>, i: nat, j: nat): Word
    requires i < |sizes|
  {
    (Top(sizes[..i]) + j) % P
  }

  lemma {:induction false} TopIs(sizes: seq<Word>)
    ensures Top(sizes) == (HEAP_START + Sum(sizes)) % P
  {
    if sizes == [] {
      RemainderOf(HEAP_START, 0, HEAP_START);
    } else {
      var before := sizes[..|sizes| - 1];
      TopIs(before);
      ModSum(HEAP_START + Sum(before), sizes[|sizes| - 1]);
    }
  }

  lemma ModSum(x: nat, y: nat)
    ensures (x % P + y) % P == (x + y) % P
  {
    var r := x % P + y;
    RemainderOf(r, r / P, r % P);
    assert x == x / P * P + x % P && r == r / P * P + r % P;
    assert x + y == r % P + (r / P + x / P) * P;
    RemainderOf(x + y, r / P + x / P, r % P);
  }

  lemma WordOfIs(sizes: seq<Word>, i: nat, j: nat)
    requires i < |sizes|
    ensures WordOf(sizes, i, j) == (HEAP_START + Sum(sizes[..i]) + j) % P
  {
    TopIs(sizes[..i]);
    ModSum(HEAP_START + Sum(sizes[..i]), j);
  }

  lemma {:induction false} SumPrefix(sizes: seq<Word>, i: nat)
    requires i < |sizes|
    ensures Sum(sizes[..i]) + sizes[i] <= Sum(sizes)
    decreases |sizes|
  {
    var before := sizes[..|sizes| - 1];
    if i < |sizes| - 1 {
      assert before[..i] == sizes[..i];
      SumPrefix(before, i);
    }
  }

  lemma SumsGrow(sizes: seq<Word>, i: nat, k: nat)
    requires i < k < |sizes|
    ensures Sum(sizes[..i]) + sizes[i] <= Sum(sizes[..k])
  {
    assert sizes[..k][..i] == sizes[..i];
    SumPrefix(sizes[..k], i);
  }

  /** As long as the blocks fit they lie in the heap, and no word belongs to two of them. */
  lemma BlocksDisjoint(sizes: seq<Word>, i: nat, j: nat, k: nat, l: nat)
    requires i < |sizes| && k < |sizes| && j < sizes[i] && l < sizes[k]
    requires Sum(sizes) <= ROOM
    ensures WordOf(sizes, i, j) >= HEAP_START
    ensures WordOf(sizes, i, j) == WordOf(sizes, k, l) ==> i == k && j == l
  {
    PlaceInHeap(sizes, i, j);
    PlaceInHeap(sizes, k, l);
    if i < k { SumsGrow(sizes, i, k); }
    if k < i { SumsGrow(sizes, k, i); }
  }

  lemma PlaceInHeap(sizes: seq<Word>, i: nat, j: nat)
    requires i < |sizes| && j < sizes[i] && Sum(sizes) <= ROOM
    ensures WordOf(sizes, i, j) == HEAP_START + Sum(sizes[..i]) + j
  {
    WordOfIs(sizes, i, j);
    SumPrefix(sizes, i);
    var a := HEAP_START + Sum(sizes[..i]) + j;
    RemainderOf(a, 0, a);
  }

  ghost predicate InHeap(sizes: seq<Word>) {
    forall i: nat, j: nat :: i < |sizes| && j < sizes[i] ==> WordOf(sizes, i, j) >= HEAP_START
  }

  /** The first word past the room has address zero. */
  lemma {:induction false} Overflows(sizes: seq<Word>) returns (i: nat, j: nat)
    requires Sum(sizes) > ROOM
    ensures i < |sizes| && j < sizes[i] && Sum(sizes[..i]) + j == ROOM
    decreases |sizes|
  {
    var before := sizes[..|sizes| - 1];
    if Sum(before) > ROOM {
      i, j := Overflows(before);
      assert before[..i] == sizes[..i];
    } else {
      i, j := |sizes| - 1, ROOM - Sum(before);
    }
  }

  /** Every word given out is in the heap exactly when all of them together fit. */
  lemma InHeapExactly(sizes: seq<Word>)
    ensures InHeap(sizes) <==> Sum(sizes) <= ROOM
  {
    if Sum(sizes) <= ROOM {
      forall i: nat, j: nat | i < |sizes| && j < sizes[i] ensures WordOf(sizes, i, j) >= HEAP_START {
        PlaceInHeap(sizes, i, j);
      }
    } else {
      var i, j := Overflows(sizes);
      WordOfIs(sizes, i, j);
      assert HEAP_START + Sum(sizes[..i]) + j == P;
      RemainderOf(P, 1, 0);
      assert WordOf(sizes, i, j) == 0;
    }
  }

  // ----- copying -----

  /** n words from src to dst, lowest first. */
  function Copied(m: Words, src: Word, dst: Word, n: nat): Words {
    if n == 0 then m
    else
      var m1 := Copied(m, src, dst, n - 1);
      m1[(dst + (n - 1)) % P := Peek(m1, (src + (n - 1)) % P)]
  }

  /** Copying down or between disjoint blocks moves the block and changes nothing else. */
  lemma {:induction false} CopyMoves(m: Words, src: Word, dst: Word, n: nat, a: Word)
    requires src + n <= P && dst + n <= P
    requires dst <= src || src + n <= dst
    ensures Peek(Copied(m, src, dst, n), a) == Peek(m, if dst <= a < dst + n then src + (a - dst) else a)
    decreases n
  {
    if n > 0 {
      RemainderOf(dst + (n - 1), 0, dst + (n - 1));
      RemainderOf(src + (n - 1), 0, src + (n - 1));
      CopyMoves(m, src, dst, n - 1, a);
      CopyMoves(m, src, dst, n - 1, src + (n - 1));
    }
  }

  // ----- vectors -----

  function VectorLen(m: Words, vector: Word): Word { Peek(m, vector) }

  function Contents(m: Words, vector: Word): (s: seq<Word>)
    ensures |s| == VectorLen(m, vector)
  {
    seq<Word>(VectorLen(m, vector), i requires 0 <= i => Peek(m, (vector + 1 + i) % P))
  }

  /** The three checks of a slice, on a length, a start and an end. */
  predicate SliceChecks(length: Word, start: Word, end: Word) {
    && RangeCheck(FieldSub(FieldSub(length, 1), start))
    && RangeCheck(FieldSub(length, end))
    && RangeCheck(FieldSub(end, start))
  }

  lemma Difference(x: int, y: nat)
    requires y <= x + TWO_32 && x < y + P
    ensures RangeCheck((x - y) % P) <==> 0 <= x - y < TWO_32
    ensures x >= y ==> (x - y) % P == x - y
  {
    if x >= y {
      RemainderOf(x - y, 0, x - y);
    } else {
      assert (x - y) % P == x - y + P;
    }
  }

  /** Inside the vector, and no difference too large for a u32. */
  predicate SliceInside(length: Word, start: Word, end: Word) {
    start < length <= start + TWO_32 && start <= end <= length && length < end + TWO_32 && end < start + TWO_32
  }

  /** For lengths that are u32 values the checks accept exactly the slices inside the vector. */
  lemma SliceChecksExact(length: Word, start: U32, end: Word)
    requires RangeCheck(end) || end == length
    ensures SliceChecks(length, start, end) <==> SliceInside(length, start, end)
    ensures length < TWO_32 ==> (SliceInside(length, start, end) <==> start < length && start <= end <= length)
  {
    Difference(length, end);
    Difference(end, start);
    if length == 0 {
      assert FieldSub(0, 1) == P - 1 by { assert (0 - 1) % P == P - 1; }
      RemainderOf(P - 1 - start, 0, P - 1 - start);
    } else {
      Difference(length, 1);
      Difference(length - 1, start);
    }
  }

  class Heap {
    var words: Words
    var address: Word
    ghost var used: nat

    /** `used` words have been given out so far. */
    ghost predicate Valid()
      reads this
    {
      address == (HEAP_START + used) % P
    }

    constructor ()
      ensures Valid() && used == 0 && address == HEAP_START && words == map[]
    {
      words, address, used := map[], HEAP_START, 0;
      RemainderOf(HEAP_START, 0, HEAP_START);
    }

    /** The vector lies in memory that has been given out. */
    ghost predicate Allocated(vector: Word)
      reads this
    {
      HEAP_START <= vector && vector + 1 + VectorLen(words, vector) <= HEAP_START + used
    }

    method Malloc(size: Word) returns (block: Word)
      requires Valid()
      modifies this`address, this`used
      ensures Valid() && used == old(used) + size
      ensures block == (HEAP_START + old(used)) % P
    {
      block := address;
      ModSum(HEAP_START + used, size);
      address := FieldAdd(address, size);
      used := used + size;
    }

    method VectorNew(size: Word) returns (vector: Word)
      requires Valid() && size + 1 < P
      modifies this
      ensures Valid() && used == old(used) + size + 1
      ensures vector == (HEAP_START + old(used)) % P
      ensures words == old(words)[vector := size]
    {
      vector := address;
      RemainderOf(size + 1, 0, size + 1);
      ModSum(HEAP_START + used, size + 1);
      address := FieldAdd(address, FieldAdd(size, 1));
      words := words[vector := size];
      used := used + size + 1;
    }

    method Memcpy(src: Word, dst: Word, len: Word)
      modifies this`words
      ensures words == Copied(old(words), src, dst, len)
    {
      var index: Word := 0;
      while index < len
        invariant index <= len
        invariant words == Copied(old(words), src, dst, index)
      {
        words := words[FieldAdd(dst, index) := Peek(words, FieldAdd(src, index))];
        RemainderOf(index + 1, 0, index + 1);
        index := FieldAdd(index, 1);
      }
    }

    /**
      A slice is accepted exactly when its bounds are inside.  As long as there is room for it
      in the heap it is then a fresh vector with the elements in between, and nothing given
      out before is changed.
    */
    method ArraySlice(vector: Word, start: Option<U32>, end: Option<U32>) returns (slice: Option<Word>)
      requires Valid() && Allocated(vector)
      modifies this
      ensures Valid()
      ensures
        var length := VectorLen(old(words), vector);
        var from: nat, to: nat := if start.Some? then start.value else 0, if end.Some? then end.value else length;
        && (slice.Some? <==> SliceInside(length, from, to))
        && (slice.None? ==> words == old(words) && used == old(used))
        && (slice.Some? ==>
            && used == old(used) + 1 + (to - from)
            && slice.value == (HEAP_START + old(used)) % P
            && (used <= ROOM ==>
                && slice.value == HEAP_START + old(used)
                && Allocated(slice.value)
                && Contents(words, slice.value) == Contents(old(words), vector)[from..to]))
      ensures used <= ROOM ==>
        forall a: Word :: HEAP_START <= a < HEAP_START + old(used) ==> Peek(words, a) == Peek(old(words), a)
    {
      var length := VectorLen(words, vector);
      var from: U32 := if start.Some? then start.value else 0;
      var to: Word := if end.Some? then end.value else length;
      SliceChecksExact(length, from, to);
      if !SliceChecks(length, from, to) { return None; }
      Difference(to, from);
      var copy := CopyPart(vector, from, FieldSub(to, from));
      slice := Some(copy);
    }

    /** The part of a slice after its checks. */
    method CopyPart(vector: Word, from: U32, size: Word) returns (copy: Word)
      requires Valid() && Allocated(vector) && from + size <= VectorLen(words, vector) && size + 1 < P
      modifies this
      ensures Valid() && used == old(used) + 1 + size && copy == (HEAP_START + old(used)) % P
      ensures used <= ROOM ==>
        && copy == HEAP_START + old(used) && Allocated(copy)
        && Contents(words, copy) == Contents(old(words), vector)[from..from + size]
        && forall a: Word :: HEAP_START <= a < HEAP_START + old(used) ==> Peek(words, a) == Peek(old(words), a)
    {
      hide Copied, Contents, Sum, Top;
      copy := VectorNew(size);
      var data, source := FieldAdd(copy, 1), FieldAdd(FieldAdd(vector, 1), from);
      ghost var middle := words;
      Memcpy(source, data, size);
      if used <= ROOM {
        SlicePlaces(copy, old(used), vector, from, size);
        forall a: Word
          ensures Peek(words, a) == Peek(middle, if data <= a < data + size then source + (a - data) else a)
        {
          CopyMoves(middle, source, data, size, a);
        }
        SliceContents(old(words), words, vector, from, copy, size);
      }
    }
  }

  /** Where a slice is copied to and from, when there is room. */
  lemma SlicePlaces(copy: Word, used: nat, vector: Word, from: U32, size: Word)
    requires copy == (HEAP_START + used) % P && used + size + 1 <= ROOM
    requires vector + 1 + from + size <= HEAP_START + used
    ensures copy == HEAP_START + used && FieldAdd(FieldAdd(vector, 1), from) == vector + 1 + from
    ensures FieldAdd(copy, 1) == if size == 0 && copy == P - 1 then 0 else copy + 1
  {
    RemainderOf(HEAP_START + used, 0, HEAP_START + used);
    NextWord(copy);
    NextWord(vector);
    RemainderOf(vector + 1 + from, 0, vector + 1 + from);
  }

  lemma NextWord(a: Word)
    ensures FieldAdd(a, 1) == if a + 1 < P then a + 1 else 0
  {
    if a + 1 < P { RemainderOf(a + 1, 0, a + 1); } else { RemainderOf(P, 1, 0); }
  }

  lemma SliceContents(before: Words, after: Words, vector: Word, start: nat, copy: Word, size: nat)
    requires copy + 1 + size <= P && vector + 1 + start + size <= P && start + size <= VectorLen(before, vector)
    requires VectorLen(after, copy) == size
    requires forall a: Word :: copy < a <= copy + size ==> Peek(after, a) == Peek(before, vector + start + (a - copy))
    ensures Contents(after, copy) == Contents(before, vector)[start..start + size]
  {
    forall i | 0 <= i < size ensures Contents(after, copy)[i] == Contents(before, vector)[start + i] {
      RemainderOf(copy + 1 + i, 0, copy + 1 + i);
      RemainderOf(vector + 1 + (start + i), 0, vector + 1 + (start + i));
      assert copy < copy + 1 + i <= copy + size;
    }
  }
}
