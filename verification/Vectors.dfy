/**
  Contract storage is a map from keys to cells of four words.  A key is the number of a slot
  or an offset from the hash of another key, which is where the elements of a dynamic array
  or string at that key live; the cell at the key itself holds the length.

  The functions below say what each storage operation leaves behind; the class `Storage`
  performs the operations step by step and is proved to compute them.
*/
module Vectors {
  import opened Wrappers
  import opened Field

  datatype Key = Base(slot: nat) | Hashed(of: Key, offset: nat) {
    function Plus(n: nat): Key {
      match this
      case Base(s) => Base(s + n)
      case Hashed(k, o) => Hashed(k, o + n)
    }

    function Depth(): nat {
      match this
      case Base(_) => 0
      case Hashed(k, _) => k.Depth() + 1
    }
  }

  datatype Cell = Cell(w0: Word, w1: Word, w2: Word, low: Word)

  const EMPTY: Cell := Cell(0, 0, 0, 0)

  function FromWord(w: Word): Cell { Cell(0, 0, 0, w) }

  /** The words of a vector in memory; its length is a word too. */
  type Vector = v: seq<Word> | |v| < P

  /** Keys that were never written hold four zeros. */
  type Cells = map<Key, Cell>

  function Read(c: Cells, k: Key): Cell { if k in c then c[k] else EMPTY }

  function Length(c: Cells, slot: Key): Word { Read(c, slot).low }

  function Contents(c: Cells, slot: Key): (s: Vector)
    ensures |s| == Length(c, slot)
  {
    seq(Length(c, slot), i requires 0 <= i => Read(c, Hashed(slot, i)).low)
  }

  /** The key of an element of the vector at `slot` whose index is in [from, to). */
  predicate ElementIn(k: Key, slot: Key, from: nat, to: nat) {
    k.Hashed? && k.of == slot && from <= k.offset < to
  }

  /** The elements from index `from` on set to v, one after the other. */
  function Fill(c: Cells, slot: Key, from: nat, v: seq<Word>): (r: Cells)
    ensures forall k ::
              Read(r, k) ==
              if ElementIn(k, slot, from, from + |v|) then FromWord(v[k.offset - from]) else Read(c, k)
  {
    if v == [] then c
    else Fill(c, slot, from, v[..|v| - 1])[Hashed(slot, from + |v| - 1) := FromWord(v[|v| - 1])]
  }

  /** Writing the next element extends the filled part by it. */
  lemma FillOneMore(c: Cells, slot: Key, from: nat, v: seq<Word>, w: Word)
    ensures Fill(c, slot, from, v + [w]) == Fill(c, slot, from, v)[Hashed(slot, from + |v|) := FromWord(w)]
  {
    assert (v + [w])[..|v|] == v;
  }

  lemma ZeroOneMore(n: nat)
    ensures Zeros(n + 1) == Zeros(n) + [0]
  {}

  function Zeros(n: nat): (v: seq<Word>)
    ensures |v| == n
  {
    seq(n, _ => 0)
  }

  /** How many elements of the old vector a vector of n elements does not overwrite. */
  function Tail(c: Cells, slot: Key, n: nat): nat {
    if Length(c, slot) > n then Length(c, slot) - n else 0
  }

  function WriteVector(c: Cells, slot: Key, v: Vector): Cells
  {
    Fill(Fill(c[slot := FromWord(|v|)], slot, 0, v), slot, |v|, Zeros(Tail(c, slot, |v|)))
  }

  function DeleteVector(c: Cells, slot: Key): Cells {
    Fill(c, slot, 0, Zeros(Length(c, slot)))[slot := EMPTY]
  }

  /** Deleting a string clears its length and nothing else. */
  function EraseText(c: Cells, slot: Key): Cells { c[slot := EMPTY] }

  function PushVector(c: Cells, slot: Key, x: Option<Word>): Cells {
    var n := Length(c, slot);
    (if x.Some? then c[Hashed(slot, n) := FromWord(x.value)] else c)[slot := FromWord(FieldAdd(n, 1))]
  }

  /** Pop reads the element after the last one and clears the one after that. */
  function PopVector(c: Cells, slot: Key): Cells {
    var n := Length(c, slot);
    c[Hashed(slot, n + 1) := EMPTY][slot := FromWord(FieldSub(n, 1))]
  }

  function Popped(c: Cells, slot: Key): Word {
    Read(c, Hashed(slot, Length(c, slot))).low
  }

  // ----- one operation -----

  /** What was written is read back, whatever was there before. */
  lemma WriteRead(c: Cells, slot: Key, v: Vector)
    ensures Contents(WriteVector(c, slot, v), slot) == v
  {
    var r := WriteVector(c, slot, v);
    NotItsOwnElement(slot);
    assert Length(r, slot) == |v|;
    forall i | 0 <= i < |v| ensures Read(r, Hashed(slot, i)).low == v[i] {}
  }

  lemma NotItsOwnElement(slot: Key)
    ensures forall i :: Hashed(slot, i) != slot
  {
    forall i ensures Hashed(slot, i) != slot { assert Hashed(slot, i).Depth() == slot.Depth() + 1; }
  }

  /** Only the slot and its elements below both lengths are touched. */
  lemma WriteFrame(c: Cells, slot: Key, v: Vector, k: Key)
    requires k != slot && !ElementIn(k, slot, 0, if |v| > Length(c, slot) then |v| else Length(c, slot))
    ensures Read(WriteVector(c, slot, v), k) == Read(c, k)
  {}

  /** Every element at or past the current length is zero. */
  ghost predicate Clean(c: Cells, slot: Key) {
    forall i: nat :: i >= Length(c, slot) ==> Read(c, Hashed(slot, i)) == EMPTY
  }

  /** The cursor left behind by the copying loop is where the clearing loop has to start. */
  lemma WriteKeepsClean(c: Cells, slot: Key, v: Vector)
    requires Clean(c, slot)
    ensures Clean(WriteVector(c, slot, v), slot)
  {
    NotItsOwnElement(slot);
    var r := WriteVector(c, slot, v);
    assert Length(r, slot) == |v|;
    forall i: nat | i >= |v| ensures Read(r, Hashed(slot, i)) == EMPTY {
      if i < |v| + Tail(c, slot, |v|) {
        assert ElementIn(Hashed(slot, i), slot, |v|, |v| + Tail(c, slot, |v|));
      } else {
        assert !ElementIn(Hashed(slot, i), slot, 0, |v|);
      }
    }
  }

  /** A deleted array is empty and leaves nothing behind; a deleted string leaves what it held. */
  lemma DeleteEmpties(c: Cells, slot: Key)
    ensures Contents(DeleteVector(c, slot), slot) == Contents(EraseText(c, slot), slot) == []
    ensures Clean(c, slot) ==> Clean(DeleteVector(c, slot), slot)
    ensures Clean(c, slot) ==>
      (Clean(EraseText(c, slot), slot) <==> forall i :: 0 <= i < Length(c, slot) ==> Read(c, Hashed(slot, i)) == EMPTY)
  {
    NotItsOwnElement(slot);
    var d, e := DeleteVector(c, slot), EraseText(c, slot);
    assert Length(d, slot) == Length(e, slot) == 0;
    forall i: nat ensures Read(e, Hashed(slot, i)) == Read(c, Hashed(slot, i)) {}
    if Clean(c, slot) {
      forall i: nat ensures Read(d, Hashed(slot, i)) == EMPTY {
        assert ElementIn(Hashed(slot, i), slot, 0, Length(c, slot)) <==> i < Length(c, slot);
      }
    }
  }

  /** Push appends its argument; without one it appends whatever the next cell holds. */
  lemma PushAppends(c: Cells, slot: Key, x: Option<Word>)
    requires Length(c, slot) + 1 < P
    ensures Contents(PushVector(c, slot, x), slot) == Contents(c, slot) + [if x.Some? then x.value else Popped(c, slot)]
    ensures Clean(c, slot) ==> Clean(PushVector(c, slot, x), slot) && Popped(c, slot) == 0
  {
    NotItsOwnElement(slot);
    var n, r := Length(c, slot), PushVector(c, slot, x);
    assert Length(r, slot) == n + 1;
    forall i | 0 <= i < n ensures Read(r, Hashed(slot, i)) == Read(c, Hashed(slot, i)) {}
  }

  /** Pop shortens a non-empty array by one, but leaves the last element in its cell. */
  lemma PopShortens(c: Cells, slot: Key)
    requires Length(c, slot) > 0
    ensures
      var n := Length(c, slot);
      && Contents(PopVector(c, slot), slot) == Contents(c, slot)[..n - 1]
      && (Clean(c, slot) ==> (Clean(PopVector(c, slot), slot) <==> Read(c, Hashed(slot, n - 1)) == EMPTY))
  {
    NotItsOwnElement(slot);
    var n: nat := Length(c, slot);
    var r := PopVector(c, slot);
    assert Length(r, slot) == n - 1;
    forall i: nat | i != n + 1 ensures Read(r, Hashed(slot, i)) == Read(c, Hashed(slot, i)) {}
  }

  /** On an array with nothing past its end, pop returns the last element exactly when that is zero. */
  lemma PopReturnsLast(c: Cells, slot: Key)
    requires Clean(c, slot) && Length(c, slot) > 0
    ensures Popped(c, slot) == Contents(c, slot)[Length(c, slot) - 1] <==> Contents(c, slot)[Length(c, slot) - 1] == 0
  {
    assert Read(c, Hashed(slot, Length(c, slot))) == EMPTY;
  }

  /** On an empty array it leaves the largest length there is. */
  lemma PopOfEmpty(c: Cells, slot: Key)
    requires Length(c, slot) == 0
    ensures Length(PopVector(c, slot), slot) == P - 1
  {
    assert FieldSub(0, 1) == (0 - 1 + P) % P;
  }

  // ----- runs of operations -----

  datatype Op =
    | Write(v: Vector)
    | Push(x: Word)
    | PushDefault
    | Pop
    | Delete

  function Apply(c: Cells, slot: Key, op: Op): Cells
  {
    match op
    case Write(v) => WriteVector(c, slot, v)
    case Push(x) => PushVector(c, slot, Some(x))
    case PushDefault => PushVector(c, slot, None)
    case Pop => PopVector(c, slot)
    case Delete => DeleteVector(c, slot)
  }

  /** The same operation on a plain sequence, where a default element is zero. */
  function OnSequence(s: seq<Word>, op: Op): seq<Word>
    requires Allowed(s, op)
  {
    match op
    case Write(v) => v
    case Push(x) => s + [x]
    case PushDefault => s + [0]
    case Pop => s[..|s| - 1]
    case Delete => []
  }

  /** The array is not popped when empty and stays shorter than the field is large. */
  predicate Allowed(s: seq<Word>, op: Op) {
    match op
    case Write(_) => true
    case Push(_) | PushDefault => |s| + 1 < P
    case Pop => s != []
    case Delete => true
  }

  predicate AllowedRun(s: seq<Word>, ops: seq<Op>)
    decreases |ops|
  {
    ops == [] || (Allowed(s, ops[0]) && AllowedRun(OnSequence(s, ops[0]), ops[1..]))
  }

  function Replay(s: seq<Word>, ops: seq<Op>): seq<Word>
    requires AllowedRun(s, ops)
    decreases |ops|
  {
    if ops == [] then s else Replay(OnSequence(s, ops[0]), ops[1..])
  }

  function ApplyAll(c: Cells, slot: Key, ops: seq<Op>): Cells
    decreases |ops|
  {
    if ops == [] then c else ApplyAll(Apply(c, slot, ops[0]), slot, ops[1..])
  }

  lemma OneOp(c: Cells, slot: Key, op: Op)
    requires Allowed(Contents(c, slot), op)
    requires op.PushDefault? ==> Clean(c, slot)
    ensures Contents(Apply(c, slot, op), slot) == OnSequence(Contents(c, slot), op)
    ensures Clean(c, slot) && !op.Pop? ==> Clean(Apply(c, slot, op), slot)
  {
    match op
    case Write(v) =>
      WriteRead(c, slot, v);
      if Clean(c, slot) { WriteKeepsClean(c, slot, v); }
    case Push(x) => PushAppends(c, slot, Some(x));
    case PushDefault => PushAppends(c, slot, None);
    case Pop => PopShortens(c, slot);
    case Delete => DeleteEmpties(c, slot);
  }

  /** No operation changes anything but the slot of the array and its elements. */
  lemma OpFrame(c: Cells, slot: Key, op: Op, k: Key)
    requires k != slot && !(k.Hashed? && k.of == slot)
    ensures Read(Apply(c, slot, op), k) == Read(c, k)
  {}

  /** And so no run does. */
  lemma {:induction false} RunFrame(c: Cells, slot: Key, ops: seq<Op>, k: Key)
    requires k != slot && !(k.Hashed? && k.of == slot)
    ensures Read(ApplyAll(c, slot, ops), k) == Read(c, k)
    decreases |ops|
  {
    if ops != [] {
      OpFrame(c, slot, ops[0], k);
      RunFrame(Apply(c, slot, ops[0]), slot, ops[1..], k);
    }
  }

  /**
    Over every run the array in storage is the sequence: from any storage if no element is
    pushed by default, and from clean storage if none is popped, which also stays clean.
  */
  lemma {:induction false} RunRefinesSequence(c: Cells, slot: Key, ops: seq<Op>)
    requires AllowedRun(Contents(c, slot), ops)
    requires PushDefault !in ops || (Pop !in ops && Clean(c, slot))
    ensures Contents(ApplyAll(c, slot, ops), slot) == Replay(Contents(c, slot), ops)
    ensures Pop !in ops && Clean(c, slot) ==> Clean(ApplyAll(c, slot, ops), slot)
    decreases |ops|
  {
    if ops != [] {
      OneOp(c, slot, ops[0]);
      RunRefinesSequence(Apply(c, slot, ops[0]), slot, ops[1..]);
    }
  }

  // ----- what pops leave behind -----

  /**
    The array together with the cells past its end, as far as they may be non-zero: the first
    entry of `tail` is the cell a push without an argument would take over.
  */
  datatype Shadow = Shadow(s: Vector, tail: seq<Word>)

  function Drop(tail: seq<Word>, n: nat): seq<Word> {
    if n < |tail| then tail[n..] else []
  }

  function TailAt(tail: seq<Word>, i: nat): Word { if i < |tail| then tail[i] else 0 }

  function ShadowStep(h: Shadow, op: Op): Shadow
    requires Allowed(h.s, op)
  {
    match op
    case Write(v) =>
      Shadow(v, if |v| <= |h.s| then Zeros(|h.s| - |v|) + h.tail else Drop(h.tail, |v| - |h.s|))
    case Push(x) => Shadow(h.s + [x], Drop(h.tail, 1))
    case PushDefault => Shadow(h.s + [TailAt(h.tail, 0)], Drop(h.tail, 1))
    case Pop => Shadow(h.s[..|h.s| - 1], [h.s[|h.s| - 1], TailAt(h.tail, 0), 0] + Drop(h.tail, 2))
    case Delete => Shadow([], Zeros(|h.s|) + h.tail)
  }

  /** The words in storage are the array and its tail, and zero from there on. */
  ghost predicate Represents(c: Cells, slot: Key, h: Shadow) {
    && Contents(c, slot) == h.s
    && forall i: nat :: i >= |h.s| ==> Read(c, Hashed(slot, i)).low == TailAt(h.tail, i - |h.s|)
  }

  /** An offset that no key of the set reaches. */
  ghost function Bound(keys: set<Key>): (n: nat)
    ensures forall k <- keys :: k.Hashed? ==> k.offset < n
  {
    if keys == {} then 0
    else
      var k :| k in keys;
      var n := Bound(keys - {k});
      if k.Hashed? && k.offset >= n then k.offset + 1 else n
  }

  /** Any storage is some array with some tail. */
  lemma AnyIsShadow(c: Cells, slot: Key) returns (h: Shadow)
    ensures Represents(c, slot, h) && h.s == Contents(c, slot)
  {
    var n: nat := Length(c, slot);
    h := Shadow(Contents(c, slot), seq<Word>(Bound(c.Keys), i requires 0 <= i => Read(c, Hashed(slot, n + i)).low));
    forall i: nat | i >= n ensures Read(c, Hashed(slot, i)).low == TailAt(h.tail, i - n) {
      if i - n >= |h.tail| { assert Hashed(slot, i) !in c.Keys; }
    }
  }

  /** Every operation, pop included, does to the storage what it does to array and tail. */
  lemma StepRepresented(c: Cells, slot: Key, h: Shadow, op: Op)
    requires Represents(c, slot, h) && Allowed(h.s, op)
    ensures Represents(Apply(c, slot, op), slot, ShadowStep(h, op))
  {
    NotItsOwnElement(slot);
    assert |h.s| == Length(c, slot);
    match op
    case Write(v) => WriteRepresented(c, slot, h, v);
    case Push(x) => PushRepresented(c, slot, h, Some(x));
    case PushDefault => PushRepresented(c, slot, h, None);
    case Pop => PopRepresented(c, slot, h);
    case Delete => DeleteRepresented(c, slot, h);
  }

  lemma WriteRepresented(c: Cells, slot: Key, h: Shadow, v: Vector)
    requires Represents(c, slot, h)
    ensures Represents(WriteVector(c, slot, v), slot, ShadowStep(h, Write(v)))
  {
    hide WriteVector, Fill;
    WriteRead(c, slot, v);
    var r, h' := WriteVector(c, slot, v), ShadowStep(h, Write(v));
    forall i: nat | i >= |v| ensures Read(r, Hashed(slot, i)).low == TailAt(h'.tail, i - |v|) {
      WrittenCell(c, slot, v, i);
    }
  }

  lemma WrittenCell(c: Cells, slot: Key, v: Vector, i: nat)
    requires i >= |v|
    ensures Read(WriteVector(c, slot, v), Hashed(slot, i)) ==
            if i < Length(c, slot) then EMPTY else Read(c, Hashed(slot, i))
  {
    NotItsOwnElement(slot);
    assert !ElementIn(Hashed(slot, i), slot, 0, |v|);
    assert ElementIn(Hashed(slot, i), slot, |v|, |v| + Tail(c, slot, |v|)) <==> i < |v| + Tail(c, slot, |v|);
  }

  lemma PushRepresented(c: Cells, slot: Key, h: Shadow, x: Option<Word>)
    requires Represents(c, slot, h) && |h.s| + 1 < P
    ensures Represents(PushVector(c, slot, x), slot, ShadowStep(h, if x.Some? then Push(x.value) else PushDefault))
  {
    NotItsOwnElement(slot);
    PushAppends(c, slot, x);
    var n: nat := |h.s|;
    var r := PushVector(c, slot, x);
    forall i: nat | i >= n + 1 ensures Read(r, Hashed(slot, i)).low == TailAt(Drop(h.tail, 1), i - (n + 1)) {}
  }

  lemma PopRepresented(c: Cells, slot: Key, h: Shadow)
    requires Represents(c, slot, h) && h.s != []
    ensures Represents(PopVector(c, slot), slot, ShadowStep(h, Pop))
  {
    NotItsOwnElement(slot);
    PopShortens(c, slot);
    var n: nat := |h.s|;
    var r, h' := PopVector(c, slot), ShadowStep(h, Pop);
    forall i: nat | i >= n - 1 ensures Read(r, Hashed(slot, i)).low == TailAt(h'.tail, i - (n - 1)) {}
  }

  lemma DeleteRepresented(c: Cells, slot: Key, h: Shadow)
    requires Represents(c, slot, h)
    ensures Represents(DeleteVector(c, slot), slot, ShadowStep(h, Delete))
  {
    NotItsOwnElement(slot);
    DeleteEmpties(c, slot);
    var r, h' := DeleteVector(c, slot), ShadowStep(h, Delete);
    forall i: nat ensures Read(r, Hashed(slot, i)).low == TailAt(h'.tail, i) {
      assert ElementIn(Hashed(slot, i), slot, 0, Length(c, slot)) <==> i < Length(c, slot);
    }
  }

  /** Which operations are allowed depends on the length only. */
  lemma {:induction false} AllowedByLength(s: seq<Word>, s': seq<Word>, ops: seq<Op>)
    requires |s| == |s'|
    ensures AllowedRun(s, ops) <==> AllowedRun(s', ops)
    decreases |ops|
  {
    if ops != [] && Allowed(s, ops[0]) {
      AllowedByLength(OnSequence(s, ops[0]), OnSequence(s', ops[0]), ops[1..]);
    }
  }

  lemma SameLengthStep(h: Shadow, op: Op)
    requires Allowed(h.s, op)
    ensures |ShadowStep(h, op).s| == |OnSequence(h.s, op)|
    ensures ShadowStep(h, op).s == OnSequence(h.s, op) <==> (op.PushDefault? ==> TailAt(h.tail, 0) == 0)
  {
    if op.PushDefault? {
      assert (h.s + [TailAt(h.tail, 0)])[|h.s|] == TailAt(h.tail, 0) && (h.s + [0])[|h.s|] == 0;
    }
  }

  function ShadowRun(h: Shadow, ops: seq<Op>): Shadow
    requires AllowedRun(h.s, ops)
    decreases |ops|
  {
    if ops == [] then h
    else
      SameLengthStep(h, ops[0]);
      AllowedByLength(OnSequence(h.s, ops[0]), ShadowStep(h, ops[0]).s, ops[1..]);
      ShadowRun(ShadowStep(h, ops[0]), ops[1..])
  }

  /** After every run, pops included, the storage is what the run makes of array and tail. */
  lemma {:induction false} RunRepresented(c: Cells, slot: Key, h: Shadow, ops: seq<Op>)
    requires Represents(c, slot, h) && AllowedRun(h.s, ops)
    ensures Represents(ApplyAll(c, slot, ops), slot, ShadowRun(h, ops))
    decreases |ops|
  {
    if ops != [] {
      StepRepresented(c, slot, h, ops[0]);
      SameLengthStep(h, ops[0]);
      AllowedByLength(OnSequence(h.s, ops[0]), ShadowStep(h, ops[0]).s, ops[1..]);
      RunRepresented(Apply(c, slot, ops[0]), slot, ShadowStep(h, ops[0]), ops[1..]);
    }
  }

  /** At the start, and after every operation of the run, the array in storage is the sequence. */
  ghost predicate RefinesThroughout(c: Cells, slot: Key, s: seq<Word>, ops: seq<Op>)
    requires AllowedRun(s, ops)
    decreases |ops|
  {
    && Contents(c, slot) == s
    && (ops != [] ==> RefinesThroughout(Apply(c, slot, ops[0]), slot, OnSequence(s, ops[0]), ops[1..]))
  }

  /** No element is pushed by default where the cell it takes over is not zero. */
  predicate DefaultsAreZero(h: Shadow, ops: seq<Op>)
    requires AllowedRun(h.s, ops)
    decreases |ops|
  {
    ops == [] ||
    ((ops[0].PushDefault? ==> TailAt(h.tail, 0) == 0) &&
     (SameLengthStep(h, ops[0]);
      AllowedByLength(OnSequence(h.s, ops[0]), ShadowStep(h, ops[0]).s, ops[1..]);
      DefaultsAreZero(ShadowStep(h, ops[0]), ops[1..])))
  }

  /** The array in storage is the sequence throughout a run exactly when every default push finds a zero. */
  lemma {:induction false} RunRefinesExactly(c: Cells, slot: Key, h: Shadow, ops: seq<Op>)
    requires Represents(c, slot, h) && AllowedRun(h.s, ops)
    ensures RefinesThroughout(c, slot, h.s, ops) <==> DefaultsAreZero(h, ops)
    decreases |ops|
  {
    if ops != [] {
      var c1, h1 := Apply(c, slot, ops[0]), ShadowStep(h, ops[0]);
      StepRepresented(c, slot, h, ops[0]);
      SameLengthStep(h, ops[0]);
      AllowedByLength(OnSequence(h.s, ops[0]), h1.s, ops[1..]);
      if h1.s == OnSequence(h.s, ops[0]) {
        RunRefinesExactly(c1, slot, h1, ops[1..]);
      } else {
        assert Contents(c1, slot) == h1.s;
      }
    }
  }

  /** From clean storage, such as that of a new contract, the operations alone decide it. */
  lemma CleanRunRefinesExactly(c: Cells, slot: Key, ops: seq<Op>)
    requires Clean(c, slot) && AllowedRun(Contents(c, slot), ops)
    ensures RefinesThroughout(c, slot, Contents(c, slot), ops) <==>
            DefaultsAreZero(Shadow(Contents(c, slot), []), ops)
  {
    RunRefinesExactly(c, slot, Shadow(Contents(c, slot), []), ops);
  }

  /** A popped element comes back: push x, pop, push(). */
  lemma PoppedElementReturns(slot: Key, x: Word)
    requires x != 0
    ensures
      var ops := [Push(x), Pop, PushDefault];
      && AllowedRun([], ops) && Replay([], ops) == [0]
      && Contents(ApplyAll(map[], slot, ops), slot) == [x]
  {
    hide Apply, WriteVector, Contents, AllowedRun, Replay, ShadowRun, ShadowStep, Represents;
    PushPopPush(x);
    PushPopPushShadow(x);
    EmptyIsClean(slot);
    var ops := [Push(x), Pop, PushDefault];
    RunRepresented(map[], slot, Shadow([], []), ops);
    RepresentedContents(ApplyAll(map[], slot, ops), slot, ShadowRun(Shadow([], []), ops));
  }

  lemma RepresentedContents(c: Cells, slot: Key, h: Shadow)
    requires Represents(c, slot, h)
    ensures Contents(c, slot) == h.s
  {}

  lemma PushPopPush(x: Word)
    ensures AllowedRun([], [Push(x), Pop, PushDefault]) && Replay([], [Push(x), Pop, PushDefault]) == [0]
  {
    var ops, rest := [Push(x), Pop, PushDefault], [Pop, PushDefault];
    assert ops[1..] == rest && rest[1..] == [PushDefault] && [PushDefault][1..] == [];
    assert [x][..0] == [];
    assert AllowedRun([], [PushDefault]) && Replay([], [PushDefault]) == [0];
    assert AllowedRun([x], rest) && Replay([x], rest) == [0];
  }

  lemma PushPopPushShadow(x: Word)
    ensures AllowedRun([], [Push(x), Pop, PushDefault])
    ensures ShadowRun(Shadow([], []), [Push(x), Pop, PushDefault]).s == [x]
  {
    PushPopPush(x);
    var ops, rest := [Push(x), Pop, PushDefault], [Pop, PushDefault];
    assert ops[1..] == rest && rest[1..] == [PushDefault] && [PushDefault][1..] == [];
    assert [x][..0] == [] && AllowedRun([], [PushDefault]) && AllowedRun([x], rest);
    var h1, h2 := ShadowStep(Shadow([], []), Push(x)), ShadowStep(Shadow([x], []), Pop);
    assert h1 == Shadow([x], []) && h2.s == [] && TailAt(h2.tail, 0) == x;
    assert ShadowRun(h2, [PushDefault]).s == [x] && ShadowRun(h1, rest).s == [x];
  }

  lemma EmptyIsClean(slot: Key)
    ensures Contents(map[], slot) == [] && Represents(map[], slot, Shadow([], []))
  {}

  // ----- subscripts -----

  /** The check emitted before an access: (length - 1) - index, in the field, is a u32. */
  predicate BoundsCheck(length: Word, index: U32) {
    RangeCheck(FieldSub(FieldSub(length, 1), index))
  }

  lemma BoundsCheckExact(length: Word, index: U32)
    ensures BoundsCheck(length, index) <==> index < length <= index + TWO_32
  {
    if length == 0 {
      assert FieldSub(0, 1) == P - 1 by { assert (0 - 1) % P == P - 1; }
      assert (P - 1 - index) % P == P - 1 - index;
    } else {
      assert FieldSub(length, 1) == length - 1 by { assert (length - 1) % P == length - 1; }
      if index <= length - 1 {
        assert (length - 1 - index) % P == length - 1 - index;
      } else {
        assert (length - 1 - index) % P == length - 1 - index + P;
      }
    }
  }
}
