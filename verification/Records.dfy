/**
  Structs in storage.  Storing, loading and deleting each walk the fields of a struct with a
  cursor, and each moves the cursor on by rules of its own.  A struct is treated here as the
  list of its leaves in order; every leaf is a `Step` of the three walks.

  The three walks keep in step exactly for some types; which ones is the main result.
*/
module Records {
  import opened Wrappers
  import opened Field
  import opened Vectors

  /** Scalar: one word.  Wide: an address or hash, four words.  The others have elements. */
  datatype Kind = Scalar | Wide | Text | Bytes | DynamicArray {
    /** The kinds after which storing and deleting move on to the next slot. */
    predicate Advances() { Scalar? || Wide? || Text? }
  }

  datatype Type = Plain(kind: Kind) | Struct(fields: seq<Type>)

  datatype Value = Number(w: Word) | Four(cell: Cell) | Words(v: Vector) | Record(fields: seq<Value>)

  /** A struct without fields is rejected by the compiler. */
  predicate WellFormed(ty: Type) {
    ty.Struct? ==> ty.fields != [] && forall f <- ty.fields :: WellFormed(f)
  }

  predicate LeafOf(kind: Kind, v: Value) {
    match kind
    case Scalar => v.Number?
    case Wide => v.Four?
    case _ => v.Words?
  }

  predicate HasType(v: Value, ty: Type) {
    match ty
    case Plain(kind) => LeafOf(kind, v)
    case Struct(fs) => v.Record? && HaveTypes(v.fields, fs)
  }

  predicate HaveTypes(vs: seq<Value>, fs: seq<Type>) {
    |vs| == |fs| && (fs != [] ==> HasType(vs[0], fs[0]) && HaveTypes(vs[1..], fs[1..]))
  }

  /** A leaf, and whether storing moves the cursor on after it. */
  datatype Step = Step(kind: Kind, advance: bool)

  /** `more`: another field follows in the same struct. */
  function Steps(ty: Type, more: bool): (r: seq<Step>)
    ensures forall s <- r :: s.advance ==> s.kind.Advances()
    ensures WellFormed(ty) ==> r != []
    decreases ty, 0
  {
    match ty
    case Plain(kind) => [Step(kind, more && kind.Advances())]
    case Struct(fs) =>
      if fs != [] then assert WellFormed(ty) ==> WellFormed(fs[0]); AllSteps(fs) else []
  }

  function AllSteps(fs: seq<Type>): (r: seq<Step>)
    ensures forall s <- r :: s.advance ==> s.kind.Advances()
    ensures fs != [] && WellFormed(fs[0]) ==> r != []
    decreases fs, 1
  {
    if fs == [] then [] else Steps(fs[0], |fs| > 1) + AllSteps(fs[1..])
  }

  function Flat(v: Value): seq<Value>
    decreases v, 0
  {
    if v.Record? then AllFlat(v.fields) else [v]
  }

  function AllFlat(vs: seq<Value>): seq<Value>
    decreases vs, 1
  {
    if vs == [] then [] else Flat(vs[0]) + AllFlat(vs[1..])
  }

  // ----- the three walks over a list of leaves -----

  predicate Fit(steps: seq<Step>, vs: seq<Value>) {
    |steps| == |vs| && forall i :: 0 <= i < |vs| ==> LeafOf(steps[i].kind, vs[i])
  }

  function StoreLeaf(c: Cells, k: Key, kind: Kind, v: Value): Cells
    requires LeafOf(kind, v)
  {
    match kind
    case Scalar => c[k := FromWord(v.w)]
    case Wide => c[k := v.cell]
    case _ => WriteVector(c, k, v.v)
  }

  function LoadLeaf(c: Cells, k: Key, kind: Kind): (v: Value)
    ensures LeafOf(kind, v)
  {
    match kind
    case Scalar => Number(Read(c, k).low)
    case Wide => Four(Read(c, k))
    case _ => Words(Contents(c, k))
  }

  function DeleteLeaf(c: Cells, k: Key, kind: Kind): Cells {
    match kind
    case DynamicArray => DeleteVector(c, k)
    case _ => EraseText(c, k)
  }

  datatype Walk = Storing | Loading | Deleting

  /** How far a walk moves the cursor after a leaf. */
  function Moved(w: Walk, s: Step): nat {
    var moves := match w
      case Storing => s.advance
      case Loading => !s.kind.DynamicArray?
      case Deleting => s.kind.Advances();
    if moves then 1 else 0
  }

  function Moves(w: Walk, steps: seq<Step>): nat {
    if steps == [] then 0 else Moved(w, steps[0]) + Moves(w, steps[1..])
  }

  function StoreLeaves(c: Cells, k: Key, steps: seq<Step>, vs: seq<Value>): Cells
    requires Fit(steps, vs)
    decreases steps
  {
    if steps == [] then c
    else StoreLeaves(StoreLeaf(c, k, steps[0].kind, vs[0]), k.Plus(Moved(Storing, steps[0])), steps[1..], vs[1..])
  }

  function LoadLeaves(c: Cells, k: Key, steps: seq<Step>): (vs: seq<Value>)
    ensures Fit(steps, vs)
    decreases steps
  {
    if steps == [] then []
    else [LoadLeaf(c, k, steps[0].kind)] + LoadLeaves(c, k.Plus(Moved(Loading, steps[0])), steps[1..])
  }

  function DeleteLeaves(c: Cells, k: Key, steps: seq<Step>): Cells
    decreases steps
  {
    if steps == [] then c
    else DeleteLeaves(DeleteLeaf(c, k, steps[0].kind), k.Plus(Moved(Deleting, steps[0])), steps[1..])
  }

  lemma PlusPlus(k: Key, m: nat, n: nat)
    ensures k.Plus(m).Plus(n) == k.Plus(m + n) && k.Plus(0) == k && k.Plus(m).Depth() == k.Depth()
  {}

  // ----- which keys a walk touches -----

  /** How far from its start a walk gets before the last leaf. */
  function Reach(w: Walk, steps: seq<Step>): nat {
    if |steps| <= 1 then 0 else Moved(w, steps[0]) + Reach(w, steps[1..])
  }

  /** The slots from k to k + n, and all their elements. */
  ghost predicate Region(key: Key, k: Key, n: nat) {
    exists j: nat :: j <= n && (key == k.Plus(j) || (key.Hashed? && key.of == k.Plus(j)))
  }

  lemma RegionShift(key: Key, k: Key, m: nat, n: nat)
    ensures Region(key, k.Plus(m), n) ==> Region(key, k, m + n)
    ensures Region(key, k, 0) ==> Region(key, k, n)
  {
    if Region(key, k.Plus(m), n) {
      var j: nat :| j <= n && (key == k.Plus(m).Plus(j) || (key.Hashed? && key.of == k.Plus(m).Plus(j)));
      PlusPlus(k, m, j);
    }
  }

  lemma RegionGrows(key: Key, k: Key, m: nat, n: nat)
    requires m <= n
    ensures Region(key, k, m) ==> Region(key, k, n)
  {}

  /** A slot further on is not in the region. */
  lemma BeyondRegion(k: Key, n: nat, m: nat)
    requires m > n
    ensures !Region(k.Plus(m), k, n)
    ensures forall i :: !Region(Hashed(k.Plus(m), i), k, n)
  {
    forall j: nat ensures k.Plus(j).Depth() == k.Depth() {
      PlusPlus(k, j, 0);
    }
    PlusPlus(k, m, 0);
  }

  lemma LeafFrame(c: Cells, k: Key, kind: Kind, v: Value, key: Key)
    requires LeafOf(kind, v) && !Region(key, k, 0)
    ensures Read(StoreLeaf(c, k, kind, v), key) == Read(c, key) == Read(DeleteLeaf(c, k, kind), key)
  {
    PlusPlus(k, 0, 0);
    assert key != k.Plus(0) && !(key.Hashed? && key.of == k.Plus(0));
  }

  /** Storing leaves every key outside its region as it was. */
  lemma {:induction false} StoreFrame(c: Cells, k: Key, steps: seq<Step>, vs: seq<Value>, key: Key)
    requires Fit(steps, vs) && !Region(key, k, Reach(Storing, steps))
    ensures Read(StoreLeaves(c, k, steps, vs), key) == Read(c, key)
    decreases steps
  {
    if steps != [] {
      RegionShift(key, k, 0, Reach(Storing, steps));
      LeafFrame(c, k, steps[0].kind, vs[0], key);
      if |steps| > 1 {
        var m := Moved(Storing, steps[0]);
        RegionShift(key, k, m, Reach(Storing, steps[1..]));
        StoreFrame(StoreLeaf(c, k, steps[0].kind, vs[0]), k.Plus(m), steps[1..], vs[1..], key);
      }
    }
  }

  /** And so does deleting. */
  lemma {:induction false} DeleteFrame(c: Cells, k: Key, steps: seq<Step>, key: Key)
    requires !Region(key, k, Reach(Deleting, steps))
    ensures Read(DeleteLeaves(c, k, steps), key) == Read(c, key)
    decreases steps
  {
    if steps != [] {
      RegionShift(key, k, 0, Reach(Deleting, steps));
      LeafFrame(c, k, steps[0].kind, Nothing(steps[0].kind), key);
      if |steps| > 1 {
        var m := Moved(Deleting, steps[0]);
        RegionShift(key, k, m, Reach(Deleting, steps[1..]));
        DeleteFrame(DeleteLeaf(c, k, steps[0].kind), k.Plus(m), steps[1..], key);
      }
    }
  }

  // ----- storing and loading -----

  /** After every leaf but the last the store moves on. */
  predicate InStep(steps: seq<Step>) {
    forall i :: 0 <= i < |steps| - 1 ==> steps[i].advance
  }

  lemma LeafRoundTrip(c: Cells, k: Key, kind: Kind, v: Value)
    requires LeafOf(kind, v)
    ensures LoadLeaf(StoreLeaf(c, k, kind, v), k, kind) == v
  {
    if v.Words? { WriteRead(c, k, v.v); }
  }

  lemma SameLeaf(c: Cells, c': Cells, k: Key, kind: Kind)
    requires Read(c, k) == Read(c', k) && forall i :: Read(c, Hashed(k, i)) == Read(c', Hashed(k, i))
    ensures LoadLeaf(c, k, kind) == LoadLeaf(c', k, kind)
  {
    assert Contents(c, k) == Contents(c', k);
  }

  lemma {:induction false} LeavesRoundTrip(c: Cells, k: Key, steps: seq<Step>, vs: seq<Value>)
    requires Fit(steps, vs) && InStep(steps) && forall s <- steps :: s.advance ==> s.kind.Advances()
    ensures LoadLeaves(StoreLeaves(c, k, steps, vs), k, steps) == vs
    decreases steps
  {
    if steps != [] {
      var c1 := StoreLeaf(c, k, steps[0].kind, vs[0]);
      LeafRoundTrip(c, k, steps[0].kind, vs[0]);
      var r := StoreLeaves(c, k, steps, vs);
      if |steps| > 1 {
        assert steps[0].advance && steps[0] in steps;
        forall key | !Region(key, k.Plus(1), Reach(Storing, steps[1..])) ensures Read(r, key) == Read(c1, key) {
          StoreFrame(c1, k.Plus(1), steps[1..], vs[1..], key);
        }
        PastIsBehind(k, Reach(Storing, steps[1..]));
        SameLeaf(r, c1, k, steps[0].kind);
        LeavesRoundTrip(c1, k.Plus(1), steps[1..], vs[1..]);
      }
    }
  }

  lemma PastIsBehind(k: Key, n: nat)
    ensures !Region(k, k.Plus(1), n) && forall i :: !Region(Hashed(k, i), k.Plus(1), n)
  {
    forall j: nat
      ensures k.Plus(1).Plus(j) == k.Plus(1 + j) && k.Plus(1 + j) != k && k.Plus(1 + j).Depth() == k.Depth()
    {
      PlusPlus(k, 1, j);
      PlusPlus(k, 1 + j, 0);
    }
    forall i ensures !Region(Hashed(k, i), k.Plus(1), n) {
      assert Hashed(k, i).Depth() == k.Depth() + 1;
    }
  }

  /** What a leaf of this kind holds where nothing was stored. */
  function Nothing(kind: Kind): (v: Value)
    ensures LeafOf(kind, v)
  {
    match kind
    case Scalar => Number(0)
    case Wide => Four(EMPTY)
    case _ => Words([])
  }

  function Nothings(steps: seq<Step>): (vs: seq<Value>)
    ensures Fit(steps, vs)
  {
    seq(|steps|, i requires 0 <= i < |steps| => Nothing(steps[i].kind))
  }

  lemma LoadsNothing(c: Cells, k: Key, kind: Kind)
    ensures LoadLeaf(c, k, kind) == Nothing(kind) <== Read(c, k) == EMPTY
    ensures LoadLeaf(c, k, kind) != Nothing(kind) <== Read(c, k) == FromWord(1)
  {
    assert |Contents(c, k)| == Read(c, k).low;
  }

  /** Storing and deleting what is nothing never fills an empty cell, and clears the first. */
  lemma {:induction false} NothingStaysEmpty(c: Cells, k: Key, steps: seq<Step>, key: Key)
    requires Read(c, key) == EMPTY || (steps != [] && key == k)
    ensures Read(StoreLeaves(c, k, steps, Nothings(steps)), key) == EMPTY
    ensures Read(DeleteLeaves(c, k, steps), key) == EMPTY
    decreases steps
  {
    if steps != [] {
      NotItsOwnElement(k);
      var s := steps[0];
      var c1, d1 := StoreLeaf(c, k, s.kind, Nothing(s.kind)), DeleteLeaf(c, k, s.kind);
      assert Nothings(steps)[1..] == Nothings(steps[1..]);
      EmptyLeaf(c, k, s.kind, key);
      NothingStaysEmpty(c1, k.Plus(Moved(Storing, s)), steps[1..], key);
      NothingStaysEmpty(d1, k.Plus(Moved(Deleting, s)), steps[1..], key);
    }
  }

  lemma EmptyLeaf(c: Cells, k: Key, kind: Kind, key: Key)
    requires Read(c, key) == EMPTY || key == k
    ensures Read(StoreLeaf(c, k, kind, Nothing(kind)), key) == EMPTY == Read(DeleteLeaf(c, k, kind), key)
  {
    NotItsOwnElement(k);
  }

  lemma LoadFirst(c: Cells, k: Key, steps: seq<Step>)
    requires steps != []
    ensures LoadLeaves(c, k, steps) ==
            [LoadLeaf(c, k, steps[0].kind)] + LoadLeaves(c, k.Plus(Moved(Loading, steps[0])), steps[1..])
  {}

  lemma StoreFirst(c: Cells, k: Key, steps: seq<Step>, vs: seq<Value>)
    requires steps != [] && Fit(steps, vs)
    ensures StoreLeaves(c, k, steps, vs) ==
            StoreLeaves(StoreLeaf(c, k, steps[0].kind, vs[0]), k.Plus(Moved(Storing, steps[0])), steps[1..], vs[1..])
  {}

  lemma {:induction false} LastLoaded(c: Cells, k: Key, steps: seq<Step>)
    requires steps != []
    ensures LoadLeaves(c, k, steps)[|steps| - 1] == LoadLeaf(c, k.Plus(Reach(Loading, steps)), steps[|steps| - 1].kind)
    decreases steps
  {
    hide LoadLeaves, LoadLeaf, LeafOf, Moved;
    PlusPlus(k, 0, 0);
    LoadFirst(c, k, steps);
    if |steps| > 1 {
      var m := Moved(Loading, steps[0]);
      LastLoaded(c, k.Plus(m), steps[1..]);
      PlusPlus(k, m, Reach(Loading, steps[1..]));
    }
  }

  /** A walk that somewhere fails to move on where loading does never gets to the last slot read. */
  lemma {:induction false} FallsBehind(w: Walk, steps: seq<Step>)
    requires forall s <- steps :: s.advance ==> s.kind.Advances()
    ensures Reach(w, steps) <= Reach(Loading, steps)
    ensures Reach(w, steps) < Reach(Loading, steps) <==>
            exists i :: 0 <= i < |steps| - 1 && Moved(w, steps[i]) < Moved(Loading, steps[i])
    decreases steps
  {
    if |steps| > 1 {
      var rest := steps[1..];
      FallsBehind(w, rest);
      assert steps[0] in steps;
      if i :| 0 <= i < |steps| - 1 && Moved(w, steps[i]) < Moved(Loading, steps[i]) {
        assert i > 0 ==> steps[i] == rest[i - 1];
      }
      if j :| 0 <= j < |rest| - 1 && Moved(w, rest[j]) < Moved(Loading, rest[j]) {
        assert rest[j] == steps[j + 1];
      }
    }
  }

  /** A one in the last slot that is read survives a store or a delete that fell behind. */
  lemma LagShows(k: Key, steps: seq<Step>)
    requires steps != [] && forall s <- steps :: s.advance ==> s.kind.Advances()
    ensures
      var c: Cells := map[k.Plus(Reach(Loading, steps)) := FromWord(1)];
      && (Reach(Storing, steps) < Reach(Loading, steps) ==>
          LoadLeaves(StoreLeaves(c, k, steps, Nothings(steps)), k, steps) != Nothings(steps))
      && (Reach(Deleting, steps) < Reach(Loading, steps) ==>
          LoadLeaves(DeleteLeaves(c, k, steps), k, steps) != Nothings(steps))
  {
    hide LeafOf, LoadLeaf, StoreLeaf, DeleteLeaf, Moved, Region, Reach;
    var m := Reach(Loading, steps);
    var c: Cells := map[k.Plus(m) := FromWord(1)];
    var s, d := StoreLeaves(c, k, steps, Nothings(steps)), DeleteLeaves(c, k, steps);
    if Reach(Storing, steps) < m {
      BeyondRegion(k, Reach(Storing, steps), m);
      StoreFrame(c, k, steps, Nothings(steps), k.Plus(m));
      LastLoaded(s, k, steps);
      LoadsNothing(s, k.Plus(m), steps[|steps| - 1].kind);
    }
    if Reach(Deleting, steps) < m {
      BeyondRegion(k, Reach(Deleting, steps), m);
      DeleteFrame(c, k, steps, k.Plus(m));
      LastLoaded(d, k, steps);
      LoadsNothing(d, k.Plus(m), steps[|steps| - 1].kind);
    }
  }

  /** The leaf after a dynamic array is stored in the cell of its length. */
  lemma {:induction false} OverlapShows(c: Cells, k: Key, steps: seq<Step>, i: nat)
    requires i < |steps| - 1 && steps[i].kind.DynamicArray?
    requires forall s <- steps :: s.advance ==> s.kind.Advances()
    requires forall j :: 0 <= j < |steps| - 1 ==> steps[j].advance || steps[j].kind.DynamicArray?
    ensures
      var vs := Nothings(steps)[i := Words([0])];
      LoadLeaves(StoreLeaves(c, k, steps, vs), k, steps)[i] == Words([])
    decreases steps
  {
    hide LoadLeaves, StoreLeaves, LoadLeaf, StoreLeaf, Moved, Nothings;
    var zeros := Nothings(steps);
    var vs := zeros[i := Words([0])];
    var c1, rest := StoreLeaf(c, k, steps[0].kind, vs[0]), steps[1..];
    assert steps[0] in steps;
    NothingsFrom(steps, i, Words([0]));
    SameMove(steps[0]);
    PlusPlus(k, 0, 0);
    StoreFirst(c, k, steps, vs);
    LoadFirst(StoreLeaves(c, k, steps, vs), k, steps);
    if i == 0 {
      OverlapHere(c1, k, rest);
    } else {
      OverlapShows(c1, k.Plus(Moved(Storing, steps[0])), rest, i - 1);
    }
  }

  lemma OverlapHere(c: Cells, k: Key, rest: seq<Step>)
    requires rest != []
    ensures LoadLeaf(StoreLeaves(c, k, rest, Nothings(rest)), k, DynamicArray) == Words([])
  {
    hide StoreLeaves, StoreLeaf;
    NothingStaysEmpty(c, k, rest, k);
    LoadsNothing(StoreLeaves(c, k, rest, Nothings(rest)), k, DynamicArray);
  }

  lemma NothingsFrom(steps: seq<Step>, i: nat, v: Value)
    requires i < |steps| && LeafOf(steps[i].kind, v)
    ensures Fit(steps, Nothings(steps)[i := v])
    ensures Nothings(steps)[i := v][0] == if i == 0 then v else Nothing(steps[0].kind)
    ensures Nothings(steps)[i := v][1..] ==
            if i == 0 then Nothings(steps[1..]) else Nothings(steps[1..])[i - 1 := v]
  {}

  lemma SameMove(s: Step)
    requires s.advance ==> s.kind.Advances()
    requires s.advance || s.kind.DynamicArray?
    ensures Moved(Storing, s) == Moved(Loading, s) == if s.kind.DynamicArray? then 0 else 1
  {}

  /** What was stored is loaded again, for all values and storages, exactly when the walks keep in step. */
  lemma LeavesRoundTripExactly(k: Key, steps: seq<Step>)
    requires steps != [] && forall s <- steps :: s.advance ==> s.kind.Advances()
    ensures (forall c, vs :: Fit(steps, vs) ==> LoadLeaves(StoreLeaves(c, k, steps, vs), k, steps) == vs) <==>
            InStep(steps)
  {
    if InStep(steps) {
      forall c, vs | Fit(steps, vs) ensures LoadLeaves(StoreLeaves(c, k, steps, vs), k, steps) == vs {
        LeavesRoundTrip(c, k, steps, vs);
      }
    } else {
      var c, vs := OutOfStepShows(k, steps);
    }
  }

  lemma OutOfStepShows(k: Key, steps: seq<Step>) returns (c: Cells, vs: seq<Value>)
    requires steps != [] && !InStep(steps) && forall s <- steps :: s.advance ==> s.kind.Advances()
    ensures Fit(steps, vs) && LoadLeaves(StoreLeaves(c, k, steps, vs), k, steps) != vs
  {
    FallsBehind(Storing, steps);
    if Reach(Storing, steps) < Reach(Loading, steps) {
      c, vs := map[k.Plus(Reach(Loading, steps)) := FromWord(1)], Nothings(steps);
      LagShows(k, steps);
    } else {
      var i :| 0 <= i < |steps| - 1 && !steps[i].advance;
      c, vs := map[], Nothings(steps)[i := Words([0])];
      OverlapShows(c, k, steps, i);
    }
  }

  // ----- deleting and loading -----

  /** No leaf but the last is of type `fields`. */
  predicate NoEarlyBytes(steps: seq<Step>) {
    forall i :: 0 <= i < |steps| - 1 ==> !steps[i].kind.Bytes?
  }

  lemma {:induction false} DeletedIsNothing(c: Cells, k: Key, steps: seq<Step>)
    requires NoEarlyBytes(steps)
    ensures LoadLeaves(DeleteLeaves(c, k, steps), k, steps) == Nothings(steps)
    decreases steps
  {
    hide LeafOf, DeleteLeaf, StoreLeaves, LoadLeaf;
    if steps != [] {
      var d := DeleteLeaves(c, k, steps);
      NothingStaysEmpty(c, k, steps, k);
      LoadsNothing(d, k, steps[0].kind);
      if |steps| > 1 {
        var m := Moved(Deleting, steps[0]);
        DeletedIsNothing(DeleteLeaf(c, k, steps[0].kind), k.Plus(m), steps[1..]);
      }
    }
  }

  /** After a delete every leaf reads as nothing, for all storages, exactly when no field but the last is `fields`. */
  lemma LeavesDeletedExactly(k: Key, steps: seq<Step>)
    requires steps != [] && forall s <- steps :: s.advance ==> s.kind.Advances()
    ensures (forall c :: LoadLeaves(DeleteLeaves(c, k, steps), k, steps) == Nothings(steps)) <==>
            NoEarlyBytes(steps)
  {
    if NoEarlyBytes(steps) {
      forall c ensures LoadLeaves(DeleteLeaves(c, k, steps), k, steps) == Nothings(steps) {
        DeletedIsNothing(c, k, steps);
      }
    } else {
      FallsBehind(Deleting, steps);
      LagShows(k, steps);
    }
  }

  // ----- every cell after a delete -----

  /** The kind of the first leaf that deleting meets in slot m; only words, addresses, hashes and strings move it on. */
  function KindAt(steps: seq<Step>, m: nat): Option<Kind> {
    if steps == [] then None
    else if m == 0 then Some(steps[0].kind)
    else KindAt(steps[1..], if steps[0].kind.Advances() then m - 1 else m)
  }

  /** The key of a slot that deleting meets, or of an element of it. */
  ghost predicate Met(key: Key, k: Key, steps: seq<Step>) {
    exists m: nat :: KindAt(steps, m).Some? && (key == k.Plus(m) || (key.Hashed? && key.of == k.Plus(m)))
  }

  /**
    From c to d the slots met are emptied, and with them the elements of the arrays found
    there; the elements of strings stay, and so does everything else.
  */
  ghost predicate IsDeleted(c: Cells, d: Cells, k: Key, steps: seq<Step>) {
    && (forall m: nat :: KindAt(steps, m).Some? ==> Read(d, k.Plus(m)) == EMPTY)
    && (forall m: nat, e: nat :: KindAt(steps, m).Some? ==>
          Read(d, Hashed(k.Plus(m), e)) ==
          if KindAt(steps, m) == Some(DynamicArray) && e < Length(c, k.Plus(m)) then EMPTY
          else Read(c, Hashed(k.Plus(m), e)))
    && (forall key :: !Met(key, k, steps) ==> Read(d, key) == Read(c, key))
  }

  lemma LeafDeleted(c: Cells, k: Key, kind: Kind)
    ensures
      var d := DeleteLeaf(c, k, kind);
      && Read(d, k) == EMPTY
      && (forall e: nat :: Read(d, Hashed(k, e)) ==
            if kind.DynamicArray? && e < Length(c, k) then EMPTY else Read(c, Hashed(k, e)))
      && (forall key :: key != k && !(key.Hashed? && key.of == k) ==> Read(d, key) == Read(c, key))
  {
    NotItsOwnElement(k);
    if kind.DynamicArray? {
      forall e: nat
        ensures Read(DeleteVector(c, k), Hashed(k, e)) == if e < Length(c, k) then EMPTY else Read(c, Hashed(k, e))
      {
        assert ElementIn(Hashed(k, e), k, 0, Length(c, k)) <==> e < Length(c, k);
      }
    }
  }

  lemma MetByOne(key: Key, k: Key, steps: seq<Step>)
    requires steps != []
    ensures Met(key, k, steps) <==>
            || key == k || (key.Hashed? && key.of == k)
            || Met(key, k.Plus(if steps[0].kind.Advances() then 1 else 0), steps[1..])
  {
    var moved := if steps[0].kind.Advances() then 1 else 0;
    PlusPlus(k, 0, 0);
    if m: nat :| KindAt(steps, m).Some? && (key == k.Plus(m) || (key.Hashed? && key.of == k.Plus(m))) {
      if m > 0 {
        PlusPlus(k, moved, m - moved);
        assert KindAt(steps[1..], m - moved).Some?;
      }
    }
    if Met(key, k.Plus(moved), steps[1..]) {
      var m: nat :| KindAt(steps[1..], m).Some? &&
                    (key == k.Plus(moved).Plus(m) || (key.Hashed? && key.of == k.Plus(moved).Plus(m)));
      PlusPlus(k, moved, m);
      assert KindAt(steps, m + moved).Some?;
    }
    assert KindAt(steps, 0).Some?;
  }

  lemma FirstSlotDeleted(c: Cells, k: Key, steps: seq<Step>)
    requires steps != []
    requires
      var moved := if steps[0].kind.Advances() then 1 else 0;
      IsDeleted(DeleteLeaf(c, k, steps[0].kind), DeleteLeaves(c, k, steps), k.Plus(moved), steps[1..])
    ensures
      var d := DeleteLeaves(c, k, steps);
      && Read(d, k) == EMPTY
      && forall e: nat :: Read(d, Hashed(k, e)) ==
           if steps[0].kind.DynamicArray? && e < Length(c, k) then EMPTY else Read(c, Hashed(k, e))
  {
    var c1, d, rest := DeleteLeaf(c, k, steps[0].kind), DeleteLeaves(c, k, steps), steps[1..];
    LeafDeleted(c, k, steps[0].kind);
    PlusPlus(k, 0, 0);
    if steps[0].kind.Advances() {
      SlotsAhead(k, rest);
    } else if rest == [] {
      assert d == DeleteLeaves(c1, k.Plus(Moved(Deleting, steps[0])), rest) == c1;
    } else {
      assert KindAt(rest, 0).Some? && Length(c1, k) == 0;
      forall e: nat ensures Read(d, Hashed(k, e)) == Read(c1, Hashed(k, e)) {
        assert Read(d, Hashed(k.Plus(0), e)) == Read(c1, Hashed(k.Plus(0), e));
      }
    }
  }

  lemma SlotsAhead(k: Key, rest: seq<Step>)
    ensures !Met(k, k.Plus(1), rest) && forall e: nat :: !Met(Hashed(k, e), k.Plus(1), rest)
  {
    forall m: nat ensures k.Plus(1).Plus(m) != k && k.Plus(1).Plus(m).Depth() == k.Depth() {
      PlusPlus(k, 1, m);
      PlusPlus(k, m, 0);
    }
  }

  lemma LaterSlot(c: Cells, k: Key, steps: seq<Step>, m: nat)
    requires m > 0 && KindAt(steps, m).Some?
    requires
      var moved := if steps[0].kind.Advances() then 1 else 0;
      IsDeleted(DeleteLeaf(c, k, steps[0].kind), DeleteLeaves(c, k, steps), k.Plus(moved), steps[1..])
    ensures
      var d := DeleteLeaves(c, k, steps);
      && Read(d, k.Plus(m)) == EMPTY
      && forall e: nat :: Read(d, Hashed(k.Plus(m), e)) ==
           if KindAt(steps, m) == Some(DynamicArray) && e < Length(c, k.Plus(m)) then EMPTY
           else Read(c, Hashed(k.Plus(m), e))
  {
    hide DeleteLeaf, DeleteLeaves, Met;
    var moved := if steps[0].kind.Advances() then 1 else 0;
    LeafDeleted(c, k, steps[0].kind);
    PlusPlus(k, moved, m - moved);
    PlusPlus(k, m, 0);
    assert KindAt(steps[1..], m - moved) == KindAt(steps, m);
    assert k.Plus(m) != k && k.Plus(m).Depth() == k.Depth();
    var c1 := DeleteLeaf(c, k, steps[0].kind);
    assert Read(c1, k.Plus(m)) == Read(c, k.Plus(m));
    forall e: nat ensures Read(c1, Hashed(k.Plus(m), e)) == Read(c, Hashed(k.Plus(m), e)) {
      assert Hashed(k.Plus(m), e).Depth() == k.Depth() + 1;
    }
  }

  /** Deleting does that to every storage, whatever the leaves. */
  lemma {:induction false} LeavesDeleted(c: Cells, k: Key, steps: seq<Step>)
    ensures IsDeleted(c, DeleteLeaves(c, k, steps), k, steps)
    decreases steps
  {
    if steps != [] {
      var moved := if steps[0].kind.Advances() then 1 else 0;
      var c1, d := DeleteLeaf(c, k, steps[0].kind), DeleteLeaves(c, k, steps);
      LeafDeleted(c, k, steps[0].kind);
      LeavesDeleted(c1, k.Plus(moved), steps[1..]);
      FirstSlotDeleted(c, k, steps);
      forall m: nat | m > 0 && KindAt(steps, m).Some?
        ensures Read(d, k.Plus(m)) == EMPTY
        ensures forall e: nat :: Read(d, Hashed(k.Plus(m), e)) ==
                  if KindAt(steps, m) == Some(DynamicArray) && e < Length(c, k.Plus(m)) then EMPTY
                  else Read(c, Hashed(k.Plus(m), e))
      {
        LaterSlot(c, k, steps, m);
      }
      forall key | !Met(key, k, steps) ensures Read(d, key) == Read(c, key) {
        MetByOne(key, k, steps);
      }
      PlusPlus(k, 0, 0);
    }
  }

  /**
    The elements of whatever is in slot m are cleared, for all storages, exactly when an array
    is the first leaf met there; a clean slot then stays clean.
  */
  lemma ElementsClearedExactly(k: Key, steps: seq<Step>, m: nat)
    requires KindAt(steps, m).Some?
    ensures (forall c, e: nat :: e < Length(c, k.Plus(m)) ==>
              Read(DeleteLeaves(c, k, steps), Hashed(k.Plus(m), e)) == EMPTY) <==>
            KindAt(steps, m) == Some(DynamicArray)
    ensures KindAt(steps, m) == Some(DynamicArray) ==>
              forall c :: Clean(c, k.Plus(m)) ==> Clean(DeleteLeaves(c, k, steps), k.Plus(m))
  {
    hide DeleteLeaves, Met;
    var at := k.Plus(m);
    forall c ensures IsDeleted(c, DeleteLeaves(c, k, steps), k, steps) { LeavesDeleted(c, k, steps); }
    if KindAt(steps, m) != Some(DynamicArray) {
      var c: Cells := map[at := FromWord(1), Hashed(at, 0) := FromWord(1)];
      NotItsOwnElement(at);
      assert Length(c, at) == 1 && Read(c, Hashed(at, 0)) == FromWord(1);
      assert Read(DeleteLeaves(c, k, steps), Hashed(k.Plus(m), 0)) == FromWord(1);
    }
  }

  // ----- every cell after a store -----

  /** The cell of a leaf itself: a word, an address or hash, or a length. */
  function LeafCell(v: Value): Cell
    requires !v.Record?
  {
    match v
    case Number(w) => FromWord(w)
    case Four(cell) => cell
    case Words(s) => FromWord(|s|)
  }

  /** An element under a leaf that held `length` elements before: stored, cleared or left as it was. */
  function LeafElement(v: Value, length: nat, e: nat, before: Cell): Cell
    requires !v.Record?
  {
    if !v.Words? then before
    else if e < |v.v| then FromWord(v.v[e])
    else if e < length then EMPTY
    else before
  }

  /** From c to r every leaf is written to a slot of its own, one after the other, and nothing else changes. */
  ghost predicate IsStored(c: Cells, r: Cells, k: Key, vs: seq<Value>) {
    && (forall i :: 0 <= i < |vs| ==> !vs[i].Record?)
    && (forall i :: 0 <= i < |vs| ==> Read(r, k.Plus(i)) == LeafCell(vs[i]))
    && (forall i, e: nat :: 0 <= i < |vs| ==>
          Read(r, Hashed(k.Plus(i), e)) ==
          LeafElement(vs[i], Length(c, k.Plus(i)), e, Read(c, Hashed(k.Plus(i), e))))
    && (forall key :: vs == [] || !Region(key, k, |vs| - 1) ==> Read(r, key) == Read(c, key))
  }

  lemma LeafStored(c: Cells, k: Key, kind: Kind, v: Value)
    requires LeafOf(kind, v)
    ensures
      var r := StoreLeaf(c, k, kind, v);
      && Read(r, k) == LeafCell(v)
      && (forall e: nat :: Read(r, Hashed(k, e)) == LeafElement(v, Length(c, k), e, Read(c, Hashed(k, e))))
      && (forall key :: key != k && !(key.Hashed? && key.of == k) ==> Read(r, key) == Read(c, key))
  {
    NotItsOwnElement(k);
    if v.Words? {
      forall e: nat
        ensures Read(WriteVector(c, k, v.v), Hashed(k, e)) == LeafElement(v, Length(c, k), e, Read(c, Hashed(k, e)))
      {
        assert ElementIn(Hashed(k, e), k, 0, |v.v|) <==> e < |v.v|;
        var n := Tail(c, k, |v.v|);
        assert ElementIn(Hashed(k, e), k, |v.v|, |v.v| + n) <==> |v.v| <= e < |v.v| + n;
      }
    }
  }

  lemma NoRecords(steps: seq<Step>, vs: seq<Value>)
    requires Fit(steps, vs)
    ensures forall i :: 0 <= i < |vs| ==> !vs[i].Record?
  {
    forall i | 0 <= i < |vs| ensures !vs[i].Record? { assert LeafOf(steps[i].kind, vs[i]); }
  }

  lemma {:induction false} LeavesStored(c: Cells, k: Key, steps: seq<Step>, vs: seq<Value>)
    requires Fit(steps, vs) && InStep(steps)
    ensures IsStored(c, StoreLeaves(c, k, steps, vs), k, vs)
    decreases steps
  {
    hide IsStored, StoreLeaf, LeafOf;
    if steps == [] {
      NothingStored(c, k);
    } else {
      var c1 := StoreLeaf(c, k, steps[0].kind, vs[0]);
      StoreFirst(c, k, steps, vs);
      if |steps| > 1 {
        LeavesStored(c1, k.Plus(1), steps[1..], vs[1..]);
        StoredInFront(c, k, steps[0].kind, StoreLeaves(c, k, steps, vs), vs);
      } else {
        assert StoreLeaves(c1, k.Plus(Moved(Storing, steps[0])), steps[1..], vs[1..]) == c1;
        OneStored(c, k, steps[0].kind, vs);
      }
    }
  }

  lemma NothingStored(c: Cells, k: Key)
    ensures IsStored(c, c, k, [])
  {}

  lemma OneStored(c: Cells, k: Key, kind: Kind, vs: seq<Value>)
    requires |vs| == 1 && LeafOf(kind, vs[0])
    ensures IsStored(c, StoreLeaf(c, k, kind, vs[0]), k, vs)
  {
    hide StoreLeaf;
    LeafStored(c, k, kind, vs[0]);
    PlusPlus(k, 0, 0);
    forall key | !Region(key, k, 0) ensures Read(StoreLeaf(c, k, kind, vs[0]), key) == Read(c, key) {
      InRegion(key, k);
    }
  }

  lemma StoredInFront(c: Cells, k: Key, kind: Kind, r: Cells, vs: seq<Value>)
    requires |vs| > 1 && LeafOf(kind, vs[0])
    requires IsStored(StoreLeaf(c, k, kind, vs[0]), r, k.Plus(1), vs[1..])
    ensures IsStored(c, r, k, vs)
  {
    hide StoreLeaf, LeafElement, LeafCell, Region;
    var c1 := StoreLeaf(c, k, kind, vs[0]);
    LeafStored(c, k, kind, vs[0]);
    PastIsBehind(k, |vs| - 2);
    PlusPlus(k, 0, 0);
    forall i | 0 < i < |vs|
      ensures !vs[i].Record? && Read(r, k.Plus(i)) == LeafCell(vs[i])
      ensures forall e: nat :: Read(r, Hashed(k.Plus(i), e)) ==
                LeafElement(vs[i], Length(c, k.Plus(i)), e, Read(c, Hashed(k.Plus(i), e)))
    {
      assert vs[1..][i - 1] == vs[i];
      StoredFurther(c, c1, r, k, vs, i);
    }
    forall key | !Region(key, k, |vs| - 1) ensures Read(r, key) == Read(c, key) {
      RegionShift(key, k, 1, |vs| - 2);
      RegionShift(key, k, 0, |vs| - 1);
      InRegion(key, k);
    }
  }

  lemma InRegion(key: Key, k: Key)
    ensures key == k || (key.Hashed? && key.of == k) ==> Region(key, k, 0)
  {
    PlusPlus(k, 0, 0);
    assert k == k.Plus(0);
  }

  lemma StoredFurther(c: Cells, c1: Cells, r: Cells, k: Key, vs: seq<Value>, i: nat)
    requires 0 < i < |vs| && !vs[i].Record?
    requires IsStored(c1, r, k.Plus(1), vs[1..])
    requires forall key :: key != k && !(key.Hashed? && key.of == k) ==> Read(c1, key) == Read(c, key)
    ensures Read(r, k.Plus(i)) == LeafCell(vs[i])
    ensures forall e: nat :: Read(r, Hashed(k.Plus(i), e)) ==
              LeafElement(vs[i], Length(c, k.Plus(i)), e, Read(c, Hashed(k.Plus(i), e)))
  {
    hide LeafElement, LeafCell;
    PlusPlus(k, 1, i - 1);
    PlusPlus(k, i, 0);
    assert vs[1..][i - 1] == vs[i] && k.Plus(i) != k;
    assert Read(c1, k.Plus(i)) == Read(c, k.Plus(i));
    forall e: nat
      ensures Read(r, Hashed(k.Plus(i), e)) ==
              LeafElement(vs[i], Length(c, k.Plus(i)), e, Read(c, Hashed(k.Plus(i), e)))
    {
      assert Hashed(k.Plus(i), e).Depth() == k.Depth() + 1;
      assert Read(c1, Hashed(k.Plus(i), e)) == Read(c, Hashed(k.Plus(i), e));
      assert Read(r, Hashed(k.Plus(1).Plus(i - 1), e)) ==
             LeafElement(vs[1..][i - 1], Length(c1, k.Plus(1).Plus(i - 1)), e,
                         Read(c1, Hashed(k.Plus(1).Plus(i - 1), e)));
    }
  }

  /** So it is, for all storages and values, exactly when storing moves on after every leaf but the last. */
  lemma LeavesStoredExactly(k: Key, steps: seq<Step>)
    requires steps != []
    ensures (forall c, vs :: Fit(steps, vs) ==> IsStored(c, StoreLeaves(c, k, steps, vs), k, vs)) <==> InStep(steps)
  {
    if InStep(steps) {
      forall c, vs | Fit(steps, vs) ensures IsStored(c, StoreLeaves(c, k, steps, vs), k, vs) {
        LeavesStored(c, k, steps, vs);
      }
    } else {
      var last := |steps| - 1;
      var c: Cells, vs := map[k.Plus(last) := FromWord(1)], Nothings(steps);
      ShortOfTheEnd(steps);
      BeyondRegion(k, Reach(Storing, steps), last);
      StoreFrame(c, k, steps, vs, k.Plus(last));
      NoRecords(steps, vs);
      assert LeafOf(steps[last].kind, vs[last]) && LeafCell(vs[last]) == EMPTY;
      assert Read(StoreLeaves(c, k, steps, vs), k.Plus(last)) == FromWord(1);
    }
  }

  lemma {:induction false} ShortOfTheEnd(steps: seq<Step>)
    requires steps != []
    ensures Reach(Storing, steps) <= |steps| - 1
    ensures Reach(Storing, steps) == |steps| - 1 <==> InStep(steps)
  {
    if |steps| > 1 {
      var rest := steps[1..];
      ShortOfTheEnd(rest);
      assert InStep(steps) <==> steps[0].advance && InStep(rest) by {
        assert forall i :: 0 < i < |steps| - 1 ==> steps[i] == rest[i - 1];
        assert forall j :: 0 <= j < |rest| - 1 ==> rest[j] == steps[j + 1];
      }
    }
  }
}
