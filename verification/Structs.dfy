/**
  Values of struct types as trees.  `StoreValue`, `LoadValue` and `DeleteValue` are the
  meaning of the three storage operations on a whole struct.
*/
module Structs {
  import opened Wrappers
  import opened Vectors
  import opened Records

  function StoreValue(c: Cells, k: Key, ty: Type, v: Value): Cells
    requires HasType(v, ty)
  {
    FlatFits(ty, v, false);
    StoreLeaves(c, k, Steps(ty, false), Flat(v))
  }

  function LoadValue(c: Cells, k: Key, ty: Type): Value {
    Build(ty, false, LoadLeaves(c, k, Steps(ty, false)))
  }

  function DeleteValue(c: Cells, k: Key, ty: Type): Cells {
    DeleteLeaves(c, k, Steps(ty, false))
  }

  /** The zero of a type: zero words, and strings and arrays without elements. */
  function Zero(ty: Type): Value { Build(ty, false, Nothings(Steps(ty, false))) }

  // ----- between a tree and its leaves -----

  function Build(ty: Type, more: bool, vs: seq<Value>): (v: Value)
    requires Fit(Steps(ty, more), vs)
    ensures HasType(v, ty)
    decreases ty, 0
  {
    match ty
    case Plain(_) => vs[0]
    case Struct(fs) => Record(BuildAll(fs, vs))
  }

  function BuildAll(fs: seq<Type>, vs: seq<Value>): (r: seq<Value>)
    requires Fit(AllSteps(fs), vs)
    ensures HaveTypes(r, fs)
    decreases fs, 1
  {
    if fs == [] then []
    else
      var first := Steps(fs[0], |fs| > 1);
      FitSplit(first, AllSteps(fs[1..]), vs);
      [Build(fs[0], |fs| > 1, vs[..|first|])] + BuildAll(fs[1..], vs[|first|..])
  }

  lemma FitSplit(a: seq<Step>, b: seq<Step>, vs: seq<Value>)
    ensures Fit(a + b, vs) ==> Fit(a, vs[..|a|]) && Fit(b, vs[|a|..])
    ensures forall us, ws :: Fit(a, us) && Fit(b, ws) ==> Fit(a + b, us + ws)
  {
    if Fit(a + b, vs) {
      forall i | 0 <= i < |b| ensures LeafOf(b[i].kind, vs[|a|..][i]) { assert (a + b)[|a| + i] == b[i]; }
    }
  }

  lemma {:induction false} FlatFits(ty: Type, v: Value, more: bool)
    requires HasType(v, ty)
    ensures Fit(Steps(ty, more), Flat(v))
    decreases ty, 0
  {
    if ty.Struct? { AllFlatFits(ty.fields, v.fields); }
  }

  lemma {:induction false} AllFlatFits(fs: seq<Type>, vs: seq<Value>)
    requires HaveTypes(vs, fs)
    ensures Fit(AllSteps(fs), AllFlat(vs))
    decreases fs, 1
  {
    if fs != [] {
      FlatFits(fs[0], vs[0], |fs| > 1);
      AllFlatFits(fs[1..], vs[1..]);
      FitSplit(Steps(fs[0], |fs| > 1), AllSteps(fs[1..]), []);
    }
  }

  /** A value is built again from its leaves, */
  lemma {:induction false} BuildFlat(ty: Type, more: bool, v: Value)
    requires HasType(v, ty)
    ensures Fit(Steps(ty, more), Flat(v)) && Build(ty, more, Flat(v)) == v
    decreases ty, 0
  {
    FlatFits(ty, v, more);
    if ty.Struct? { BuildAllFlat(ty.fields, v.fields); }
  }

  lemma {:induction false} BuildAllFlat(fs: seq<Type>, vs: seq<Value>)
    requires HaveTypes(vs, fs)
    ensures Fit(AllSteps(fs), AllFlat(vs)) && BuildAll(fs, AllFlat(vs)) == vs
    decreases fs, 1
  {
    AllFlatFits(fs, vs);
    if fs != [] {
      BuildFlat(fs[0], |fs| > 1, vs[0]);
      BuildAllFlat(fs[1..], vs[1..]);
      assert AllFlat(vs)[..|Flat(vs[0])|] == Flat(vs[0]);
      assert AllFlat(vs)[|Flat(vs[0])|..] == AllFlat(vs[1..]);
    }
  }

  /** and the leaves of what was built are those it was built from. */
  lemma {:induction false} FlatBuild(ty: Type, more: bool, vs: seq<Value>)
    requires Fit(Steps(ty, more), vs)
    ensures Flat(Build(ty, more, vs)) == vs
    decreases ty, 0
  {
    match ty
    case Plain(kind) => assert LeafOf(kind, vs[0]) && vs == [vs[0]];
    case Struct(fs) => AllFlatBuild(fs, vs);
  }

  lemma {:induction false} AllFlatBuild(fs: seq<Type>, vs: seq<Value>)
    requires Fit(AllSteps(fs), vs)
    ensures AllFlat(BuildAll(fs, vs)) == vs
    decreases fs, 1
  {
    hide LeafOf, Build, Flat, HaveTypes, Steps, BuildAll, AllFlat;
    BuiltFirst(fs, vs);
    if fs != [] {
      var first := Steps(fs[0], |fs| > 1);
      FlatBuild(fs[0], |fs| > 1, vs[..|first|]);
      AllFlatBuild(fs[1..], vs[|first|..]);
      assert vs == vs[..|first|] + vs[|first|..];
    }
  }

  lemma BuiltFirst(fs: seq<Type>, vs: seq<Value>)
    requires Fit(AllSteps(fs), vs)
    ensures
      if fs == [] then AllFlat(BuildAll(fs, vs)) == [] == vs
      else
        var first := Steps(fs[0], |fs| > 1);
        && Fit(first, vs[..|first|]) && Fit(AllSteps(fs[1..]), vs[|first|..])
        && AllFlat(BuildAll(fs, vs)) ==
           Flat(Build(fs[0], |fs| > 1, vs[..|first|])) + AllFlat(BuildAll(fs[1..], vs[|first|..]))
  {
    hide LeafOf, Build, Flat, HaveTypes, Steps;
    if fs != [] {
      var first := Steps(fs[0], |fs| > 1);
      FitSplit(first, AllSteps(fs[1..]), vs);
      var r := BuildAll(fs, vs);
      assert r[0] == Build(fs[0], |fs| > 1, vs[..|first|]) && r[1..] == BuildAll(fs[1..], vs[|first|..]);
    }
  }

  // ----- which types storing and loading agree on -----

  /** The fields before the last are words, addresses, hashes or strings. */
  predicate EarlyAdvance(fs: seq<Type>) {
    forall i :: 0 <= i < |fs| - 1 ==> fs[i].Plain? && fs[i].kind.Advances()
  }

  /** And so in every struct of the type. */
  predicate Storable(ty: Type) {
    ty.Struct? ==> EarlyAdvance(ty.fields) && forall f <- ty.fields :: Storable(f)
  }

  lemma {:induction false} StorableInStep(ty: Type)
    requires WellFormed(ty)
    ensures Storable(ty) <==> InStep(Steps(ty, false))
    decreases ty, 0
  {
    if ty.Struct? { AllStorableInStep(ty.fields); }
  }

  lemma {:induction false} AllStorableInStep(fs: seq<Type>)
    requires forall f <- fs :: WellFormed(f)
    ensures InStep(AllSteps(fs)) <==> EarlyAdvance(fs) && forall f <- fs :: Storable(f)
    decreases fs, 1
  {
    if |fs| == 1 {
      StorableInStep(fs[0]);
      assert AllSteps(fs[1..]) == [] && AllSteps(fs) == Steps(fs[0], false) + [] == Steps(fs[0], false);
    } else if fs != [] {
      var rest := fs[1..];
      AllStorableInStep(rest);
      HeadInStep(fs);
      assert forall i :: 0 < i < |fs| ==> fs[i] == rest[i - 1];
    }
  }

  lemma InStepConcat(a: seq<Step>, b: seq<Step>)
    requires b != []
    ensures InStep(a + b) <==> (forall s <- a :: s.advance) && InStep(b)
  {
    if InStep(a + b) {
      forall i | 0 <= i < |a| ensures a[i].advance { assert (a + b)[i] == a[i]; }
      forall i | 0 <= i < |b| - 1 ensures b[i].advance { assert (a + b)[|a| + i] == b[i]; }
    }
  }

  lemma HeadInStep(fs: seq<Type>)
    requires |fs| > 1 && forall f <- fs :: WellFormed(f)
    ensures InStep(AllSteps(fs)) <==> fs[0].Plain? && fs[0].kind.Advances() && InStep(AllSteps(fs[1..]))
    ensures fs[0].Plain? ==> Storable(fs[0])
  {
    hide InStep;
    var a, b := Steps(fs[0], true), AllSteps(fs[1..]);
    assert AllSteps(fs) == a + b;
    assert WellFormed(fs[0]) && WellFormed(fs[1]) && fs[1..][0] == fs[1];
    InStepConcat(a, b);
    if fs[0].Plain? {
      assert a == [Step(fs[0].kind, fs[0].kind.Advances())];
      assert a[0] in a;
    } else {
      LastStays(fs[0], true);
      assert a[|a| - 1] in a;
    }
  }

  /** The last leaf of a struct is never followed by a move, whatever follows the struct. */
  lemma {:induction false} LastStays(ty: Type, more: bool)
    requires WellFormed(ty) && (ty.Struct? || !more)
    ensures Steps(ty, more) != [] && !Steps(ty, more)[|Steps(ty, more)| - 1].advance
    decreases ty, 0
  {
    if ty.Struct? { AllLastStays(ty.fields); }
  }

  lemma {:induction false} AllLastStays(fs: seq<Type>)
    requires fs != [] && forall f <- fs :: WellFormed(f)
    ensures AllSteps(fs) != [] && !AllSteps(fs)[|AllSteps(fs)| - 1].advance
    decreases fs, 1
  {
    if |fs| == 1 {
      LastStays(fs[0], false);
      assert AllSteps(fs[1..]) == [] && AllSteps(fs) == Steps(fs[0], false) + [] == Steps(fs[0], false);
    } else {
      AllLastStays(fs[1..]);
    }
  }

  /** Loading returns what was stored, for all values and storages, exactly for the storable types. */
  lemma StructRoundTrip(k: Key, ty: Type)
    requires WellFormed(ty)
    ensures (forall c, v :: HasType(v, ty) ==> LoadValue(StoreValue(c, k, ty, v), k, ty) == v) <==> Storable(ty)
  {
    var steps := Steps(ty, false);
    StorableInStep(ty);
    LeavesRoundTripExactly(k, steps);
    if Storable(ty) {
      forall c, v | HasType(v, ty) ensures LoadValue(StoreValue(c, k, ty, v), k, ty) == v {
        BuildFlat(ty, false, v);
        assert LoadLeaves(StoreLeaves(c, k, steps, Flat(v)), k, steps) == Flat(v);
      }
    } else {
      var c, vs :| Fit(steps, vs) && LoadLeaves(StoreLeaves(c, k, steps, vs), k, steps) != vs;
      var v := Build(ty, false, vs);
      FlatBuild(ty, false, vs);
      DifferentTrees(ty, LoadLeaves(StoreLeaves(c, k, steps, vs), k, steps), vs);
      assert LoadValue(StoreValue(c, k, ty, v), k, ty) != v;
    }
  }

  /** Loading after a delete gives the zero of the type exactly when only last leaves are of type `fields`. */
  lemma StructDelete(k: Key, ty: Type)
    requires WellFormed(ty)
    ensures (forall c :: LoadValue(DeleteValue(c, k, ty), k, ty) == Zero(ty)) <==>
            NoEarlyBytes(Steps(ty, false))
  {
    hide NoEarlyBytes, Fit, InStep, Moved, LoadLeaves, DeleteLeaves, Steps, Build;
    var steps := Steps(ty, false);
    LeavesDeletedExactly(k, steps);
    if NoEarlyBytes(steps) {
      forall c ensures LoadValue(DeleteValue(c, k, ty), k, ty) == Zero(ty) {
        assert LoadLeaves(DeleteLeaves(c, k, steps), k, steps) == Nothings(steps);
      }
    } else {
      var c :| LoadLeaves(DeleteLeaves(c, k, steps), k, steps) != Nothings(steps);
      DifferentTrees(ty, LoadLeaves(DeleteLeaves(c, k, steps), k, steps), Nothings(steps));
      assert LoadValue(DeleteValue(c, k, ty), k, ty) != Zero(ty);
    }
  }

  /**
    What storing a whole struct leaves in every cell: its leaves one slot after the other, with
    nothing left of longer strings and arrays, for all values and storages exactly for the
    storable types.
  */
  lemma StructStoredExactly(k: Key, ty: Type)
    requires WellFormed(ty)
    ensures (forall c, v :: HasType(v, ty) ==> IsStored(c, StoreValue(c, k, ty, v), k, Flat(v))) <==> Storable(ty)
  {
    hide IsStored, StoreLeaves, InStep, Storable;
    var steps := Steps(ty, false);
    StorableInStep(ty);
    LeavesStoredExactly(k, steps);
    if Storable(ty) {
      forall c, v | HasType(v, ty) ensures IsStored(c, StoreValue(c, k, ty, v), k, Flat(v)) {
        FlatFits(ty, v, false);
        assert IsStored(c, StoreLeaves(c, k, steps, Flat(v)), k, Flat(v));
      }
    } else {
      var c, vs :| Fit(steps, vs) && !IsStored(c, StoreLeaves(c, k, steps, vs), k, vs);
      FlatBuild(ty, false, vs);
      assert !IsStored(c, StoreValue(c, k, ty, Build(ty, false, vs)), k, Flat(Build(ty, false, vs)));
    }
  }

  /**
    What deleting leaves in every cell, for all types; the elements of a slot are cleared, for
    all storages, exactly when an array is the first leaf that deleting meets there, and the
    array then stays clean.
  */
  lemma StructDeleted(k: Key, ty: Type)
    ensures forall c :: IsDeleted(c, DeleteValue(c, k, ty), k, Steps(ty, false))
    ensures forall m: nat :: KindAt(Steps(ty, false), m).Some? ==>
              ((forall c, e: nat :: e < Length(c, k.Plus(m)) ==>
                 Read(DeleteValue(c, k, ty), Hashed(k.Plus(m), e)) == EMPTY) <==>
               KindAt(Steps(ty, false), m) == Some(DynamicArray))
    ensures forall m: nat, c :: KindAt(Steps(ty, false), m) == Some(DynamicArray) && Clean(c, k.Plus(m)) ==>
              Clean(DeleteValue(c, k, ty), k.Plus(m))
  {
    hide IsDeleted, DeleteLeaves, Steps, KindAt;
    var steps := Steps(ty, false);
    forall c ensures IsDeleted(c, DeleteValue(c, k, ty), k, steps) { LeavesDeleted(c, k, steps); }
    forall m: nat | KindAt(steps, m).Some?
      ensures (forall c, e: nat :: e < Length(c, k.Plus(m)) ==>
                Read(DeleteValue(c, k, ty), Hashed(k.Plus(m), e)) == EMPTY) <==>
              KindAt(steps, m) == Some(DynamicArray)
      ensures KindAt(steps, m) == Some(DynamicArray) ==>
                forall c :: Clean(c, k.Plus(m)) ==> Clean(DeleteValue(c, k, ty), k.Plus(m))
    {
      ElementsClearedExactly(k, steps, m);
    }
  }

  lemma DifferentTrees(ty: Type, us: seq<Value>, vs: seq<Value>)
    requires Fit(Steps(ty, false), us) && Fit(Steps(ty, false), vs) && us != vs
    ensures Build(ty, false, us) != Build(ty, false, vs)
  {
    FlatBuild(ty, false, us);
    FlatBuild(ty, false, vs);
  }

  /** Nothing outside the slots of the struct and their elements is touched. */
  lemma StructFrame(c: Cells, k: Key, ty: Type, v: Value, key: Key)
    requires WellFormed(ty) && HasType(v, ty) && !Region(key, k, |Steps(ty, false)| - 1)
    ensures Read(StoreValue(c, k, ty, v), key) == Read(c, key) == Read(DeleteValue(c, k, ty), key)
  {
    hide StoreLeaves, DeleteLeaves, Region, Reach;
    var steps := Steps(ty, false);
    FlatFits(ty, v, false);
    ReachBelow(Storing, steps);
    ReachBelow(Deleting, steps);
    RegionGrows(key, k, Reach(Storing, steps), |steps| - 1);
    RegionGrows(key, k, Reach(Deleting, steps), |steps| - 1);
    StoreFrame(c, k, steps, Flat(v), key);
    DeleteFrame(c, k, steps, key);
  }

  lemma {:induction false} ReachBelow(w: Walk, steps: seq<Step>)
    ensures steps != [] ==> Reach(w, steps) < |steps|
  {
    if |steps| > 1 { ReachBelow(w, steps[1..]); }
  }

  // ----- one field after the other -----

  lemma {:induction false} StoreConcat(c: Cells, k: Key, a: seq<Step>, b: seq<Step>, us: seq<Value>, vs: seq<Value>)
    requires Fit(a, us) && Fit(b, vs)
    ensures Fit(a + b, us + vs)
    ensures StoreLeaves(c, k, a + b, us + vs) == StoreLeaves(StoreLeaves(c, k, a, us), k.Plus(Moves(Storing, a)), b, vs)
    decreases a
  {
    hide LeafOf, StoreLeaf, Moved;
    PlusPlus(k, 0, 0);
    if a == [] {
      assert a + b == b && us + vs == vs;
    } else {
      assert (a + b)[0] == a[0] && (us + vs)[0] == us[0];
      assert (a + b)[1..] == a[1..] + b && (us + vs)[1..] == us[1..] + vs;
      var m := Moved(Storing, a[0]);
      StoreConcat(StoreLeaf(c, k, a[0].kind, us[0]), k.Plus(m), a[1..], b, us[1..], vs);
      PlusPlus(k, m, Moves(Storing, a[1..]));
    }
  }

  lemma {:induction false} LoadConcat(c: Cells, k: Key, a: seq<Step>, b: seq<Step>)
    ensures LoadLeaves(c, k, a + b) == LoadLeaves(c, k, a) + LoadLeaves(c, k.Plus(Moves(Loading, a)), b)
    decreases a
  {
    hide LoadLeaf, Fit, Moved;
    PlusPlus(k, 0, 0);
    if a == [] {
      assert a + b == b;
    } else {
      assert (a + b)[1..] == a[1..] + b;
      var m := Moved(Loading, a[0]);
      assert (a + b)[0] == a[0];
      LoadConcat(c, k.Plus(m), a[1..], b);
      PlusPlus(k, m, Moves(Loading, a[1..]));
    }
  }

  lemma {:induction false} DeleteConcat(c: Cells, k: Key, a: seq<Step>, b: seq<Step>)
    ensures DeleteLeaves(c, k, a + b) == DeleteLeaves(DeleteLeaves(c, k, a), k.Plus(Moves(Deleting, a)), b)
    decreases a
  {
    PlusPlus(k, 0, 0);
    if a == [] {
      assert a + b == b;
    } else {
      assert (a + b)[1..] == a[1..] + b;
      var m := Moved(Deleting, a[0]);
      DeleteConcat(DeleteLeaf(c, k, a[0].kind), k.Plus(m), a[1..], b);
      PlusPlus(k, m, Moves(Deleting, a[1..]));
    }
  }

  lemma {:induction false} MovesConcat(w: Walk, a: seq<Step>, b: seq<Step>)
    ensures Moves(w, a + b) == Moves(w, a) + Moves(w, b)
    decreases a
  {
    if a == [] {
      assert a + b == b;
    } else {
      assert (a + b)[1..] == a[1..] + b;
      MovesConcat(w, a[1..], b);
    }
  }

  /** Being followed by another field changes nothing but the last move. */
  lemma StoreFollowed(c: Cells, k: Key, ty: Type, v: Value, more: bool)
    requires HasType(v, ty)
    ensures Fit(Steps(ty, more), Flat(v)) && StoreLeaves(c, k, Steps(ty, more), Flat(v)) == StoreValue(c, k, ty, v)
    ensures Moves(Storing, Steps(ty, more)) ==
            Moves(Storing, Steps(ty, false)) + if ty.Plain? && ty.kind.Advances() && more then 1 else 0
  {
    FlatFits(ty, v, more);
  }

  /** A field is stored like a value of its own; what follows decides whether the cursor moves on. */
  lemma StoreFieldThenRest(c: Cells, k: Key, fs: seq<Type>, vs: seq<Value>)
    requires fs != [] && HaveTypes(vs, fs)
    ensures Fit(AllSteps(fs), AllFlat(vs)) && Fit(AllSteps(fs[1..]), AllFlat(vs[1..]))
    ensures
      var c1 := StoreValue(c, k, fs[0], vs[0]);
      var m := if fs[0].Plain? && fs[0].kind.Advances() && |fs| > 1 then 1 else 0;
      var k1 := k.Plus(Moves(Storing, Steps(fs[0], false))).Plus(m);
      && StoreLeaves(c, k, AllSteps(fs), AllFlat(vs)) == StoreLeaves(c1, k1, AllSteps(fs[1..]), AllFlat(vs[1..]))
      && k.Plus(Moves(Storing, AllSteps(fs))) == k1.Plus(Moves(Storing, AllSteps(fs[1..])))
  {
    hide Fit, Moves, StoreLeaves, StoreValue, Flat, Steps, HasType;
    var a, b := Steps(fs[0], |fs| > 1), AllSteps(fs[1..]);
    StoreFollowed(c, k, fs[0], vs[0], |fs| > 1);
    AllFlatFits(fs[1..], vs[1..]);
    StoreConcat(c, k, a, b, Flat(vs[0]), AllFlat(vs[1..]));
    MovesConcat(Storing, a, b);
    var m := if fs[0].Plain? && fs[0].kind.Advances() && |fs| > 1 then 1 else 0;
    PlusPlus(k, Moves(Storing, Steps(fs[0], false)), m);
    PlusPlus(k, Moves(Storing, a), Moves(Storing, b));
  }

  lemma LoadFieldThenRest(c: Cells, k: Key, fs: seq<Type>)
    requires fs != []
    ensures
      var k1 := k.Plus(Moves(Loading, Steps(fs[0], false)));
      && BuildAll(fs, LoadLeaves(c, k, AllSteps(fs))) ==
         [LoadValue(c, k, fs[0])] + BuildAll(fs[1..], LoadLeaves(c, k1, AllSteps(fs[1..])))
      && k.Plus(Moves(Loading, AllSteps(fs))) == k1.Plus(Moves(Loading, AllSteps(fs[1..])))
  {
    hide LeafOf, LoadLeaf, Moves, HaveTypes;
    var a, b := Steps(fs[0], |fs| > 1), AllSteps(fs[1..]);
    LoadFollowed(c, k, fs[0], |fs| > 1);
    LoadConcat(c, k, a, b);
    MovesConcat(Loading, a, b);
    PlusPlus(k, Moves(Loading, a), Moves(Loading, b));
    var vs := LoadLeaves(c, k, AllSteps(fs));
    assert vs[..|a|] == LoadLeaves(c, k, a) && vs[|a|..] == LoadLeaves(c, k.Plus(Moves(Loading, a)), b);
  }

  lemma LoadFollowed(c: Cells, k: Key, ty: Type, more: bool)
    ensures Build(ty, more, LoadLeaves(c, k, Steps(ty, more))) == LoadValue(c, k, ty)
    ensures Moves(Loading, Steps(ty, more)) == Moves(Loading, Steps(ty, false))
  {}

  lemma DeleteFieldThenRest(c: Cells, k: Key, fs: seq<Type>)
    requires fs != []
    ensures
      var c1 := DeleteValue(c, k, fs[0]);
      var k1 := k.Plus(Moves(Deleting, Steps(fs[0], false)));
      && DeleteLeaves(c, k, AllSteps(fs)) == DeleteLeaves(c1, k1, AllSteps(fs[1..]))
      && k.Plus(Moves(Deleting, AllSteps(fs))) == k1.Plus(Moves(Deleting, AllSteps(fs[1..])))
      && (fs[0].Plain? ==> Moves(Deleting, Steps(fs[0], false)) == if fs[0].kind.Advances() then 1 else 0)
  {
    var a, b := Steps(fs[0], |fs| > 1), AllSteps(fs[1..]);
    DeleteConcat(c, k, a, b);
    MovesConcat(Deleting, a, b);
    PlusPlus(k, Moves(Deleting, a), Moves(Deleting, b));
  }
}
