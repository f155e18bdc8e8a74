/**
  Parts of storage that are used side by side: the members of a struct and the variables of
  a contract.  A member is found by adding up the slots of the fields before it, while
  loading and storing the whole struct walk over them.  The main results say for which structs
  the two agree; members never overlap, whatever their types.
*/
module Members {
  import opened Vectors
  import opened Records
  import opened Structs
  import Layout

  /** What the contract layout sees of a type. */
  function InLayout(ty: Type): Layout.Type
    decreases ty, 0
  {
    match ty
    case Struct(fs) => Layout.Struct(AllInLayout(fs))
    case Plain(DynamicArray) => Layout.Array(Layout.Leaf, [Layout.Dynamic])
    case Plain(_) => Layout.Leaf
  }

  function AllInLayout(fs: seq<Type>): (r: seq<Layout.Type>)
    ensures |r| == |fs| && forall i :: 0 <= i < |fs| ==> r[i] == InLayout(fs[i])
    decreases fs, 1
  {
    if fs == [] then [] else [InLayout(fs[0])] + AllInLayout(fs[1..])
  }

  /** The slot at which the layout puts field i. */
  function SlotOf(fs: seq<Type>, i: nat): nat
    requires i < |fs|
  {
    Layout.FieldSlots(AllInLayout(fs)[..i])
  }

  /** The key of a member of the struct at k. */
  function MemberKey(k: Key, fs: seq<Type>, i: nat): Key
    requires i < |fs|
  {
    k.Plus(SlotOf(fs, i))
  }

  // ----- members and walks -----

  /** The leaves of the fields before field i. */
  function Before(fs: seq<Type>, i: nat): (r: seq<Step>)
    requires i < |fs|
    ensures forall s <- r :: s.advance ==> s.kind.Advances()
  {
    if i == 0 then [] else Steps(fs[0], true) + Before(fs[1..], i - 1)
  }

  lemma {:induction false} BeforeSplits(fs: seq<Type>, i: nat)
    requires i < |fs|
    ensures AllSteps(fs) == Before(fs, i) + AllSteps(fs[i..])
    ensures |Before(fs, i)| == SlotOf(fs, i)
    decreases i
  {
    hide Steps, AllSteps, SlotOf;
    if i == 0 {
      assert fs[0..] == fs;
      FirstSlot(fs);
    } else {
      BeforeSplits(fs[1..], i - 1);
      assert fs[1..][i - 1..] == fs[i..];
      FirstSteps(fs);
      NextSlot(fs, i);
    }
  }

  lemma FirstSteps(fs: seq<Type>)
    requires |fs| > 1
    ensures AllSteps(fs) == Steps(fs[0], true) + AllSteps(fs[1..])
  {}

  lemma FirstSlot(fs: seq<Type>)
    requires fs != []
    ensures SlotOf(fs, 0) == 0
  {}

  lemma NextSlot(fs: seq<Type>, i: nat)
    requires 0 < i < |fs|
    ensures SlotOf(fs, i) == |Steps(fs[0], true)| + SlotOf(fs[1..], i - 1)
  {
    hide Steps, InLayout, Layout.Slots;
    OneSlotPerLeaf(fs[0], true);
    assert AllInLayout(fs)[..i][1..] == AllInLayout(fs[1..])[..i - 1];
  }

  lemma LastAlone(fs: seq<Type>)
    requires fs != []
    ensures AllSteps(fs[|fs| - 1..]) == Steps(fs[|fs| - 1], false)
  {
    var rest := fs[|fs| - 1..];
    assert rest[1..] == [] && AllSteps(rest[1..]) == [];
    assert AllSteps(rest) == Steps(rest[0], false) + [] == Steps(rest[0], false);
  }

  lemma {:induction false} MovesAtMost(w: Walk, steps: seq<Step>)
    ensures Moves(w, steps) <= |steps|
    ensures Moves(w, steps) == |steps| <==> forall s <- steps :: Moved(w, s) == 1
  {
    if steps != [] {
      MovesAtMost(w, steps[1..]);
      assert forall s <- steps :: s == steps[0] || s in steps[1..];
    }
  }

  lemma {:induction false} ReachConcat(w: Walk, a: seq<Step>, b: seq<Step>)
    requires b != []
    ensures Reach(w, a + b) == Moves(w, a) + Reach(w, b)
    decreases a
  {
    if a == [] {
      assert a + b == b;
    } else {
      assert (a + b)[1..] == a[1..] + b;
      ReachConcat(w, a[1..], b);
    }
  }

  /** Where loading the whole struct finds field i. */
  lemma {:induction false} LoadedAt(c: Cells, k: Key, fs: seq<Type>, i: nat)
    requires i < |fs|
    ensures |LoadValue(c, k, Struct(fs)).fields| == |fs|
    ensures LoadValue(c, k, Struct(fs)).fields[i] ==
            LoadValue(c, k.Plus(Moves(Loading, Before(fs, i))), fs[i])
    decreases i
  {
    hide Moves, Steps, LoadLeaves, Fit, LoadLeaf, HaveTypes;
    LoadFieldThenRest(c, k, fs);
    SameLength(LoadValue(c, k, Struct(fs)).fields, fs);
    AsFields(c, k, fs);
    if i == 0 {
      NoMoves(k);
    } else {
      var m := Moves(Loading, Steps(fs[0], true));
      LoadFollowed(c, k, fs[0], true);
      AsFields(c, k.Plus(m), fs[1..]);
      LoadedAt(c, k.Plus(m), fs[1..], i - 1);
      MovesConcat(Loading, Steps(fs[0], true), Before(fs[1..], i - 1));
      PlusPlus(k, m, Moves(Loading, Before(fs[1..], i - 1)));
    }
  }

  lemma NoMoves(k: Key)
    ensures k.Plus(Moves(Loading, [])) == k
  {
    PlusPlus(k, 0, 0);
  }

  lemma AsFields(c: Cells, k: Key, fs: seq<Type>)
    ensures LoadValue(c, k, Struct(fs)) == Record(BuildAll(fs, LoadLeaves(c, k, AllSteps(fs))))
  {}

  lemma SameLength(vs: seq<Value>, fs: seq<Type>)
    requires HaveTypes(vs, fs)
    ensures |vs| == |fs|
  {}

  /** There is a dynamic array in the type. */
  predicate HoldsArray(ty: Type) {
    match ty
    case Plain(kind) => kind.DynamicArray?
    case Struct(fs) => exists f <- fs :: HoldsArray(f)
  }

  lemma {:induction false} ArrayLeaf(ty: Type, more: bool)
    ensures HoldsArray(ty) <==> exists s <- Steps(ty, more) :: s.kind.DynamicArray?
    decreases ty, 0
  {
    if ty.Struct? {
      AllArrayLeaf(ty.fields);
    } else {
      assert Steps(ty, more)[0] in Steps(ty, more);
    }
  }

  lemma {:induction false} AllArrayLeaf(fs: seq<Type>)
    ensures (exists f <- fs :: HoldsArray(f)) <==> exists s <- AllSteps(fs) :: s.kind.DynamicArray?
    decreases fs, 1
  {
    if fs != [] {
      ArrayLeaf(fs[0], |fs| > 1);
      AllArrayLeaf(fs[1..]);
      assert forall f <- fs :: f == fs[0] || f in fs[1..];
    }
  }

  /** No field before the last holds a dynamic array. */
  predicate NoEarlyArray(fs: seq<Type>) {
    forall i :: 0 <= i < |fs| - 1 ==> !HoldsArray(fs[i])
  }

  lemma {:induction false} ArrayBefore(fs: seq<Type>, i: nat)
    requires i < |fs|
    ensures Moves(Loading, Before(fs, i)) == |Before(fs, i)| <==> forall j :: 0 <= j < i ==> !HoldsArray(fs[j])
    decreases i
  {
    if i > 0 {
      var a, b := Steps(fs[0], true), Before(fs[1..], i - 1);
      ArrayBefore(fs[1..], i - 1);
      ArrayLeaf(fs[0], true);
      MovesAtMost(Loading, a);
      MovesAtMost(Loading, b);
      MovesConcat(Loading, a, b);
      assert forall j :: 0 < j < i ==> fs[j] == fs[1..][j - 1];
    }
  }

  /** Where the two ways to a field agree, a member is the field of the whole value. */
  lemma LoadMember(c: Cells, k: Key, fs: seq<Type>, i: nat)
    requires i < |fs| && NoEarlyArray(fs)
    ensures |LoadValue(c, k, Struct(fs)).fields| == |fs|
    ensures LoadValue(c, k, Struct(fs)).fields[i] == LoadValue(c, MemberKey(k, fs, i), fs[i])
  {
    LoadedAt(c, k, fs, i);
    BeforeSplits(fs, i);
    ArrayBefore(fs, i);
  }

  /** Values differ when one has a one and the other nothing where their first leaf is, */
  lemma FirstDiffers(c: Cells, k: Key, c': Cells, k': Key, ty: Type)
    requires WellFormed(ty) && Read(c, k) == FromWord(1) && Read(c', k') == EMPTY
    ensures LoadValue(c, k, ty) != LoadValue(c', k', ty)
  {
    var steps := Steps(ty, false);
    LoadsNothing(c, k, steps[0].kind);
    LoadsNothing(c', k', steps[0].kind);
    assert LoadLeaves(c, k, steps)[0] != LoadLeaves(c', k', steps)[0];
    DifferentTrees(ty, LoadLeaves(c, k, steps), LoadLeaves(c', k', steps));
  }

  /** or their last. */
  lemma LastDiffers(c: Cells, k: Key, c': Cells, k': Key, ty: Type)
    requires WellFormed(ty)
    requires
      var n := Reach(Loading, Steps(ty, false));
      Read(c, k.Plus(n)) == FromWord(1) && Read(c', k'.Plus(n)) == EMPTY
    ensures LoadValue(c, k, ty) != LoadValue(c', k', ty)
  {
    var steps := Steps(ty, false);
    LastLoaded(c, k, steps);
    LastLoaded(c', k', steps);
    LoadsNothing(c, k.Plus(Reach(Loading, steps)), steps[|steps| - 1].kind);
    LoadsNothing(c', k'.Plus(Reach(Loading, steps)), steps[|steps| - 1].kind);
    assert LoadLeaves(c, k, steps)[|steps| - 1] != LoadLeaves(c', k', steps)[|steps| - 1];
    DifferentTrees(ty, LoadLeaves(c, k, steps), LoadLeaves(c', k', steps));
  }

  lemma Distinct(k: Key, m: nat, n: nat)
    ensures k.Plus(m) == k.Plus(n) <==> m == n
  {}

  /** After an early array the whole value takes its last field from another slot. */
  lemma EarlyArrayMoves(k: Key, fs: seq<Type>)
    requires WellFormed(Struct(fs))
    ensures Moves(Loading, Before(fs, |fs| - 1)) <= SlotOf(fs, |fs| - 1)
    ensures Moves(Loading, Before(fs, |fs| - 1)) < SlotOf(fs, |fs| - 1) <==> !NoEarlyArray(fs)
  {
    BeforeSplits(fs, |fs| - 1);
    ArrayBefore(fs, |fs| - 1);
    MovesAtMost(Loading, Before(fs, |fs| - 1));
  }

  /**
    The members of a struct are the fields of its value, for all storages, exactly when no
    field before the last holds a dynamic array.
  */
  lemma LoadMembersExactly(k: Key, fs: seq<Type>)
    requires WellFormed(Struct(fs))
    ensures (forall c, i: nat :: i < |fs| ==>
              && |LoadValue(c, k, Struct(fs)).fields| == |fs|
              && LoadValue(c, k, Struct(fs)).fields[i] == LoadValue(c, MemberKey(k, fs, i), fs[i])) <==>
            NoEarlyArray(fs)
  {
    if NoEarlyArray(fs) {
      forall c, i: nat | i < |fs|
        ensures |LoadValue(c, k, Struct(fs)).fields| == |fs|
        ensures LoadValue(c, k, Struct(fs)).fields[i] == LoadValue(c, MemberKey(k, fs, i), fs[i])
      {
        LoadMember(c, k, fs, i);
      }
    } else {
      var last := |fs| - 1;
      var m := Moves(Loading, Before(fs, last));
      EarlyArrayMoves(k, fs);
      Distinct(k, m, SlotOf(fs, last));
      var c: Cells := map[MemberKey(k, fs, last) := FromWord(1)];
      FirstDiffers(c, MemberKey(k, fs, last), c, k.Plus(m), fs[last]);
      LoadedAt(c, k, fs, last);
    }
  }

  // ----- reading members of stored values -----

  lemma {:induction false} StoredBefore(fs: seq<Type>, i: nat)
    requires i < |fs| && forall f <- fs :: WellFormed(f)
    ensures Moves(Storing, Before(fs, i)) == |Before(fs, i)| <==>
            forall j :: 0 <= j < i ==> fs[j].Plain? && fs[j].kind.Advances()
    decreases i
  {
    if i > 0 {
      var a, b := Steps(fs[0], true), Before(fs[1..], i - 1);
      StoredBefore(fs[1..], i - 1);
      MovesAtMost(Storing, a);
      MovesAtMost(Storing, b);
      MovesConcat(Storing, a, b);
      assert a[|a| - 1] in a;
      if fs[0].Struct? { LastStays(fs[0], true); }
      assert forall j :: 0 < j < i ==> fs[j] == fs[1..][j - 1];
    }
  }

  /** If the store falls behind before the last member, that member shows what was there. */
  lemma LastMemberLost(k: Key, fs: seq<Type>) returns (c: Cells, vs: seq<Value>)
    requires WellFormed(Struct(fs)) && !EarlyAdvance(fs)
    ensures HasType(Record(vs), Struct(fs)) && |vs| == |fs|
    ensures LoadValue(StoreValue(c, k, Struct(fs), Record(vs)), MemberKey(k, fs, |fs| - 1), fs[|fs| - 1]) !=
            vs[|fs| - 1]
  {
    hide LoadValue, StoreValue, Moves, Reach, Before, Region, Steps, SlotOf;
    var last := |fs| - 1;
    var steps := Steps(fs[last], false);
    var at := SlotOf(fs, last) + Reach(Loading, steps);
    c := map[k.Plus(at) := FromWord(1)];
    vs := ZeroFields(k, fs);
    var r := StoreValue(c, k, Struct(fs), Record(vs));
    StoreStopsBefore(c, k, fs, vs);
    PlusPlus(k, SlotOf(fs, last), Reach(Loading, steps));
    LoadedAt(map[], k, fs, last);
    LastDiffers(r, MemberKey(k, fs, last), map[], k.Plus(Moves(Loading, Before(fs, last))), fs[last]);
  }

  /** The fields of the value of empty storage. */
  function ZeroFields(k: Key, fs: seq<Type>): (vs: seq<Value>)
    ensures HasType(Record(vs), Struct(fs)) && |vs| == |fs|
    ensures vs == LoadValue(map[], k, Struct(fs)).fields
  {
    var vs := LoadValue(map[], k, Struct(fs)).fields;
    SameLength(vs, fs);
    vs
  }

  lemma StoreStopsBefore(c: Cells, k: Key, fs: seq<Type>, vs: seq<Value>)
    requires WellFormed(Struct(fs)) && !EarlyAdvance(fs) && HasType(Record(vs), Struct(fs))
    ensures
      var at := k.Plus(SlotOf(fs, |fs| - 1) + Reach(Loading, Steps(fs[|fs| - 1], false)));
      Read(StoreValue(c, k, Struct(fs), Record(vs)), at) == Read(c, at)
  {
    hide StoreLeaves, Moves, Reach, Before, Region, HaveTypes, Fit;
    var last := |fs| - 1;
    var pre, steps := Before(fs, last), Steps(fs[last], false);
    BeforeSplits(fs, last);
    LastAlone(fs);
    StoredBefore(fs, last);
    MovesAtMost(Storing, pre);
    ReachConcat(Storing, pre, steps);
    FallsBehind(Storing, steps);
    FlatFits(Struct(fs), Record(vs), false);
    BeyondRegion(k, Reach(Storing, pre + steps), SlotOf(fs, last) + Reach(Loading, steps));
    StoreFrame(c, k, pre + steps, Flat(Record(vs)), k.Plus(SlotOf(fs, last) + Reach(Loading, steps)));
  }

  lemma MembersAreFields(c: Cells, k: Key, fs: seq<Type>, vs: seq<Value>)
    requires EarlyAdvance(fs) && HaveTypes(vs, fs) && |vs| == |fs|
    ensures LoadValue(c, k, Struct(fs)) == Record(vs) <==>
            forall i: nat :: i < |fs| ==> LoadValue(c, MemberKey(k, fs, i), fs[i]) == vs[i]
  {
    hide LoadValue, MemberKey, HaveTypes;
    AsFields(c, k, fs);
    assert NoEarlyArray(fs);
    forall i: nat | i < |fs|
      ensures |LoadValue(c, k, Struct(fs)).fields| == |fs|
      ensures LoadValue(c, k, Struct(fs)).fields[i] == LoadValue(c, MemberKey(k, fs, i), fs[i])
    {
      LoadMember(c, k, fs, i);
    }
    if forall i: nat :: i < |fs| ==> LoadValue(c, MemberKey(k, fs, i), fs[i]) == vs[i] {
      assert LoadValue(c, k, Struct(fs)).fields == vs;
    }
  }

  /** Reading a member of a stored struct gives the field that was stored, exactly for the storable structs. */
  lemma MemberRead(k: Key, fs: seq<Type>)
    requires WellFormed(Struct(fs))
    ensures (forall c, vs, i: nat :: HasType(Record(vs), Struct(fs)) && |vs| == |fs| && i < |fs| ==>
              LoadValue(StoreValue(c, k, Struct(fs), Record(vs)), MemberKey(k, fs, i), fs[i]) == vs[i]) <==>
            Storable(Struct(fs))
  {
    hide LoadValue, StoreValue, HaveTypes, MemberKey, EarlyAdvance;
    var all := Struct(fs);
    StructRoundTrip(k, all);
    if !EarlyAdvance(fs) {
      var c, vs := LastMemberLost(k, fs);
      assert !Storable(all);
    } else if Storable(all) {
      forall c, vs, i: nat | HasType(Record(vs), all) && |vs| == |fs| && i < |fs|
        ensures LoadValue(StoreValue(c, k, all, Record(vs)), MemberKey(k, fs, i), fs[i]) == vs[i]
      {
        MembersAreFields(StoreValue(c, k, all, Record(vs)), k, fs, vs);
      }
    } else {
      var c, v :| HasType(v, all) && LoadValue(StoreValue(c, k, all, v), k, all) != v;
      SameLength(v.fields, fs);
      assert v == Record(v.fields);
      MembersAreFields(StoreValue(c, k, all, v), k, fs, v.fields);
    }
  }

  lemma {:induction false} LoadSame(c: Cells, c': Cells, k: Key, steps: seq<Step>)
    requires forall key :: Region(key, k, Reach(Loading, steps)) ==> Read(c, key) == Read(c', key)
    ensures LoadLeaves(c, k, steps) == LoadLeaves(c', k, steps)
    decreases steps
  {
    if steps != [] {
      PlusPlus(k, 0, 0);
      assert k == k.Plus(0);
      assert Region(k, k, Reach(Loading, steps));
      forall i ensures Region(Hashed(k, i), k, Reach(Loading, steps)) { assert Hashed(k, i).of == k.Plus(0); }
      SameLeaf(c, c', k, steps[0].kind);
      if |steps| > 1 {
        var m := Moved(Loading, steps[0]);
        forall key | Region(key, k.Plus(m), Reach(Loading, steps[1..])) ensures Read(c, key) == Read(c', key) {
          RegionShift(key, k, m, Reach(Loading, steps[1..]));
        }
        LoadSame(c, c', k.Plus(m), steps[1..]);
      }
    }
  }

  /** Regions that do not overlap as ranges of slots have no key in common. */
  lemma Apart(key: Key, k: Key, i: nat, m: nat, j: nat, n: nat)
    requires i + m < j || j + n < i
    requires Region(key, k.Plus(j), n)
    ensures !Region(key, k.Plus(i), m)
  {
    forall l: nat ensures k.Plus(l).Depth() == k.Depth() {
      PlusPlus(k, l, 0);
    }
    var b: nat :| b <= n && (key == k.Plus(j).Plus(b) || (key.Hashed? && key.of == k.Plus(j).Plus(b)));
    PlusPlus(k, j, b);
    forall a: nat | a <= m ensures k.Plus(i).Plus(a) != k.Plus(j + b) {
      PlusPlus(k, i, a);
    }
  }

  // ----- members and variables side by side -----

  /** The walks over a type stay within the slots the layout reserves for it. */
  lemma {:induction false} OneSlotPerLeaf(ty: Type, more: bool)
    ensures |Steps(ty, more)| == Layout.Slots(InLayout(ty))
    decreases ty, 0
  {
    match ty
    case Struct(fs) => AllOneSlotPerLeaf(fs);
    case Plain(DynamicArray) =>
      var none: seq<Layout.Dim> := [];
      Layout.ArraySlotsExact(Layout.Leaf, none, none);
      assert none + [Layout.Dynamic] + none == [Layout.Dynamic] && none + none == none;
    case Plain(_) =>
  }

  lemma {:induction false} AllOneSlotPerLeaf(fs: seq<Type>)
    ensures |AllSteps(fs)| == Layout.FieldSlots(AllInLayout(fs))
    decreases fs, 1
  {
    if fs != [] {
      OneSlotPerLeaf(fs[0], |fs| > 1);
      AllOneSlotPerLeaf(fs[1..]);
      assert AllInLayout(fs)[1..] == AllInLayout(fs[1..]);
    }
  }

  /** The slots of two variables do not overlap. */
  lemma SlotsApart(vars: seq<Type>, i: nat, j: nat)
    requires i < |vars| && j < |vars| && i != j && WellFormed(vars[i]) && WellFormed(vars[j])
    ensures Steps(vars[i], false) != [] && Steps(vars[j], false) != []
    ensures SlotOf(vars, i) + |Steps(vars[i], false)| <= SlotOf(vars, j) ||
            SlotOf(vars, j) + |Steps(vars[j], false)| <= SlotOf(vars, i)
  {
    var ls := AllInLayout(vars);
    OneSlotPerLeaf(vars[i], false);
    OneSlotPerLeaf(vars[j], false);
    if i < j { Layout.FieldsInOrder(ls, i, j); } else { Layout.FieldsInOrder(ls, j, i); }
  }

  /** A write that stays within the slots of one value is not seen by loading another. */
  lemma LoadUnaffected(c: Cells, c': Cells, k: Key, si: nat, n: nat, sj: nat, ty: Type)
    requires WellFormed(ty) && (si + n < sj || sj + |Steps(ty, false)| <= si)
    requires forall key :: !Region(key, k.Plus(si), n) ==> Read(c, key) == Read(c', key)
    ensures LoadValue(c, k.Plus(sj), ty) == LoadValue(c', k.Plus(sj), ty)
  {
    hide LoadLeaves, Steps, Build, Region, Reach;
    var steps := Steps(ty, false);
    ReachBelow(Loading, steps);
    forall key | Region(key, k.Plus(sj), Reach(Loading, steps)) ensures Read(c, key) == Read(c', key) {
      Apart(key, k, si, n, sj, Reach(Loading, steps));
    }
    LoadSame(c, c', k.Plus(sj), steps);
  }

  /** Storing or deleting one member changes no other, whatever the types. */
  lemma OtherMember(c: Cells, k: Key, fs: seq<Type>, i: nat, v: Value, j: nat)
    requires i < |fs| && j < |fs| && i != j
    requires WellFormed(fs[i]) && WellFormed(fs[j]) && HasType(v, fs[i])
    ensures
      var before := LoadValue(c, MemberKey(k, fs, j), fs[j]);
      && LoadValue(StoreValue(c, MemberKey(k, fs, i), fs[i], v), MemberKey(k, fs, j), fs[j]) == before
      && LoadValue(DeleteValue(c, MemberKey(k, fs, i), fs[i]), MemberKey(k, fs, j), fs[j]) == before
  {
    hide StoreValue, DeleteValue, LoadValue, Steps, HasType, Region, SlotOf;
    var si, sj, at := SlotOf(fs, i), SlotOf(fs, j), MemberKey(k, fs, i);
    SlotsApart(fs, i, j);
    var n := |Steps(fs[i], false)| - 1;
    forall key | !Region(key, at, n)
      ensures Read(c, key) == Read(StoreValue(c, at, fs[i], v), key)
      ensures Read(c, key) == Read(DeleteValue(c, at, fs[i]), key)
    {
      StructFrame(c, at, fs[i], v, key);
    }
    LoadUnaffected(c, StoreValue(c, at, fs[i], v), k, si, n, sj, fs[j]);
    LoadUnaffected(c, DeleteValue(c, at, fs[i]), k, si, n, sj, fs[j]);
  }

  /** And no variable of a contract changes another. */
  lemma VariablesApart(c: Cells, vars: seq<Type>, i: nat, v: Value, j: nat)
    requires i < |vars| && j < |vars| && i != j
    requires WellFormed(vars[i]) && WellFormed(vars[j]) && HasType(v, vars[i])
    ensures
      var before := LoadValue(c, Base(SlotOf(vars, j)), vars[j]);
      && LoadValue(StoreValue(c, Base(SlotOf(vars, i)), vars[i], v), Base(SlotOf(vars, j)), vars[j]) == before
      && LoadValue(DeleteValue(c, Base(SlotOf(vars, i)), vars[i]), Base(SlotOf(vars, j)), vars[j]) == before
  {
    hide StoreValue, DeleteValue, LoadValue, SlotOf;
    assert forall l: nat :: Base(0).Plus(l) == Base(l);
    OtherMember(c, Base(0), vars, i, v, j);
  }

  // ----- writing members -----

  /** Assigning to a member and then loading the struct gives the struct with that field replaced. */
  lemma WriteThenLoad(c: Cells, k: Key, fs: seq<Type>, i: nat, v: Value)
    requires WellFormed(Struct(fs)) && NoEarlyArray(fs) && i < |fs| && HasType(v, fs[i]) && Storable(fs[i])
    ensures
      var before := LoadValue(c, k, Struct(fs)).fields;
      && |before| == |fs|
      && LoadValue(StoreValue(c, MemberKey(k, fs, i), fs[i], v), k, Struct(fs)) == Record(before[i := v])
  {
    hide LoadLeaves, BuildAll, StoreValue, HasType, MemberKey;
    var r := StoreValue(c, MemberKey(k, fs, i), fs[i], v);
    var before, after := LoadValue(c, k, Struct(fs)).fields, LoadValue(r, k, Struct(fs)).fields;
    LoadMember(c, k, fs, i);
    LoadMember(r, k, fs, i);
    forall j | 0 <= j < |fs| ensures after[j] == before[i := v][j] {
      LoadMember(c, k, fs, j);
      LoadMember(r, k, fs, j);
      if j == i {
        StructRoundTrip(MemberKey(k, fs, i), fs[i]);
      } else {
        OtherMember(c, k, fs, i, v, j);
      }
    }
    assert after == before[i := v];
    AsFields(r, k, fs);
  }

  /** After an early array, a value written to the last member is not the one the whole struct shows. */
  lemma LastWriteLost(k: Key, fs: seq<Type>) returns (c: Cells, v: Value)
    requires WellFormed(Struct(fs)) && !NoEarlyArray(fs)
    ensures HasType(v, fs[|fs| - 1])
    ensures
      var after := LoadValue(StoreValue(c, MemberKey(k, fs, |fs| - 1), fs[|fs| - 1], v), k, Struct(fs)).fields;
      |after| == |fs| && after[|fs| - 1] != v
  {
    hide LoadLeaves, StoreLeaves, Steps, Moves, Before, Region, HasType, SlotOf;
    var last := |fs| - 1;
    var m := Moves(Loading, Before(fs, last));
    EarlyArrayMoves(k, fs);
    c, v := map[k.Plus(m) := FromWord(1)], LoadValue(map[], k, fs[last]);
    var r := StoreValue(c, MemberKey(k, fs, last), fs[last], v);
    PlusPlus(k, m, 0);
    InOwnRegion(k.Plus(m));
    Apart(k.Plus(m), k, SlotOf(fs, last), |Steps(fs[last], false)| - 1, m, 0);
    StructFrame(c, MemberKey(k, fs, last), fs[last], v, k.Plus(m));
    LoadedAt(r, k, fs, last);
    FirstDiffers(r, k.Plus(m), map[], k, fs[last]);
  }

  lemma InOwnRegion(k: Key)
    ensures Region(k, k, 0)
  {
    PlusPlus(k, 0, 0);
    assert k == k.Plus(0);
  }

  /**
    Assigning to a member replaces that field of the value and nothing else, for all storages
    and values, exactly when no early field holds a dynamic array and every field is storable.
  */
  lemma MemberWrite(k: Key, fs: seq<Type>)
    requires WellFormed(Struct(fs))
    ensures (forall c, i: nat, v :: i < |fs| && HasType(v, fs[i]) ==>
              var before := LoadValue(c, k, Struct(fs)).fields;
              && |before| == |fs|
              && LoadValue(StoreValue(c, MemberKey(k, fs, i), fs[i], v), k, Struct(fs)) == Record(before[i := v])) <==>
            NoEarlyArray(fs) && forall f <- fs :: Storable(f)
  {
    hide LoadLeaves, BuildAll, StoreValue, HasType, MemberKey, NoEarlyArray, Storable;
    if !NoEarlyArray(fs) {
      var c, v := LastWriteLost(k, fs);
    } else if i: nat :| i < |fs| && !Storable(fs[i]) {
      StructRoundTrip(MemberKey(k, fs, i), fs[i]);
      var c, v :| HasType(v, fs[i]) &&
                  LoadValue(StoreValue(c, MemberKey(k, fs, i), fs[i], v), MemberKey(k, fs, i), fs[i]) != v;
      LoadMember(StoreValue(c, MemberKey(k, fs, i), fs[i], v), k, fs, i);
    } else {
      forall c, i: nat, v | i < |fs| && HasType(v, fs[i])
        ensures |LoadValue(c, k, Struct(fs)).fields| == |fs|
        ensures LoadValue(StoreValue(c, MemberKey(k, fs, i), fs[i], v), k, Struct(fs)) ==
                Record(LoadValue(c, k, Struct(fs)).fields[i := v])
      {
        WriteThenLoad(c, k, fs, i, v);
      }
    }
  }
}
