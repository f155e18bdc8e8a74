/**
  The storage operations as the emitted code performs them: a cursor object whose key is
  advanced in place, loops that share it, and cells written one at a time.  Each operation
  is proved to leave behind what the functions of `Vectors` and `Structs` say.
*/
module Storage {
  import opened Wrappers
  import opened Field
  import opened Vectors
  import opened Records
  import opened Structs

  /** The key of a slot held in memory.  Whoever holds the cursor sees it move. */
  class Cursor {
    var key: Key

    constructor (k: Key)
      ensures key == k
    {
      key := k;
    }

    method Advance(n: nat)
      modifies this
      ensures key == old(key).Plus(n)
    {
      key := key.Plus(n);
    }
  }

  class ContractStorage {
    var cells: Cells

    constructor ()
      ensures cells == map[]
    {
      cells := map[];
    }

    // ----- single cells -----

    method LoadWord(c: Cursor) returns (w: Word)
      modifies c
      ensures w == Read(cells, old(c.key)).low
      ensures c.key == old(c.key).Plus(1)
    {
      w := Read(cells, c.key).low;
      c.Advance(1);
    }

    method Put(k: Key, cell: Cell)
      modifies this
      ensures cells == old(cells)[k := cell]
    {
      cells := cells[k := cell];
    }

    // ----- strings and dynamic arrays of words -----

    method LoadVector(slot: Key) returns (v: seq<Word>)
      ensures v == Contents(cells, slot)
    {
      var length := Read(cells, slot).low;
      var elem := new Cursor(Hashed(slot, 0));
      v := [];
      var i := 0;
      while i < length
        invariant i <= length && |v| == i
        invariant elem.key == Hashed(slot, i)
        invariant forall j :: 0 <= j < i ==> v[j] == Read(cells, Hashed(slot, j)).low
      {
        var w := LoadWord(elem);
        v := v + [w];
        i := i + 1;
      }
    }

    /** The second loop goes on with the cursor where the first has left it. */
    method StoreVector(slot: Key, v: Vector)
      modifies this
      ensures cells == WriteVector(old(cells), slot, v)
    {
      var previous := Read(cells, slot).low;
      Put(slot, FromWord(|v|));
      var elem := new Cursor(Hashed(slot, 0));
      CopyElements(slot, elem, v);
      ClearElements(slot, elem, |v|, previous);
    }

    method CopyElements(slot: Key, elem: Cursor, v: seq<Word>)
      requires elem.key == Hashed(slot, 0)
      modifies this, elem
      ensures cells == Fill(old(cells), slot, 0, v) && elem.key == Hashed(slot, |v|)
    {
      hide Fill, Read;
      var i := 0;
      NothingFilled(cells, slot, 0);
      while i < |v|
        invariant i <= |v| && elem.key == Hashed(slot, i)
        invariant cells == Fill(old(cells), slot, 0, v[..i])
      {
        Put(elem.key, FromWord(v[i]));
        elem.Advance(1);
        FillOneMore(old(cells), slot, 0, v[..i], v[i]);
        assert v[..i + 1] == v[..i] + [v[i]];
        i := i + 1;
      }
      assert v[..|v|] == v;
    }

    method ClearElements(slot: Key, elem: Cursor, from: nat, to: nat)
      requires elem.key == Hashed(slot, from)
      modifies this, elem
      ensures cells == Fill(old(cells), slot, from, Zeros(if to > from then to - from else 0))
    {
      hide Fill, Read, Zeros;
      var i := from;
      NothingFilled(cells, slot, from);
      while i < to
        invariant from <= i && (i <= to || i == from) && elem.key == Hashed(slot, i)
        invariant cells == Fill(old(cells), slot, from, Zeros(i - from))
      {
        Put(elem.key, EMPTY);
        elem.Advance(1);
        FillOneMore(old(cells), slot, from, Zeros(i - from), 0);
        ZeroOneMore(i - from);
        i := i + 1;
      }
    }

    method DeleteArray(slot: Key)
      modifies this
      ensures cells == DeleteVector(old(cells), slot)
    {
      var length := Read(cells, slot).low;
      var elem := new Cursor(Hashed(slot, 0));
      ClearElements(slot, elem, 0, length);
      Put(slot, EMPTY);
    }

    method ArrayPush(slot: Key, value: Option<Word>)
      modifies this
      ensures cells == PushVector(old(cells), slot, value)
    {
      var length := Read(cells, slot).low;
      var position := new Cursor(Hashed(slot, length));
      if value.Some? {
        Put(position.key, FromWord(value.value));
      }
      Put(slot, FromWord(FieldAdd(length, 1)));
    }

    /** Reading the element moves the cursor that the delete then uses. */
    method ArrayPop(slot: Key) returns (w: Word)
      modifies this
      ensures cells == PopVector(old(cells), slot)
      ensures w == Popped(old(cells), slot)
    {
      var length := Read(cells, slot).low;
      var position := new Cursor(Hashed(slot, length));
      w := LoadWord(position);
      Put(position.key, EMPTY);
      Put(slot, FromWord(FieldSub(length, 1)));
    }

    /** The key of an element of an array at a numbered slot, or nothing if the program stops. */
    method Subscript(slot: nat, index: U32) returns (k: Option<Key>)
      ensures
        var length := Length(cells, Base(slot));
        k == if index < length <= index + TWO_32 then Some(Hashed(Base(slot), 0).Plus(index)) else None
    {
      var held := new Cursor(Base(slot));
      var length := LoadWord(held);
      BoundsCheckExact(length, index);
      if !BoundsCheck(length, index) { return None; }
      k := Some(Hashed(Base(slot), index));
    }

    /** When the slot is held by a cursor, reading the length moves it, and the element is another slot's. */
    method SubscriptAt(held: Cursor, index: U32) returns (k: Option<Key>)
      modifies held
      ensures
        var length := Length(cells, old(held.key));
        k == if index < length <= index + TWO_32 then Some(Hashed(old(held.key).Plus(1), index)) else None
      ensures held.key == old(held.key).Plus(1)
    {
      var length := LoadWord(held);
      BoundsCheckExact(length, index);
      if !BoundsCheck(length, index) { return None; }
      k := Some(Hashed(held.key, index));
    }

    // ----- values of any type -----

    method Store(ty: Type, c: Cursor, v: Value)
      requires HasType(v, ty)
      modifies this, c
      ensures cells == StoreValue(old(cells), old(c.key), ty, v)
      ensures c.key == old(c.key).Plus(Moves(Storing, Steps(ty, false)))
      decreases ty, 0
    {
      PlusPlus(c.key, 0, 0);
      match ty
      case Plain(Scalar) => Put(c.key, FromWord(v.w));
      case Plain(Wide) => Put(c.key, v.cell);
      case Plain(_) => StoreVector(c.key, v.v);
      case Struct(fs) => StoreFields(fs, c, v.fields);
    }

    method StoreFields(fs: seq<Type>, c: Cursor, vs: seq<Value>)
      requires HaveTypes(vs, fs)
      modifies this, c
      ensures Fit(AllSteps(fs), AllFlat(vs))
      ensures cells == StoreLeaves(old(cells), old(c.key), AllSteps(fs), AllFlat(vs))
      ensures c.key == old(c.key).Plus(Moves(Storing, AllSteps(fs)))
      decreases fs, 1
    {
      hide StoreLeaves, Fit, Moves, Flat, AllFlat, Steps, AllSteps, StoreValue;
      AllFlatFits(fs, vs);
      var i := 0;
      while i < |fs|
        invariant i <= |fs| && HaveTypes(vs[i..], fs[i..])
        invariant Fit(AllSteps(fs), AllFlat(vs)) && Fit(AllSteps(fs[i..]), AllFlat(vs[i..]))
        invariant StoreLeaves(cells, c.key, AllSteps(fs[i..]), AllFlat(vs[i..])) ==
                  StoreLeaves(old(cells), old(c.key), AllSteps(fs), AllFlat(vs))
        invariant c.key.Plus(Moves(Storing, AllSteps(fs[i..]))) == old(c.key).Plus(Moves(Storing, AllSteps(fs)))
      {
        ghost var c0, k0 := cells, c.key;
        Store(fs[i], c, vs[i]);
        PlusPlus(c.key, 0, 0);
        if fs[i].Plain? && fs[i].kind.Advances() && i != |fs| - 1 {
          c.Advance(1);
        }
        StoreFieldThenRest(c0, k0, fs[i..], vs[i..]);
        assert fs[i..][1..] == fs[i + 1..] && vs[i..][1..] == vs[i + 1..];
        i := i + 1;
      }
      NoLeaves(cells, c.key);
    }

    method Load(ty: Type, c: Cursor) returns (v: Value)
      modifies c
      ensures v == LoadValue(cells, old(c.key), ty)
      ensures c.key == old(c.key).Plus(Moves(Loading, Steps(ty, false)))
      decreases ty, 0
    {
      PlusPlus(c.key, 0, 0);
      match ty
      case Plain(Scalar) => var w := LoadWord(c); v := Number(w);
      case Plain(Wide) => v := Four(Read(cells, c.key)); c.Advance(1);
      case Plain(DynamicArray) => var s := LoadVector(c.key); v := Words(s);
      case Plain(_) => var s := LoadVector(c.key); v := Words(s); c.Advance(1);
      case Struct(fs) => var vs := LoadFields(fs, c); v := Record(vs);
    }

    method LoadFields(fs: seq<Type>, c: Cursor) returns (vs: seq<Value>)
      modifies c
      ensures vs == BuildAll(fs, LoadLeaves(cells, old(c.key), AllSteps(fs)))
      ensures c.key == old(c.key).Plus(Moves(Loading, AllSteps(fs)))
      decreases fs, 1
    {
      hide LoadLeaves, Fit, Moves, Steps, AllSteps, BuildAll, LoadValue;
      vs := [];
      var i := 0;
      while i < |fs|
        invariant i <= |fs|
        invariant BuildAll(fs, LoadLeaves(cells, old(c.key), AllSteps(fs))) ==
                  vs + BuildAll(fs[i..], LoadLeaves(cells, c.key, AllSteps(fs[i..])))
        invariant c.key.Plus(Moves(Loading, AllSteps(fs[i..]))) == old(c.key).Plus(Moves(Loading, AllSteps(fs)))
      {
        ghost var k0 := c.key;
        var field := Load(fs[i], c);
        LoadFieldThenRest(cells, k0, fs[i..]);
        assert fs[i..][1..] == fs[i + 1..];
        vs := vs + [field];
        i := i + 1;
      }
      NoLeaves(cells, c.key);
    }

    /** After a leaf the cursor is moved by the struct around it, after the last one too. */
    method Delete(ty: Type, c: Cursor)
      modifies this, c
      ensures cells == DeleteValue(old(cells), old(c.key), ty)
      ensures IsDeleted(old(cells), cells, old(c.key), Steps(ty, false))
      ensures c.key == old(c.key).Plus(if ty.Struct? then Moves(Deleting, Steps(ty, false)) else 0)
      decreases ty, 0
    {
      PlusPlus(c.key, 0, 0);
      LeavesDeleted(cells, c.key, Steps(ty, false));
      match ty
      case Plain(DynamicArray) => DeleteArray(c.key);
      case Plain(_) => Put(c.key, EMPTY);
      case Struct(fs) => DeleteFields(fs, c);
    }

    method DeleteFields(fs: seq<Type>, c: Cursor)
      modifies this, c
      ensures cells == DeleteLeaves(old(cells), old(c.key), AllSteps(fs))
      ensures c.key == old(c.key).Plus(Moves(Deleting, AllSteps(fs)))
      decreases fs, 1
    {
      hide DeleteLeaves, Moves, Steps, AllSteps, DeleteValue;
      var i := 0;
      while i < |fs|
        invariant i <= |fs|
        invariant DeleteLeaves(cells, c.key, AllSteps(fs[i..])) == DeleteLeaves(old(cells), old(c.key), AllSteps(fs))
        invariant c.key.Plus(Moves(Deleting, AllSteps(fs[i..]))) == old(c.key).Plus(Moves(Deleting, AllSteps(fs)))
      {
        ghost var c0, k0 := cells, c.key;
        Delete(fs[i], c);
        PlusPlus(k0, 0, 0);
        if fs[i].Plain? && fs[i].kind.Advances() {
          c.Advance(1);
        }
        DeleteFieldThenRest(c0, k0, fs[i..]);
        assert fs[i..][1..] == fs[i + 1..];
        i := i + 1;
      }
      NoLeaves(cells, c.key);
    }
  }

  lemma NothingFilled(c: Cells, slot: Key, from: nat)
    ensures Fill(c, slot, from, []) == Fill(c, slot, from, Zeros(0)) == c
  {
    assert Zeros(0) == [];
  }

  lemma NoLeaves(c: Cells, k: Key)
    ensures AllSteps([]) == [] && AllFlat([]) == [] && BuildAll([], []) == []
    ensures StoreLeaves(c, k, [], []) == DeleteLeaves(c, k, []) == c
    ensures LoadLeaves(c, k, []) == []
    ensures forall w :: k.Plus(Moves(w, [])) == k
  {
    PlusPlus(k, 0, 0);
  }
}
