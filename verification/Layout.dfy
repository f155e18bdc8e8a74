/**
  Which slot of contract storage belongs to which part of which variable.  A path leads from
  a variable through members of structs and elements of fixed arrays to a leaf; the slots of
  the leaves divide up the layout without gaps and without overlap.
*/
module Layout {
  import opened Numbers

  datatype Dim = Fixed(length: nat) | Dynamic

  /** `Skipped` stands for a field of infinite size or a constant variable, which take up no slots. */
  datatype Type = Leaf | Struct(fields: seq<Type>) | Array(elem: Type, dims: seq<Dim>) | Skipped

  // ----- sizes -----

  function Slots(ty: Type): nat
    decreases ty, 0
  {
    match ty
    case Leaf => 1
    case Struct(fs) => FieldSlots(fs)
    case Array(elem, dims) => ArraySlots(elem, dims)
    case Skipped => 0
  }

  function FieldSlots(fs: seq<Type>): nat
    decreases fs, 1
  {
    if fs == [] then 0 else Slots(fs[0]) + FieldSlots(fs[1..])
  }

  function ArraySlots(elem: Type, dims: seq<Dim>): nat
    decreases elem, 1
  {
    Slots(elem) * Product(dims)
  }

  function Product(dims: seq<Dim>): nat {
    if dims == [] then 1
    else
      var last := dims[|dims| - 1];
      Product(dims[..|dims| - 1]) * (if last.Fixed? then last.length else 1)
  }

  /**
    A dynamic dimension counts as one and a fixed one as its length, wherever it stands; an array
    without dimensions takes what its element takes.
  */
  lemma ArraySlotsExact(elem: Type, a: seq<Dim>, b: seq<Dim>)
    ensures Slots(Array(elem, [])) == Slots(elem)
    ensures Slots(Array(elem, a + [Dynamic] + b)) == Slots(Array(elem, a + b))
    ensures forall n: nat :: Slots(Array(elem, a + [Fixed(n)] + b)) == n * Slots(Array(elem, a + b))
  {
    ProductWithout(a, Dynamic, b);
    forall n: nat ensures Slots(Array(elem, a + [Fixed(n)] + b)) == n * Slots(Array(elem, a + b)) {
      ProductWithout(a, Fixed(n), b);
      Reordered(Slots(elem), Product(a + b), n);
    }
  }

  lemma Reordered(x: nat, y: nat, n: nat)
    ensures x * (y * n) == n * (x * y)
  {
    assert x * (y * n) == (x * y) * n;
  }

  lemma {:induction false} ProductWithout(a: seq<Dim>, d: Dim, b: seq<Dim>)
    ensures Product(a + [d] + b) == Product(a + b) * (if d.Fixed? then d.length else 1)
    decreases |b|
  {
    if b == [] {
      assert a + [d] + b == a + [d] && (a + [d])[..|a|] == a && a + b == a;
    } else {
      var inner, last := b[..|b| - 1], b[|b| - 1];
      ProductWithout(a, d, inner);
      assert (a + [d] + b)[..|a| + |b|] == a + [d] + inner && (a + b)[..|a + b| - 1] == a + inner;
      Swapped(Product(a + inner), if d.Fixed? then d.length else 1, if last.Fixed? then last.length else 1);
    }
  }

  lemma Swapped(x: nat, y: nat, z: nat)
    ensures (x * y) * z == (x * z) * y
  {
    assert (x * y) * z == x * (y * z) == x * (z * y) == (x * z) * y;
  }

  /** Struct definitions without fields and arrays of length zero are rejected. */
  predicate Solid(ty: Type) {
    match ty
    case Leaf => true
    case Struct(fs) => (exists f <- fs :: !f.Skipped?) && SolidFields(fs)
    case Array(elem, dims) => Solid(elem) && forall d <- dims :: d.Fixed? ==> d.length > 0
    case Skipped => false
  }

  predicate SolidFields(fs: seq<Type>) {
    forall f <- fs :: f.Skipped? || Solid(f)
  }

  // ----- paths -----

  predicate IsPath(ty: Type, p: seq<nat>)
    decreases ty, 0
  {
    match ty
    case Leaf => p == []
    case Struct(fs) => p != [] && p[0] < |fs| && IsPath(fs[p[0]], p[1..])
    case Array(elem, dims) => IsArrayPath(elem, dims, p)
    case Skipped => false
  }

  /** The last dimension is the outermost; a dynamic array is a leaf, its elements live elsewhere. */
  predicate IsArrayPath(elem: Type, dims: seq<Dim>, p: seq<nat>)
    decreases elem, |dims| + 1
  {
    if dims == [] then IsPath(elem, p)
    else
      match dims[|dims| - 1]
      case Dynamic => p == []
      case Fixed(n) => p != [] && p[0] < n && IsArrayPath(elem, dims[..|dims| - 1], p[1..])
  }

  /** The slot a path leads to: member offsets and index times element size, added up. */
  function Offset(ty: Type, p: seq<nat>): nat
    requires IsPath(ty, p)
    decreases ty, 0
  {
    match ty
    case Leaf => 0
    case Struct(fs) => FieldSlots(fs[..p[0]]) + Offset(fs[p[0]], p[1..])
    case Array(elem, dims) => ArrayOffset(elem, dims, p)
  }

  function ArrayOffset(elem: Type, dims: seq<Dim>, p: seq<nat>): nat
    requires IsArrayPath(elem, dims, p)
    decreases elem, |dims| + 1
  {
    if dims == [] then Offset(elem, p)
    else
      match dims[|dims| - 1]
      case Dynamic => 0
      case Fixed(_) =>
        var inner := dims[..|dims| - 1];
        p[0] * ArraySlots(elem, inner) + ArrayOffset(elem, inner, p[1..])
  }

  /** How many slots the leaf at the end of a path is given. */
  function Width(ty: Type, p: seq<nat>): nat
    requires IsPath(ty, p)
    decreases ty, 0
  {
    match ty
    case Leaf => 1
    case Struct(fs) => Width(fs[p[0]], p[1..])
    case Array(elem, dims) => ArrayWidth(elem, dims, p)
  }

  function ArrayWidth(elem: Type, dims: seq<Dim>, p: seq<nat>): nat
    requires IsArrayPath(elem, dims, p)
    decreases elem, |dims| + 1
  {
    if dims == [] then Width(elem, p)
    else
      match dims[|dims| - 1]
      case Dynamic => ArraySlots(elem, dims)
      case Fixed(_) => ArrayWidth(elem, dims[..|dims| - 1], p[1..])
  }

  // ----- the path that leads to a slot -----

  function PathOf(ty: Type, n: nat): seq<nat>
    requires Solid(ty)
    decreases ty, 0
  {
    match ty
    case Leaf => []
    case Struct(fs) => PathIn(fs, n)
    case Array(elem, dims) => ArrayPathOf(elem, dims, n)
  }

  function PathIn(fs: seq<Type>, n: nat): seq<nat>
    requires SolidFields(fs)
    decreases fs, 1
  {
    if fs == [] then []
    else if n >= Slots(fs[0]) then
      var p := PathIn(fs[1..], n - Slots(fs[0]));
      if p == [] then [] else [p[0] + 1] + p[1..]
    else [0] + PathOf(fs[0], n)
  }

  function ArrayPathOf(elem: Type, dims: seq<Dim>, n: nat): seq<nat>
    requires Solid(Array(elem, dims))
    decreases elem, |dims| + 1
  {
    if dims == [] then PathOf(elem, n)
    else
      match dims[|dims| - 1]
      case Dynamic => []
      case Fixed(_) =>
        var inner := dims[..|dims| - 1];
        SolidSize(Array(elem, inner));
        var size := ArraySlots(elem, inner);
        [n / size] + ArrayPathOf(elem, inner, n % size)
  }

  lemma {:induction false} SolidSize(ty: Type)
    requires Solid(ty)
    ensures Slots(ty) > 0
    decreases ty, 0
  {
    match ty
    case Leaf =>
    case Struct(fs) => SolidFieldsSize(fs);
    case Array(elem, dims) =>
      SolidSize(elem);
      SolidProduct(dims);
      Positive(Slots(elem), Product(dims));
  }

  lemma {:induction false} SolidFieldsSize(fs: seq<Type>)
    requires SolidFields(fs) && exists f <- fs :: !f.Skipped?
    ensures FieldSlots(fs) > 0
    decreases fs, 1
  {
    assert fs[0] in fs;
    if fs[0].Skipped? {
      SolidFieldsSize(fs[1..]);
    } else {
      SolidSize(fs[0]);
    }
  }

  lemma {:induction false} SolidProduct(dims: seq<Dim>)
    requires forall d <- dims :: d.Fixed? ==> d.length > 0
    ensures Product(dims) > 0
  {
    if dims != [] {
      var inner, last := dims[..|dims| - 1], dims[|dims| - 1];
      SolidProduct(inner);
      Positive(Product(inner), if last.Fixed? then last.length else 1);
    }
  }

  // ----- the main result -----

  /** The slots given to the leaf at the end of a path. */
  predicate Holds(ty: Type, p: seq<nat>, n: nat) {
    IsPath(ty, p) && Offset(ty, p) <= n < Offset(ty, p) + Width(ty, p)
  }

  /** Every slot of a contract belongs to exactly one leaf, and no leaf has a slot outside the layout. */
  lemma Partition(vars: seq<Type>, p: seq<nat>, n: nat)
    requires SolidFields(vars)
    ensures Holds(Struct(vars), p, n) <==> n < Slots(Struct(vars)) && p == PathIn(vars, n)
  {
    if Holds(Struct(vars), p, n) { UniqueIn(vars, p, n); }
    if n < Slots(Struct(vars)) { FoundIn(vars, n); }
  }

  /** Different leaves have no slot in common. */
  lemma Injective(vars: seq<Type>, p: seq<nat>, q: seq<nat>)
    requires SolidFields(vars) && IsPath(Struct(vars), p) && IsPath(Struct(vars), q)
    ensures
      var ty := Struct(vars);
      var a, b := Offset(ty, p), Offset(ty, q);
      && a + Width(ty, p) <= Slots(ty)
      && (p != q ==> a + Width(ty, p) <= b || b + Width(ty, q) <= a)
      && (a == b ==> p == q)
  {
    var ty := Struct(vars);
    SolidWidthIn(vars, p);
    SolidWidthIn(vars, q);
    var a, b := Offset(ty, p), Offset(ty, q);
    Partition(vars, p, a);
    Partition(vars, q, b);
    Partition(vars, p, b);
    Partition(vars, q, a);
    Partition(vars, p, a + Width(ty, p) - 1);
  }

  lemma SolidWidthIn(vars: seq<Type>, p: seq<nat>)
    requires SolidFields(vars) && IsPath(Struct(vars), p)
    ensures Width(Struct(vars), p) > 0
  {
    assert vars[p[0]] in vars;
    SolidWidth(vars[p[0]], p[1..]);
  }

  /** Which of two paths comes first: the one with the smaller member or index where they part. */
  predicate Precedes(p: seq<nat>, q: seq<nat>) {
    p != [] && q != [] && (p[0] < q[0] || (p[0] == q[0] && Precedes(p[1..], q[1..])))
  }

  /** Leaves lie in the order of their paths: fields as declared, elements by index, outer ones first. */
  lemma {:induction false} InOrder(ty: Type, p: seq<nat>, q: seq<nat>)
    requires IsPath(ty, p) && IsPath(ty, q) && Precedes(p, q)
    ensures Offset(ty, p) + Width(ty, p) <= Offset(ty, q)
    decreases ty, 0
  {
    match ty
    case Leaf =>
    case Struct(fs) =>
      if p[0] == q[0] {
        InOrder(fs[p[0]], p[1..], q[1..]);
      } else {
        Within(fs[p[0]], p[1..]);
        FieldsInOrder(fs, p[0], q[0]);
      }
    case Array(elem, dims) => InOrderInArray(elem, dims, p, q);
  }

  lemma {:induction false} InOrderInArray(elem: Type, dims: seq<Dim>, p: seq<nat>, q: seq<nat>)
    requires IsArrayPath(elem, dims, p) && IsArrayPath(elem, dims, q) && Precedes(p, q)
    ensures ArrayOffset(elem, dims, p) + ArrayWidth(elem, dims, p) <= ArrayOffset(elem, dims, q)
    decreases elem, |dims| + 1
  {
    if dims == [] {
      InOrder(elem, p, q);
    } else {
      var inner := dims[..|dims| - 1];
      if p[0] == q[0] {
        InOrderInArray(elem, inner, p[1..], q[1..]);
      } else {
        WithinArray(elem, inner, p[1..]);
        MulMonotone(p[0] + 1, q[0], ArraySlots(elem, inner));
        OneMore(p[0], ArraySlots(elem, inner));
      }
    }
  }

  lemma OneMore(i: nat, n: nat)
    ensures (i + 1) * n == i * n + n
  {}

  /** A part of a type lies inside it. */
  lemma {:induction false} Within(ty: Type, p: seq<nat>)
    requires IsPath(ty, p)
    ensures Offset(ty, p) + Width(ty, p) <= Slots(ty)
    decreases ty, 0
  {
    match ty
    case Leaf =>
    case Struct(fs) =>
      Within(fs[p[0]], p[1..]);
      FieldsInOrder(fs, p[0], |fs|);
      assert fs[..|fs|] == fs;
    case Array(elem, dims) => WithinArray(elem, dims, p);
  }

  lemma {:induction false} WithinArray(elem: Type, dims: seq<Dim>, p: seq<nat>)
    requires IsArrayPath(elem, dims, p)
    ensures ArrayOffset(elem, dims, p) + ArrayWidth(elem, dims, p) <= ArraySlots(elem, dims)
    decreases elem, |dims| + 1
  {
    if dims == [] {
      Within(elem, p);
      assert ArraySlots(elem, []) == Slots(elem);
    } else if dims[|dims| - 1].Fixed? {
      var inner, n := dims[..|dims| - 1], dims[|dims| - 1].length;
      WithinArray(elem, inner, p[1..]);
      MulMonotone(p[0] + 1, n, ArraySlots(elem, inner));
      OneMore(p[0], ArraySlots(elem, inner));
      Reordered(Slots(elem), Product(inner), n);
    }
  }

  lemma {:induction false} FieldsInOrder(fs: seq<Type>, i: nat, j: nat)
    requires i < j <= |fs|
    ensures FieldSlots(fs[..i]) + Slots(fs[i]) <= FieldSlots(fs[..j])
    decreases j
  {
    assert fs[..j] == fs[..j - 1] + [fs[j - 1]];
    Sizes(fs[..j - 1], fs[j - 1]);
    if i < j - 1 { FieldsInOrder(fs, i, j - 1); }
  }

  ghost predicate StartsLeaf(ty: Type, n: nat) {
    exists p :: IsPath(ty, p) && Offset(ty, p) == n
  }

  /** The first slots of the leaves fill the layout exactly when no leaf is given more than one. */
  lemma FillsExactly(vars: seq<Type>)
    requires SolidFields(vars)
    ensures (forall n: nat :: n < Slots(Struct(vars)) ==> StartsLeaf(Struct(vars), n)) <==>
            (forall p :: IsPath(Struct(vars), p) ==> Width(Struct(vars), p) == 1)
  {
    var ty := Struct(vars);
    if forall p :: IsPath(ty, p) ==> Width(ty, p) == 1 {
      forall n: nat | n < Slots(ty) ensures StartsLeaf(ty, n) {
        Partition(vars, PathIn(vars, n), n);
      }
    } else {
      var p :| IsPath(ty, p) && Width(ty, p) != 1;
      SolidWidthIn(vars, p);
      var n := Offset(ty, p) + 1;
      Partition(vars, p, n);
      forall q | IsPath(ty, q) ensures Offset(ty, q) != n {
        SolidWidthIn(vars, q);
        Partition(vars, q, n);
      }
      assert n < Slots(ty) && !StartsLeaf(ty, n);
    }
  }

  lemma {:induction false} Found(ty: Type, n: nat)
    requires Solid(ty) && n < Slots(ty)
    ensures Holds(ty, PathOf(ty, n), n)
    decreases ty, 0
  {
    match ty
    case Leaf =>
    case Struct(fs) => FoundIn(fs, n);
    case Array(elem, dims) => FoundInArray(elem, dims, n);
  }

  lemma {:induction false} FoundIn(fs: seq<Type>, n: nat)
    requires SolidFields(fs) && n < FieldSlots(fs)
    ensures Holds(Struct(fs), PathIn(fs, n), n)
    decreases fs, 1
  {
    assert fs[0] in fs;
    if n >= Slots(fs[0]) {
      FoundIn(fs[1..], n - Slots(fs[0]));
      OneFurther(fs, PathIn(fs[1..], n - Slots(fs[0])));
    } else {
      Found(fs[0], n);
      var p := PathIn(fs, n);
      assert p[1..] == PathOf(fs[0], n) && fs[..0] == [];
    }
  }

  /** A path in the rest of a struct is one in the struct, further on by the slots of the first field. */
  lemma OneFurther(fs: seq<Type>, p: seq<nat>)
    requires fs != [] && p != []
    ensures
      var q := [p[0] + 1] + p[1..];
      && (IsPath(Struct(fs), q) <==> IsPath(Struct(fs[1..]), p))
      && (IsPath(Struct(fs[1..]), p) ==>
          && Offset(Struct(fs), q) == Slots(fs[0]) + Offset(Struct(fs[1..]), p)
          && Width(Struct(fs), q) == Width(Struct(fs[1..]), p))
  {
    var q := [p[0] + 1] + p[1..];
    assert q[1..] == p[1..];
    if p[0] < |fs[1..]| {
      assert fs[q[0]] == fs[1..][p[0]];
      assert fs[..q[0]][1..] == fs[1..][..p[0]] && fs[..q[0]][0] == fs[0];
    }
  }

  lemma {:induction false} FoundInArray(elem: Type, dims: seq<Dim>, n: nat)
    requires Solid(Array(elem, dims)) && n < ArraySlots(elem, dims)
    ensures Holds(Array(elem, dims), ArrayPathOf(elem, dims, n), n)
    decreases elem, |dims| + 1
  {
    if dims == [] {
      Found(elem, n);
    } else if dims[|dims| - 1].Fixed? {
      var inner, length := dims[..|dims| - 1], dims[|dims| - 1].length;
      var size := ArraySlots(elem, inner);
      SolidSize(Array(elem, inner));
      Quotient(n, size, length, Product(inner), Slots(elem));
      FoundInArray(elem, inner, n % size);
      var p := ArrayPathOf(elem, dims, n);
      assert p[1..] == ArrayPathOf(elem, inner, n % size);
    }
  }

  lemma Quotient(n: nat, size: nat, length: nat, product: nat, slots: nat)
    requires size == slots * product && size > 0 && n < slots * (product * length)
    ensures n / size < length && n == n / size * size + n % size
  {
    assert slots * (product * length) == length * size;
    if n / size >= length { MulMonotone(length, n / size, size); }
  }

  lemma {:induction false} Unique(ty: Type, p: seq<nat>, n: nat)
    requires Solid(ty) && Holds(ty, p, n)
    ensures n < Slots(ty) && p == PathOf(ty, n)
    decreases ty, 0
  {
    match ty
    case Leaf =>
    case Struct(fs) => UniqueIn(fs, p, n);
    case Array(elem, dims) => UniqueInArray(elem, dims, p, n);
  }

  lemma {:induction false} UniqueIn(fs: seq<Type>, p: seq<nat>, n: nat)
    requires SolidFields(fs) && Holds(Struct(fs), p, n)
    ensures n < FieldSlots(fs) && p == PathIn(fs, n)
    decreases fs, 1
  {
    assert fs[0] in fs;
    if p[0] == 0 {
      assert fs[..0] == [];
      Unique(fs[0], p[1..], n);
      assert p == [0] + p[1..];
    } else {
      var q := [p[0] - 1] + p[1..];
      assert p == [q[0] + 1] + q[1..];
      OneFurther(fs, q);
      UniqueIn(fs[1..], q, n - Slots(fs[0]));
    }
  }

  lemma {:induction false} UniqueInArray(elem: Type, dims: seq<Dim>, p: seq<nat>, n: nat)
    requires Solid(Array(elem, dims)) && Holds(Array(elem, dims), p, n)
    ensures n < ArraySlots(elem, dims) && p == ArrayPathOf(elem, dims, n)
    decreases elem, |dims| + 1
  {
    hide ArraySlots, ArrayOffset, ArrayWidth;
    if dims == [] {
      OneElement(elem, p, n);
      Unique(elem, p, n);
    } else if dims[|dims| - 1].Fixed? {
      OuterIndex(elem, dims, p, n);
      var inner := dims[..|dims| - 1];
      var m := n - p[0] * ArraySlots(elem, inner);
      UniqueInArray(elem, inner, p[1..], m);
      OuterDigit(elem, dims, p[0], n);
      assert p == [p[0]] + p[1..];
    } else {
      DynamicLeaf(elem, dims, p, n);
    }
  }

  lemma OneElement(elem: Type, p: seq<nat>, n: nat)
    ensures Holds(Array(elem, []), p, n) <==> Holds(elem, p, n)
    ensures ArraySlots(elem, []) == Slots(elem)
  {
    assert IsPath(Array(elem, []), p) == IsArrayPath(elem, [], p);
    if IsPath(elem, p) {
      assert Offset(Array(elem, []), p) == ArrayOffset(elem, [], p);
      assert Width(Array(elem, []), p) == ArrayWidth(elem, [], p);
    }
  }

  lemma DynamicLeaf(elem: Type, dims: seq<Dim>, p: seq<nat>, n: nat)
    requires Solid(Array(elem, dims)) && dims != [] && dims[|dims| - 1].Dynamic? && Holds(Array(elem, dims), p, n)
    ensures n < ArraySlots(elem, dims) && p == ArrayPathOf(elem, dims, n)
  {
    assert IsArrayPath(elem, dims, p) && ArrayPathOf(elem, dims, n) == [];
    assert Width(Array(elem, dims), p) == ArrayWidth(elem, dims, p) == ArraySlots(elem, dims);
    assert Offset(Array(elem, dims), p) == ArrayOffset(elem, dims, p) == 0;
  }

  /** The rest of a path into an array is a path into one element, counted from its first slot. */
  lemma OuterIndex(elem: Type, dims: seq<Dim>, p: seq<nat>, n: nat)
    requires dims != [] && dims[|dims| - 1].Fixed? && Holds(Array(elem, dims), p, n)
    ensures
      var inner := dims[..|dims| - 1];
      var size := ArraySlots(elem, inner);
      && p != [] && p[0] < dims[|dims| - 1].length
      && 0 <= p[0] * size <= n
      && Holds(Array(elem, inner), p[1..], n - p[0] * size)
  {
    var inner := dims[..|dims| - 1];
    assert IsArrayPath(elem, dims, p);
    assert IsPath(Array(elem, inner), p[1..]);
    assert Offset(Array(elem, dims), p) == ArrayOffset(elem, dims, p) ==
           p[0] * ArraySlots(elem, inner) + ArrayOffset(elem, inner, p[1..]);
    assert Offset(Array(elem, inner), p[1..]) == ArrayOffset(elem, inner, p[1..]);
    assert Width(Array(elem, dims), p) == ArrayWidth(elem, dims, p) == ArrayWidth(elem, inner, p[1..]);
    assert Width(Array(elem, inner), p[1..]) == ArrayWidth(elem, inner, p[1..]);
    assert p[0] * ArraySlots(elem, inner) >= 0;
  }

  lemma OuterDigit(elem: Type, dims: seq<Dim>, i: nat, n: nat)
    requires Solid(Array(elem, dims)) && dims != [] && dims[|dims| - 1].Fixed? && i < dims[|dims| - 1].length
    requires
      var size := ArraySlots(elem, dims[..|dims| - 1]);
      0 <= i * size <= n < i * size + size
    ensures
      var inner := dims[..|dims| - 1];
      var size := ArraySlots(elem, inner);
      && n < ArraySlots(elem, dims)
      && Solid(Array(elem, inner))
      && ArrayPathOf(elem, dims, n) == [i] + ArrayPathOf(elem, inner, n - i * size)
  {
    var inner, length := dims[..|dims| - 1], dims[|dims| - 1].length;
    var size := ArraySlots(elem, inner);
    SolidSize(Array(elem, inner));
    Digit(n, size, i, length, Product(inner), Slots(elem));
    assert ArrayPathOf(elem, dims, n) == [n / size] + ArrayPathOf(elem, inner, n % size);
  }

  lemma Digit(n: nat, size: nat, i: nat, length: nat, product: nat, slots: nat)
    requires size == slots * product && size > 0 && i < length && i * size <= n < i * size + size
    ensures n < slots * (product * length) && n / size == i && n % size == n - i * size
  {
    assert slots * (product * length) == length * size;
    MulMonotone(i + 1, length, size);
    assert (i + 1) * size == i * size + size;
    QuotientRemainder(n, size, i, n - i * size);
  }

  lemma {:induction false} SolidWidth(ty: Type, p: seq<nat>)
    requires Solid(ty) && IsPath(ty, p)
    ensures Width(ty, p) > 0
    decreases ty, 0
  {
    match ty
    case Leaf =>
    case Struct(fs) =>
      assert fs[p[0]] in fs;
      SolidWidth(fs[p[0]], p[1..]);
    case Array(elem, dims) => SolidArrayWidth(elem, dims, p);
  }

  lemma {:induction false} SolidArrayWidth(elem: Type, dims: seq<Dim>, p: seq<nat>)
    requires Solid(Array(elem, dims)) && IsArrayPath(elem, dims, p)
    ensures ArrayWidth(elem, dims, p) > 0
    decreases elem, |dims| + 1
  {
    if dims == [] {
      SolidWidth(elem, p);
    } else if dims[|dims| - 1].Fixed? {
      SolidArrayWidth(elem, dims[..|dims| - 1], p[1..]);
    } else {
      SolidSize(Array(elem, dims));
    }
  }

  // ----- the layout loop -----

  datatype Entry = Entry(slot: nat, varNo: nat)

  /** One entry for every variable that is not constant, in order, at the sum of the sizes before it. */
  ghost predicate IsLayout(vars: seq<Type>, entries: seq<Entry>) {
    && (forall e <- entries :: e.varNo < |vars| && !vars[e.varNo].Skipped? && e.slot == FieldSlots(vars[..e.varNo]))
    && (forall i, j :: 0 <= i < j < |entries| ==> entries[i].varNo < entries[j].varNo)
    && (forall v: nat :: v < |vars| && !vars[v].Skipped? ==> exists e <- entries :: e.varNo == v)
  }

  method LayoutContract(vars: seq<Type>) returns (entries: seq<Entry>, size: nat)
    ensures IsLayout(vars, entries)
    ensures size == Slots(Struct(vars))
  {
    entries, size := [], 0;
    var varNo := 0;
    while varNo < |vars|
      invariant varNo <= |vars|
      invariant size == FieldSlots(vars[..varNo])
      invariant forall e <- entries ::
                  e.varNo < varNo && !vars[e.varNo].Skipped? && e.slot == FieldSlots(vars[..e.varNo])
      invariant forall i, j :: 0 <= i < j < |entries| ==> entries[i].varNo < entries[j].varNo
      invariant forall v: nat :: v < varNo && !vars[v].Skipped? ==> exists e <- entries :: e.varNo == v
    {
      ghost var before := entries;
      if !vars[varNo].Skipped? {
        entries := entries + [Entry(size, varNo)];
        size := size + Slots(vars[varNo]);
        assert Entry(FieldSlots(vars[..varNo]), varNo) in entries;
      }
      forall v: nat | v < varNo + 1 && !vars[v].Skipped? ensures exists e <- entries :: e.varNo == v {
        if v < varNo {
          var e :| e in before && e.varNo == v;
          assert e in entries;
        }
      }
      Sizes(vars[..varNo], vars[varNo]);
      assert vars[..varNo + 1] == vars[..varNo] + [vars[varNo]];
      varNo := varNo + 1;
    }
    assert vars[..|vars|] == vars;
  }

  lemma {:induction false} Sizes(fs: seq<Type>, f: Type)
    ensures FieldSlots(fs + [f]) == FieldSlots(fs) + Slots(f)
    decreases |fs|
  {
    if fs != [] {
      assert (fs + [f])[1..] == fs[1..] + [f];
      Sizes(fs[1..], f);
    } else {
      assert fs + [f] == [f] && [f][1..] == [];
    }
  }

  /** A part of a variable is where the entry of the variable and the path inside it say. */
  lemma EntryOffset(vars: seq<Type>, entries: seq<Entry>, i: nat, p: seq<nat>)
    requires IsLayout(vars, entries) && i < |entries|
    requires IsPath(vars[entries[i].varNo], p)
    ensures
      var path := [entries[i].varNo] + p;
      && IsPath(Struct(vars), path)
      && Offset(Struct(vars), path) == entries[i].slot + Offset(vars[entries[i].varNo], p)
  {
    assert entries[i] in entries;
    assert ([entries[i].varNo] + p)[1..] == p;
  }
}
