/**
  Array literals: the parser's nested literal is flattened and its dimensions are counted
  along its first elements; the values are then placed one by one, each at the indices
  peeled off its number.  Dimensions are listed innermost first, as in array types.
*/
module ArrayLiteral {
  import opened Numbers
  import opened Wrappers

  // ----- sizes and addresses -----

  type Dim = d: nat | d > 0 witness 1

  function Product(dims: seq<Dim>): (n: nat)
    ensures n > 0
  {
    if dims == [] then 1
    else
      Positive(Product(dims[..|dims| - 1]), dims[|dims| - 1]);
      Product(dims[..|dims| - 1]) * dims[|dims| - 1]
  }

  /** One index for every dimension, outermost first, each in range. */
  predicate InRange(ind: seq<nat>, dims: seq<Dim>) {
    if dims == [] then ind == []
    else ind != [] && ind[0] < dims[|dims| - 1] && InRange(ind[1..], dims[..|dims| - 1])
  }

  /** Where an element of the nested array type lies, counted in elements. */
  function Offset(ind: seq<nat>, dims: seq<Dim>): nat
    requires InRange(ind, dims)
  {
    if dims == [] then 0
    else ind[0] * Product(dims[..|dims| - 1]) + Offset(ind[1..], dims[..|dims| - 1])
  }

  /** The indices of element number e, from the outside. */
  function Indices(e: nat, dims: seq<Dim>): (ind: seq<nat>)
    ensures InRange(ind, dims)
  {
    if dims == [] then []
    else
      var inner, last := dims[..|dims| - 1], dims[|dims| - 1];
      [(e / Product(inner)) % last] + Indices(e, inner)
  }

  /** The loop: the remainder goes in front of the indices so far, the quotient is carried on. */
  method Peel(i: nat, dims: seq<Dim>) returns (ind: seq<nat>)
    ensures ind == Indices(i, dims)
  {
    ind := [];
    var e, k := i, 0;
    while k < |dims|
      invariant k <= |dims|
      invariant e == i / Product(dims[..k])
      invariant ind == Indices(i, dims[..k])
    {
      assert dims[..k + 1][..k] == dims[..k];
      DivDiv(i, Product(dims[..k]), dims[k]);
      var d: nat := dims[k];
      ind := [e % d] + ind;
      e := e / d;
      k := k + 1;
    }
    assert dims[..|dims|] == dims;
  }

  lemma DivDiv(x: nat, a: nat, b: nat)
    requires a > 0 && b > 0
    ensures a * b > 0 && x / a / b == x / (a * b)
    ensures x % (a * b) == (x / a) % b * a + x % a
  {
    Positive(a, b);
    var q, r := x / a / b, (x / a) % b;
    assert x / a == b * q + r;
    assert x == a * (x / a) + x % a;
    assert a * (b * q + r) == (a * b) * q + a * r by { assert a * (b * q) == (a * b) * q; }
    assert a * r + x % a < a * b by {
      assert a * (b - r) >= a by { MulMonotone(1, b - r, a); }
      assert a * (b - r) == a * b - a * r;
    }
    QuotientRemainder(x, a * b, q, a * r + x % a);
  }

  /** The offset of the peeled indices is the number of the element, modulo the size of the array. */
  lemma {:induction false} PeeledOffset(e: nat, dims: seq<Dim>)
    ensures Offset(Indices(e, dims), dims) == e % Product(dims)
  {
    if dims != [] {
      var inner, last := dims[..|dims| - 1], dims[|dims| - 1];
      PeeledOffset(e, inner);
      DivDiv(e, Product(inner), last);
      assert Indices(e, dims)[1..] == Indices(e, inner);
    }
  }

  /** And every index list in range is that of exactly one element number of the array. */
  lemma {:induction false} PeelIsBijective(ind: seq<nat>, dims: seq<Dim>, e: nat)
    requires InRange(ind, dims)
    ensures Offset(ind, dims) < Product(dims)
    ensures e < Product(dims) ==> (Indices(e, dims) == ind <==> e == Offset(ind, dims))
  {
    hide Offset, Indices, InRange, Product;
    OffsetBelow(ind, dims);
    PeeledOffset(e, dims);
    if e < Product(dims) { QuotientRemainder(e, Product(dims), 0, e); }
    if e == Offset(ind, dims) {
      OffsetInjective(Indices(e, dims), ind, dims);
    }
  }

  lemma {:induction false} OffsetBelow(ind: seq<nat>, dims: seq<Dim>)
    requires InRange(ind, dims)
    ensures Offset(ind, dims) < Product(dims)
  {
    if dims != [] {
      var size, last := Product(dims[..|dims| - 1]), dims[|dims| - 1];
      OffsetBelow(ind[1..], dims[..|dims| - 1]);
      MulMonotone(ind[0] + 1, last, size);
      assert (ind[0] + 1) * size == ind[0] * size + size;
    }
  }

  lemma {:induction false} OffsetInjective(a: seq<nat>, b: seq<nat>, dims: seq<Dim>)
    requires InRange(a, dims) && InRange(b, dims) && Offset(a, dims) == Offset(b, dims)
    ensures a == b
  {
    if dims != [] {
      var inner := dims[..|dims| - 1];
      var size := Product(inner);
      OffsetBelow(a[1..], inner);
      OffsetBelow(b[1..], inner);
      var n := Offset(a, dims);
      QuotientRemainder(n, size, a[0], Offset(a[1..], inner));
      QuotientRemainder(n, size, b[0], Offset(b[1..], inner));
      OffsetInjective(a[1..], b[1..], inner);
      assert a == [a[0]] + a[1..] && b == [b[0]] + b[1..];
    }
  }

  // ----- the literal as it is written -----

  datatype Literal = Elem(id: nat) | Nested(parts: seq<Literal>)

  datatype Checked = Rejected | Flattened(flat: seq<nat>)

  /** The grammar has no empty lists. */
  predicate Parsed(l: Literal) {
    l.Nested? ==> l.parts != [] && forall i :: 0 <= i < |l.parts| ==> Parsed(l.parts[i])
  }

  /** The dimensions are those met on the way down the first elements. */
  function Dimensions(l: Literal): seq<Dim>
    requires Parsed(l)
  {
    match l
    case Elem(_) => []
    case Nested(parts) => Dimensions(parts[0]) + [|parts|]
  }

  /** Do the indices lead to an element? */
  predicate IsElement(l: Literal, ind: seq<nat>) {
    match l
    case Elem(_) => ind == []
    case Nested(parts) => ind != [] && ind[0] < |parts| && IsElement(parts[ind[0]], ind[1..])
  }

  function ElementAt(l: Literal, ind: seq<nat>): nat
    requires IsElement(l, ind)
  {
    match l
    case Elem(id) => id
    case Nested(parts) => ElementAt(parts[ind[0]], ind[1..])
  }

  /** Parts are compared with the first of their own list only. */
  function Check(l: Literal): Checked {
    match l
    case Elem(id) => Flattened([id])
    case Nested(parts) =>
      if forall i :: 0 <= i < |parts| ==> SameForm(parts[i], parts[0]) then CheckAll(parts) else Rejected
  }

  predicate SameForm(a: Literal, b: Literal) {
    (a.Elem? && b.Elem?) || (a.Nested? && b.Nested? && |a.parts| == |b.parts|)
  }

  function CheckAll(ls: seq<Literal>): Checked {
    if ls == [] then Flattened([])
    else
      match (Check(ls[0]), CheckAll(ls[1..]))
      case (Flattened(a), Flattened(b)) => Flattened(a + b)
      case _ => Rejected
  }

  /** All parts at the same depth have the same number of parts. */
  predicate Rectangular(l: Literal, dims: seq<Dim>) {
    if dims == [] then l.Elem?
    else
      && l.Nested? && |l.parts| == dims[|dims| - 1]
      && forall i :: 0 <= i < |l.parts| ==> Rectangular(l.parts[i], dims[..|dims| - 1])
  }

  /** The index lists that lead to elements are those of an array of these dimensions. */
  ghost predicate ElementsAre(l: Literal, dims: seq<Dim>) {
    forall ind :: IsElement(l, ind) == InRange(ind, dims)
  }

  lemma RectangularExactly(l: Literal, dims: seq<Dim>)
    requires Parsed(l)
    ensures Rectangular(l, dims) <==> ElementsAre(l, dims)
  {
    if Rectangular(l, dims) {
      forall ind ensures IsElement(l, ind) == InRange(ind, dims) { RectangularElements(l, dims, ind); }
    }
    if ElementsAre(l, dims) { SameElements(l, dims); }
  }

  lemma {:induction false} RectangularElements(l: Literal, dims: seq<Dim>, ind: seq<nat>)
    requires Rectangular(l, dims)
    ensures IsElement(l, ind) <==> InRange(ind, dims)
    decreases dims
  {
    if dims != [] && ind != [] && ind[0] < |l.parts| {
      RectangularElements(l.parts[ind[0]], dims[..|dims| - 1], ind[1..]);
    }
  }

  lemma {:induction false} SameElements(l: Literal, dims: seq<Dim>)
    requires Parsed(l) && ElementsAre(l, dims)
    ensures Rectangular(l, dims)
    decreases l
  {
    var first := SomeElement(l);
    assert InRange(first, dims);
    if dims == [] {
      assert IsElement(l, []);
    } else {
      var last: nat := dims[|dims| - 1];
      if |l.parts| > last {
        var p := SomeElement(l.parts[last]);
        assert ([last] + p)[1..] == p;
        assert IsElement(l, [last] + p) && !InRange([last] + p, dims);
      }
      SameElementsBelow(l, dims, last - 1);
      assert |l.parts| == last;
      forall i: nat | i < last ensures Rectangular(l.parts[i], dims[..|dims| - 1]) {
        SameElementsBelow(l, dims, i);
        SameElements(l.parts[i], dims[..|dims| - 1]);
      }
    }
  }

  lemma SameElementsBelow(l: Literal, dims: seq<Dim>, i: nat)
    requires l.Nested? && dims != [] && i < dims[|dims| - 1] && ElementsAre(l, dims)
    ensures i < |l.parts| && ElementsAre(l.parts[i], dims[..|dims| - 1])
  {
    var inner := dims[..|dims| - 1];
    var zero := FirstIndices(inner);
    assert ([i] + zero)[1..] == zero;
    assert InRange([i] + zero, dims) && IsElement(l, [i] + zero);
    forall ind ensures IsElement(l.parts[i], ind) == InRange(ind, inner) {
      assert ([i] + ind)[1..] == ind;
      assert IsElement(l, [i] + ind) == InRange([i] + ind, dims);
    }
  }

  /** Every literal has an element, and every array a first one. */
  lemma {:induction false} SomeElement(l: Literal) returns (ind: seq<nat>)
    requires Parsed(l)
    ensures IsElement(l, ind)
  {
    ind := [];
    if l.Nested? {
      var rest := SomeElement(l.parts[0]);
      ind := [0] + rest;
      assert ind[1..] == rest;
    }
  }

  function FirstIndices(dims: seq<Dim>): (ind: seq<nat>)
    ensures InRange(ind, dims)
  {
    if dims == [] then [] else [0] + FirstIndices(dims[..|dims| - 1])
  }

  lemma {:induction false} RectangularDimensions(l: Literal, dims: seq<Dim>)
    requires Rectangular(l, dims)
    ensures Parsed(l) && Dimensions(l) == dims
    decreases dims
  {
    if dims != [] {
      forall i | 0 <= i < |l.parts| ensures Parsed(l.parts[i]) && Dimensions(l.parts[i]) == dims[..|dims| - 1] {
        RectangularDimensions(l.parts[i], dims[..|dims| - 1]);
      }
    }
  }

  /** A rectangular literal is accepted, with as many elements as the array has. */
  lemma {:induction false} FlatSize(l: Literal, dims: seq<Dim>)
    requires Rectangular(l, dims)
    ensures Check(l).Flattened? && |Check(l).flat| == Product(dims)
    decreases dims, 0, 0
  {
    if dims != [] {
      var inner := dims[..|dims| - 1];
      assert forall i :: 0 <= i < |l.parts| ==> SameForm(l.parts[i], l.parts[0]);
      AllFlatSize(l.parts, inner);
      assert Product(inner) * |l.parts| == |l.parts| * Product(inner);
    }
  }

  lemma {:induction false} AllFlatSize(ls: seq<Literal>, dims: seq<Dim>)
    requires forall i :: 0 <= i < |ls| ==> Rectangular(ls[i], dims)
    ensures CheckAll(ls).Flattened? && |CheckAll(ls).flat| == |ls| * Product(dims)
    decreases dims, 1, |ls|
  {
    if ls != [] {
      FlatSize(ls[0], dims);
      AllFlatSize(ls[1..], dims);
      assert |ls| * Product(dims) == Product(dims) + (|ls| - 1) * Product(dims);
    }
  }

  /** The parts of equal size lie one behind the other. */
  lemma {:induction false} BlockAt(ls: seq<Literal>, dims: seq<Dim>, i: nat, j: nat)
    requires forall k :: 0 <= k < |ls| ==> Rectangular(ls[k], dims)
    requires i < |ls| && j < Product(dims)
    ensures CheckAll(ls).Flattened? && Check(ls[i]).Flattened? && |Check(ls[i]).flat| == Product(dims)
    ensures 0 <= i * Product(dims) + j < |CheckAll(ls).flat|
    ensures CheckAll(ls).flat[i * Product(dims) + j] == Check(ls[i]).flat[j]
    decreases |ls|
  {
    hide Product, Rectangular, Check;
    FlatSize(ls[0], dims);
    FlatSize(ls[i], dims);
    AllFlatSize(ls, dims);
    AllFlatSize(ls[1..], dims);
    InBlock(i, j, |ls|, Product(dims));
    if i > 0 {
      assert ls[1..][i - 1] == ls[i];
      BlockAt(ls[1..], dims, i - 1, j);
    }
  }

  /** And the elements come in the order of their offsets. */
  lemma {:induction false} FlatAt(l: Literal, dims: seq<Dim>, ind: seq<nat>)
    requires Rectangular(l, dims) && InRange(ind, dims)
    ensures IsElement(l, ind)
    ensures Offset(ind, dims) < Product(dims) && Check(l).Flattened? && |Check(l).flat| == Product(dims)
    ensures Check(l).flat[Offset(ind, dims)] == ElementAt(l, ind)
    decreases dims
  {
    OffsetBelow(ind, dims);
    FlatSize(l, dims);
    if dims != [] {
      var inner := dims[..|dims| - 1];
      OffsetBelow(ind[1..], inner);
      FlatAt(l.parts[ind[0]], inner, ind[1..]);
      BlockAt(l.parts, inner, ind[0], Offset(ind[1..], inner));
      assert Check(l) == CheckAll(l.parts);
    }
  }

  lemma InBlock(i: nat, j: nat, n: nat, size: nat)
    requires i < n && j < size
    ensures 0 <= i * size + j < n * size
    ensures i > 0 ==> (i - 1) * size + j == i * size + j - size && i * size >= size
  {
    MulMonotone(i + 1, n, size);
    assert (i + 1) * size == i * size + size;
    if i > 0 { MulMonotone(1, i, size); }
  }

  /** Acceptance: in every list the parts are all elements, or all lists of the same length. */
  predicate Uniform(l: Literal) {
    l.Nested? ==>
      && (forall i, j :: 0 <= i < |l.parts| && 0 <= j < |l.parts| ==> SameForm(l.parts[i], l.parts[j]))
      && (forall i :: 0 <= i < |l.parts| ==> Uniform(l.parts[i]))
  }

  lemma {:induction false} AcceptedExactly(l: Literal)
    ensures Check(l).Flattened? <==> Uniform(l)
    decreases l, 0
  {
    if l.Nested? { AllAcceptedExactly(l.parts); }
  }

  lemma {:induction false} AllAcceptedExactly(ls: seq<Literal>)
    ensures CheckAll(ls).Flattened? <==> forall i :: 0 <= i < |ls| ==> Uniform(ls[i])
    decreases ls, 1
  {
    if ls != [] {
      AcceptedExactly(ls[0]);
      AllAcceptedExactly(ls[1..]);
      assert forall i :: 0 < i < |ls| ==> ls[i] == ls[1..][i - 1];
    }
  }

  // ----- placing the values -----

  /** The last of the values whose number falls on a cell. */
  function LastAt(values: seq<nat>, size: nat, cell: nat): Option<nat>
    requires size > 0
  {
    if values == [] then None
    else
      var i := |values| - 1;
      if i % size == cell then Some(values[i]) else LastAt(values[..i], size, cell)
  }

  /** One value after the other goes where its indices say. */
  method Place(values: seq<nat>, dims: seq<Dim>) returns (memory: array<nat>)
    ensures fresh(memory) && memory.Length == Product(dims)
    ensures forall j :: 0 <= j < memory.Length ==>
              LastAt(values, Product(dims), j).None? || memory[j] == LastAt(values, Product(dims), j).value
  {
    memory := new nat[Product(dims)];
    var i := 0;
    while i < |values|
      invariant i <= |values|
      invariant forall j :: 0 <= j < memory.Length ==>
        LastAt(values[..i], Product(dims), j).None? || memory[j] == LastAt(values[..i], Product(dims), j).value
    {
      var ind := Peel(i, dims);
      PeeledOffset(i, dims);
      memory[Offset(ind, dims)] := values[i];
      assert values[..i + 1][..i] == values[..i];
      i := i + 1;
    }
    assert values[..|values|] == values;
  }

  /** With as many values as cells every value stays where it was put. */
  lemma {:induction false} LastAtIs(values: seq<nat>, size: nat, cell: nat)
    requires size > 0 && |values| <= size && cell < |values|
    ensures LastAt(values, size, cell) == Some(values[cell])
  {
    var i := |values| - 1;
    QuotientRemainder(i, size, 0, i);
    if cell < i { LastAtIs(values[..i], size, cell); }
  }

  /** The literal has the elements of the array, and each of them ends up in its own cell. */
  ghost predicate PlacedRight(l: Literal)
    requires Parsed(l) && Check(l).Flattened?
  {
    var dims := Dimensions(l);
    && ElementsAre(l, dims)
    && (forall ind :: IsElement(l, ind) && InRange(ind, dims) ==>
          LastAt(Check(l).flat, Product(dims), Offset(ind, dims)) == Some(ElementAt(l, ind)))
  }

  /** Of the accepted literals exactly the rectangular ones are placed right. */
  lemma PlacedRightExactly(l: Literal)
    requires Parsed(l) && Check(l).Flattened?
    ensures PlacedRight(l) <==> Rectangular(l, Dimensions(l))
  {
    var dims := Dimensions(l);
    RectangularExactly(l, dims);
    if Rectangular(l, dims) {
      forall ind | InRange(ind, dims)
        ensures IsElement(l, ind)
        ensures LastAt(Check(l).flat, Product(dims), Offset(ind, dims)) == Some(ElementAt(l, ind))
      {
        FlatAt(l, dims, ind);
        LastAtIs(Check(l).flat, Product(dims), Offset(ind, dims));
      }
    }
  }

  /** A literal is compiled if it is accepted, and is right in memory if it is rectangular. */
  method Compile(l: Literal) returns (memory: Option<array<nat>>)
    requires Parsed(l)
    ensures memory.Some? <==> Uniform(l)
    ensures memory.Some? ==> memory.value.Length == Product(Dimensions(l))
    ensures memory.Some? && Rectangular(l, Dimensions(l)) ==>
              forall ind :: InRange(ind, Dimensions(l)) ==>
                && IsElement(l, ind) && Offset(ind, Dimensions(l)) < memory.value.Length
                && memory.value[Offset(ind, Dimensions(l))] == ElementAt(l, ind)
  {
    AcceptedExactly(l);
    var checked := Check(l);
    if checked.Rejected? { return None; }
    var dims := Dimensions(l);
    var cells := Place(checked.flat, dims);
    PlacedRightExactly(l);
    forall ind | InRange(ind, dims) ensures Offset(ind, dims) < cells.Length { OffsetBelow(ind, dims); }
    memory := Some(cells);
  }

  // ----- literals that are not rectangular -----

  /** `[[[1], [2]], [[3, 4], [5, 6]]]` */
  const Ragged: Literal := Nested([Nested([One(1), One(2)]), Nested([Two(3, 4), Two(5, 6)])])

  function One(x: nat): Literal { Nested([Elem(x)]) }

  function Two(x: nat, y: nat): Literal { Nested([Elem(x), Elem(y)]) }

  lemma CheckPair(a: Literal, b: Literal)
    requires SameForm(b, a) && Check(a).Flattened? && Check(b).Flattened?
    ensures SameForm(a, a) && Check(Nested([a, b])) == Flattened(Check(a).flat + Check(b).flat)
  {
    var ls := [a, b];
    assert ls[1..] == [b] && [b][1..] == [];
    assert CheckAll([b]) == Flattened(Check(b).flat + []);
    assert Check(b).flat + [] == Check(b).flat;
    assert forall i :: 0 <= i < |ls| ==> SameForm(ls[i], ls[0]);
  }

  lemma CheckOne(x: nat)
    ensures Check(One(x)) == Flattened([x])
  {
    var ls := [Elem(x)];
    assert ls[1..] == [] && CheckAll(ls) == Flattened([x] + []) && [x] + [] == [x];
    assert forall i :: 0 <= i < |ls| ==> SameForm(ls[i], ls[0]);
  }

  /** It is accepted, with six elements for an array of four: the fifth replaces the first. */
  lemma RaggedLiteralIsAccepted()
    ensures Parsed(Ragged) && Dimensions(Ragged) == [1, 2, 2] && !Rectangular(Ragged, Dimensions(Ragged))
    ensures Check(Ragged) == Flattened([1, 2, 3, 4, 5, 6]) && !PlacedRight(Ragged)
    ensures Product(Dimensions(Ragged)) == 4 && LastAt(Check(Ragged).flat, 4, 0) == Some(5)
  {
    hide Check, CheckAll, Dimensions, Product, InRange, IsElement, PlacedRight;
    CheckOne(1);
    CheckOne(2);
    CheckPair(One(1), One(2));
    CheckTwo(3, 4);
    CheckTwo(5, 6);
    CheckPair(Two(3, 4), Two(5, 6));
    assert [1] + [2] == [1, 2] && [3, 4] + [5, 6] == [3, 4, 5, 6] && [1, 2] + [3, 4, 5, 6] == [1, 2, 3, 4, 5, 6];
    CheckPair(Nested([One(1), One(2)]), Nested([Two(3, 4), Two(5, 6)]));
    RaggedDimensions();
    var flat := [1, 2, 3, 4, 5, 6];
    assert flat[..5] == [1, 2, 3, 4, 5];
    assert LastAt(flat[..5], 4, 0) == Some(5) && LastAt(flat, 4, 0) == Some(5);
    PlacedRightExactly(Ragged);
  }

  lemma RaggedDimensions()
    ensures Parsed(Ragged) && Dimensions(Ragged) == [1, 2, 2] && !Rectangular(Ragged, Dimensions(Ragged))
    ensures Product(Dimensions(Ragged)) == 4
  {
    hide Product;
    var dims: seq<Dim> := [1, 2, 2];
    RaggedParts();
    RaggedProduct();
    assert Dimensions(Ragged) == [1, 2] + [2] == dims;
    assert dims[..2] == [1, 2] && dims[..2][..1] == [1];
    assert !Rectangular(Ragged.parts[1].parts[0], dims[..2][..1]);
    assert !Rectangular(Ragged.parts[1], dims[..2]);
  }

  lemma RaggedProduct()
    ensures Product([1, 2, 2]) == 4
  {
    ProductAnd([], 1);
    ProductAnd([1], 2);
    ProductAnd([1, 2], 2);
    assert [] + [1] == [1] && [1] + [2] == [1, 2] && [1, 2] + [2] == [1, 2, 2];
  }

  lemma ProductAnd(dims: seq<Dim>, d: Dim)
    ensures Product(dims + [d]) == Product(dims) * d
  {
    assert (dims + [d])[..|dims|] == dims;
  }

  lemma RaggedParts()
    ensures Parsed(Ragged) && Dimensions(Ragged.parts[0]) == [1, 2]
  {
    assert Parsed(One(1)) && Parsed(One(2)) && Parsed(Two(3, 4)) && Parsed(Two(5, 6));
    assert Parsed(Ragged.parts[0]) && Parsed(Ragged.parts[1]);
    assert Dimensions(One(1)) == [] + [1] == [1];
    assert Dimensions(Ragged.parts[0]) == [1] + [2] == [1, 2];
  }

  lemma CheckTwo(x: nat, y: nat)
    ensures Check(Two(x, y)) == Flattened([x, y])
  {
    CheckPair(Elem(x), Elem(y));
    assert [x] + [y] == [x, y];
  }
}
