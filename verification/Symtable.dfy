/**
  The symbol table of a function: the variables with their numbers, and a stack of scopes
  that map names to numbers.  Names are looked up from the outermost scope inwards.
*/
module Symtable {
  import opened Wrappers

  type Scope = map<string, nat>

  datatype Variable = Variable(name: string, pos: nat)

  /** The first scope from the outside that has the name. */
  function FindOutermost(names: seq<Scope>, name: string): Option<nat> {
    if names == [] then None
    else if name in names[0] then Some(names[0][name])
    else FindOutermost(names[1..], name)
  }

  /** What scoping means: the innermost scope that has the name. */
  function FindInnermost(names: seq<Scope>, name: string): Option<nat> {
    if names == [] then None
    else
      var last := names[|names| - 1];
      if name in last then Some(last[name]) else FindInnermost(names[..|names| - 1], name)
  }

  /** No name is in two open scopes. */
  ghost predicate NoShadowing(names: seq<Scope>) {
    forall i, j, name :: 0 <= i < j < |names| && name in names[i] ==> name !in names[j]
  }

  lemma {:induction false} Outermost(names: seq<Scope>, name: string)
    ensures FindOutermost(names, name).None? <==> forall i :: 0 <= i < |names| ==> name !in names[i]
    ensures FindOutermost(names, name).Some? ==>
              exists i :: 0 <= i < |names| && name in names[i] && names[i][name] == FindOutermost(names, name).value
    decreases |names|
  {
    if names != [] && name !in names[0] {
      Outermost(names[1..], name);
      assert forall i :: 0 < i < |names| ==> names[i] == names[1..][i - 1];
    }
  }

  lemma {:induction false} Innermost(names: seq<Scope>, name: string)
    ensures FindInnermost(names, name).None? <==> forall i :: 0 <= i < |names| ==> name !in names[i]
    ensures FindInnermost(names, name).Some? ==>
              exists i :: 0 <= i < |names| && name in names[i] && names[i][name] == FindInnermost(names, name).value
    decreases |names|
  {
    if names != [] && name !in names[|names| - 1] {
      Innermost(names[..|names| - 1], name);
    }
  }

  /** Without shadowing the order of the search makes no difference. */
  lemma SearchOrder(names: seq<Scope>, name: string)
    requires NoShadowing(names)
    ensures FindOutermost(names, name) == FindInnermost(names, name)
  {
    Outermost(names, name);
    Innermost(names, name);
  }

  // ----- what the operations do to the scopes -----

  datatype Op = Open | Close | Add(name: string)

  /** Adds to the innermost scope, unless the name is empty or there is one of that name already. */
  function Bind(names: seq<Scope>, name: string, pos: nat): seq<Scope>
    requires names != []
  {
    if name == "" || FindOutermost(names, name).Some? then names
    else
      var last: Scope := names[|names| - 1][name := pos];
      names[|names| - 1 := last]
  }

  /**
    A free name is found from now on, and in the innermost scope; no other name is found
    otherwise than before, and nothing changes for an empty name or one that is taken.
  */
  ghost predicate Binds(before: seq<Scope>, after: seq<Scope>, name: string, pos: Option<nat>) {
    && |after| == |before| > 0
    && after[..|after| - 1] == before[..|before| - 1]
    && (name != "" && pos.Some? ==>
          && FindInnermost(before, name).None? && FindInnermost(after, name) == pos
          && name in after[|after| - 1])
    && (forall other :: other != name || name == "" || pos.None? ==>
          && FindInnermost(after, other) == FindInnermost(before, other)
          && (other in after[|after| - 1] <==> other in before[|before| - 1]))
  }

  lemma BindBinds(names: seq<Scope>, name: string, pos: nat)
    requires names != [] && NoShadowing(names)
    ensures
      var taken := FindInnermost(names, name).Some?;
      Binds(names, Bind(names, name, pos), name, if name != "" && taken then None else Some(pos))
  {
    SearchOrder(names, name);
    var after := Bind(names, name, pos);
    if after != names {
      assert after[..|after| - 1] == names[..|names| - 1];
      Innermost(names, name);
      forall other | other != name ensures FindInnermost(after, other) == FindInnermost(names, other) {
        if other !in names[|names| - 1] {
          assert FindInnermost(after, other) == FindInnermost(after[..|after| - 1], other);
        }
      }
    }
  }

  class Table {
    var vars: map<nat, Variable>
    var names: seq<Scope>
    var nextId: nat

    ghost predicate Valid()
      reads this
    {
      && names != [] && NoShadowing(names)
      && (forall pos <- vars :: pos < nextId && vars[pos].pos == pos)
      && (forall i, name :: 0 <= i < |names| && name in names[i] ==>
            name != "" && names[i][name] in vars && vars[names[i][name]].name == name)
    }

    constructor (nextId: nat)
      ensures Valid() && names == [map[]] && vars == map[] && this.nextId == nextId
    {
      this.nextId := nextId;
      vars, names := map[], [map[]];
    }

    /** The outermost-first loop finds what innermost-first lookup would. */
    method Find(name: string) returns (found: Option<Variable>)
      requires Valid()
      ensures found.Some? <==> FindInnermost(names, name).Some?
      ensures found.Some? ==> found.value.name == name && FindInnermost(names, name) == Some(found.value.pos)
    {
      Outermost(names, name);
      SearchOrder(names, name);
      var i := 0;
      while i < |names|
        invariant i <= |names|
        invariant FindOutermost(names, name) == FindOutermost(names[i..], name)
      {
        if name in names[i] { return Some(vars[names[i][name]]); }
        assert names[i..][1..] == names[i + 1..];
        i := i + 1;
      }
      found := None;
    }

    /** The number is used up and the variable recorded even when the name is taken. */
    method Add(name: string) returns (pos: Option<nat>)
      requires Valid()
      modifies this
      ensures Valid()
      ensures nextId == old(nextId) + 1 && old(nextId) !in old(vars)
      ensures vars == old(vars)[old(nextId) := Variable(name, old(nextId))]
      ensures names == Bind(old(names), name, old(nextId))
      ensures pos == if name != "" && FindInnermost(old(names), name).Some? then None else Some(old(nextId))
      ensures Binds(old(names), names, name, pos)
    {
      BindBinds(names, name, nextId);
      var id := nextId;
      nextId := nextId + 1;
      vars := vars[id := Variable(name, id)];
      if name != "" {
        Outermost(names, name);
        var previous := Find(name);
        SearchOrder(names, name);
        if previous.Some? { return None; }
        var last: Scope := names[|names| - 1][name := id];
        names := names[|names| - 1 := last];
      }
      pos := Some(id);
    }

    /** Unlike `Add`, leaves everything as it is when the name is taken. */
    method ExclusiveAdd(name: string) returns (pos: Option<nat>)
      requires Valid()
      modifies this
      ensures Valid()
      ensures FindInnermost(old(names), name).Some? ==>
        pos == None && vars == old(vars) && names == old(names) && nextId == old(nextId)
      ensures FindInnermost(old(names), name).None? ==>
        && pos == Some(old(nextId)) && nextId == old(nextId) + 1
        && vars == old(vars)[old(nextId) := Variable(name, old(nextId))]
        && names == Bind(old(names), name, old(nextId))
      ensures Binds(old(names), names, name, pos)
    {
      var previous := Find(name);
      if previous.Some? { return None; }
      pos := Add(name);
    }

    method NewScope()
      requires Valid()
      modifies this`names
      ensures Valid() && names == old(names) + [map[]]
    {
      names := names + [map[]];
    }

    method LeaveScope()
      requires Valid() && |names| > 1
      modifies this`names
      ensures Valid() && names == old(names)[..|old(names)| - 1]
    {
      names := names[..|names| - 1];
    }
  }

  // ----- runs -----

  /** How deep a run ends relative to where it starts, or nothing if it ever leaves the scope it started in. */
  function Depth(ops: seq<Op>): Option<nat> {
    if ops == [] then Some(0)
    else
      match Depth(ops[..|ops| - 1])
      case None => None
      case Some(d) =>
        match ops[|ops| - 1]
        case Open => Some(d + 1)
        case Close => if d > 0 then Some(d - 1) else None
        case Add(_) => Some(d)
  }

  function Run(names: seq<Scope>, nextId: nat, ops: seq<Op>): (r: (seq<Scope>, nat))
    requires names != [] && Depth(ops).Some?
    ensures |r.0| == |names| + Depth(ops).value
    ensures r.0[..|names| - 1] == names[..|names| - 1]
    ensures nextId <= r.1
  {
    if ops == [] then (names, nextId)
    else
      var r := Run(names, nextId, ops[..|ops| - 1]);
      match ops[|ops| - 1]
      case Open => (r.0 + [map[]], r.1)
      case Close => (r.0[..|r.0| - 1], r.1)
      case Add(name) => (Bind(r.0, name, r.1), r.1 + 1)
  }

  // ----- what a run makes visible -----

  function Adds(ops: seq<Op>): nat {
    if ops == [] then 0 else Adds(ops[..|ops| - 1]) + if ops[|ops| - 1].Add? then 1 else 0
  }

  /** Operation i adds the name, and the scope it was added to is still open. */
  predicate Live(ops: seq<Op>, i: nat, name: string) {
    i < |ops| && ops[i] == Add(name) && name != "" && Depth(ops[i..]).Some?
  }

  /** And no earlier such operation is left. */
  predicate First(ops: seq<Op>, i: nat, name: string) {
    Live(ops, i, name) && forall j: nat :: j < i ==> !Live(ops, j, name)
  }

  /** Scope d binds the name to v. */
  predicate BoundAt(names: seq<Scope>, d: nat, name: string, v: nat) {
    d < |names| && name in names[d] && names[d][name] == v
  }

  /** Operation i is the first one left that adds the name; it was that deep, and was given number v. */
  predicate AddedBy(ops: seq<Op>, i: nat, nextId: nat, depth: nat, d: nat, name: string, v: nat) {
    First(ops, i, name) && d + Depth(ops[i..]).value == depth && v == nextId + Adds(ops[..i])
  }

  ghost predicate AddedAt(ops: seq<Op>, nextId: nat, depth: nat, d: nat, name: string, v: nat) {
    exists i: nat :: AddedBy(ops, i, nextId, depth, d, name, v)
  }

  lemma {:induction false} DepthConcat(a: seq<Op>, b: seq<Op>)
    requires Depth(a).Some?
    ensures Depth(b).Some? ==> Depth(a + b).Some? && Depth(a + b).value == Depth(a).value + Depth(b).value
  {
    if b == [] {
      assert a + b == a;
    } else {
      assert (a + b)[..|a + b| - 1] == a + b[..|b| - 1];
      DepthConcat(a, b[..|b| - 1]);
    }
  }

  /** An operation between two live ones is no deeper than the first. */
  lemma LaterIsShallower(ops: seq<Op>, i: nat, j: nat)
    requires i <= j <= |ops| && Depth(ops[i..]).Some?
    ensures Depth(ops[j..]).Some? ==> Depth(ops[j..]).value <= Depth(ops[i..]).value
  {
    assert ops[i..] == ops[i..j] + ops[j..];
    PrefixDepth(ops[i..j], ops[j..]);
    if Depth(ops[j..]).Some? { DepthConcat(ops[i..j], ops[j..]); }
  }

  lemma {:induction false} PrefixDepth(a: seq<Op>, b: seq<Op>)
    requires Depth(a + b).Some?
    ensures Depth(a).Some?
  {
    if b == [] {
      assert a + b == a;
    } else {
      assert (a + b)[..|a + b| - 1] == a + b[..|b| - 1];
      PrefixDepth(a, b[..|b| - 1]);
    }
  }

  /** How one more operation changes which adds are live, and how deep. */
  lemma LiveStep(h: seq<Op>, o: Op, i: nat, name: string)
    requires i < |h|
    ensures
      var ops := h + [o];
      && ops[..i] == h[..i]
      && (Live(ops, i, name) <==> Live(h, i, name) && !(o.Close? && Depth(h[i..]) == Some(0)))
      && (Live(ops, i, name) ==>
            Depth(ops[i..]).value == Depth(h[i..]).value + (if o.Open? then 1 else if o.Close? then -1 else 0))
  {
    var ops := h + [o];
    assert ops[i..] == h[i..] + [o];
    assert (h[i..] + [o])[..|h[i..]|] == h[i..];
    assert ops[i] == h[i];
  }

  /** The first that is live stays so until its scope is closed, and later ones never outlive it. */
  lemma FirstStep(h: seq<Op>, o: Op, i: nat, name: string)
    requires i < |h|
    ensures First(h + [o], i, name) <==> First(h, i, name) && !(o.Close? && Depth(h[i..]) == Some(0))
  {
    LiveStep(h, o, i, name);
    forall j: nat | j < i ensures Live(h + [o], j, name) ==> Live(h, j, name) {
      LiveStep(h, o, j, name);
    }
    if Live(h + [o], i, name) {
      forall j: nat | j < i && Live(h, j, name) ensures Live(h + [o], j, name) {
        LiveStep(h, o, j, name);
        LaterIsShallower(h, j, i);
      }
    }
  }

  lemma {:induction false} SomeFirst(ops: seq<Op>, i: nat, name: string) returns (j: nat)
    requires Live(ops, i, name)
    ensures j <= i && First(ops, j, name)
    decreases i
  {
    j := i;
    if k: nat :| k < i && Live(ops, k, name) { j := SomeFirst(ops, k, name); }
  }

  /** The scopes hold exactly what the adds that are left have put there. */
  ghost predicate Accounted(ops: seq<Op>, nextId: nat, names: seq<Scope>) {
    && Depth(ops).Some? && |names| == Depth(ops).value + 1
    && forall d: nat, name, v: nat :: d < |names| ==>
         (BoundAt(names, d, name, v) <==> AddedAt(ops, nextId, |names| - 1, d, name, v))
  }

  /** What one more operation changes about what was added: nothing, apart from its own add. */
  lemma AddedStep(h: seq<Op>, o: Op, nextId: nat, depth: nat, d: nat, name: string, v: nat)
    requires o.Close? ==> d < depth
    ensures
      var depth' := if o.Open? then depth + 1 else if o.Close? then depth - 1 else depth;
      AddedAt(h + [o], nextId, depth', d, name, v) <==>
      AddedAt(h, nextId, depth, d, name, v) || (First(h + [o], |h|, name) && d == depth' && v == nextId + Adds(h))
  {
    hide AddedBy, First;
    var depth' := if o.Open? then depth + 1 else if o.Close? then depth - 1 else depth;
    forall i: nat | i < |h|
      ensures AddedBy(h + [o], i, nextId, depth', d, name, v) <==> AddedBy(h, i, nextId, depth, d, name, v)
    {
      AddedByStep(h, o, i, nextId, depth, d, name, v);
    }
    OwnAdd(h, o, nextId, depth', d, name, v);
    assert forall i: nat :: i >= |h| ==> !AddedBy(h, i, nextId, depth, d, name, v) by {
      NoneBeyond(h, nextId, depth, d, name, v);
    }
    assert forall i: nat :: i > |h| ==> !AddedBy(h + [o], i, nextId, depth', d, name, v) by {
      NoneBeyond(h + [o], nextId, depth', d, name, v);
    }
  }

  lemma AddedByStep(h: seq<Op>, o: Op, i: nat, nextId: nat, depth: nat, d: nat, name: string, v: nat)
    requires i < |h| && (o.Close? ==> d < depth)
    ensures
      var depth' := if o.Open? then depth + 1 else if o.Close? then depth - 1 else depth;
      AddedBy(h + [o], i, nextId, depth', d, name, v) <==> AddedBy(h, i, nextId, depth, d, name, v)
  {
    hide Adds, Depth;
    FirstStep(h, o, i, name);
    LiveStep(h, o, i, name);
  }

  lemma NoneBeyond(ops: seq<Op>, nextId: nat, depth: nat, d: nat, name: string, v: nat)
    ensures forall i: nat :: i >= |ops| ==> !AddedBy(ops, i, nextId, depth, d, name, v)
  {}

  lemma OwnAdd(h: seq<Op>, o: Op, nextId: nat, depth: nat, d: nat, name: string, v: nat)
    ensures First(h + [o], |h|, name) ==> o == Add(name)
    ensures AddedBy(h + [o], |h|, nextId, depth, d, name, v) <==>
            First(h + [o], |h|, name) && d == depth && v == nextId + Adds(h)
  {
    assert (h + [o])[|h|..] == [o] && [o][..0] == [] && (h + [o])[..|h|] == h;
    if o.Add? { assert Depth([o]) == Some(0); }
  }

  lemma AccountedNew(nextId: nat)
    ensures Accounted([], nextId, [map[]]) && Adds([]) == 0 && NoShadowing([map[]])
  {
    assert forall d: nat, name, v: nat :: d < 1 ==> !BoundAt([map[]], d, name, v);
  }

  lemma AddsOne(h: seq<Op>, o: Op)
    ensures Adds(h + [o]) == Adds(h) + if o.Add? then 1 else 0
  {
    assert (h + [o])[..|h|] == h;
  }

  lemma AccountedOpen(h: seq<Op>, nextId: nat, names: seq<Scope>)
    requires Accounted(h, nextId, names)
    ensures Accounted(h + [Open], nextId, names + [map[]])
  {
    hide AddedAt;
    var names' := names + [map[]];
    assert (h + [Open])[..|h|] == h;
    forall d: nat, name, v: nat | d < |names'|
      ensures BoundAt(names', d, name, v) <==> AddedAt(h + [Open], nextId, |names|, d, name, v)
    {
      AddedStep(h, Open, nextId, |names| - 1, d, name, v);
      OwnAdd(h, Open, nextId, |names|, d, name, v);
      if d == |names| {
        NotThatDeep(h, nextId, |names| - 1, d, name, v);
        assert names'[d] == map[];
      } else {
        assert BoundAt(names, d, name, v) <==> BoundAt(names', d, name, v);
      }
    }
  }

  lemma NotThatDeep(ops: seq<Op>, nextId: nat, depth: nat, d: nat, name: string, v: nat)
    requires d > depth
    ensures !AddedAt(ops, nextId, depth, d, name, v)
  {}

  lemma AccountedClose(h: seq<Op>, nextId: nat, names: seq<Scope>)
    requires Accounted(h, nextId, names) && |names| > 1
    ensures Accounted(h + [Close], nextId, names[..|names| - 1])
  {
    hide AddedAt;
    var names' := names[..|names| - 1];
    assert (h + [Close])[..|h|] == h;
    forall d: nat, name, v: nat | d < |names'|
      ensures BoundAt(names', d, name, v) <==> AddedAt(h + [Close], nextId, |names'| - 1, d, name, v)
    {
      AddedStep(h, Close, nextId, |names| - 1, d, name, v);
      OwnAdd(h, Close, nextId, |names'| - 1, d, name, v);
      assert BoundAt(names, d, name, v) <==> BoundAt(names', d, name, v);
    }
  }

  /** A name is found exactly when an add of it is left. */
  lemma FoundExactly(ops: seq<Op>, nextId: nat, names: seq<Scope>, name: string)
    requires Accounted(ops, nextId, names)
    ensures FindInnermost(names, name).Some? <==> exists i: nat :: First(ops, i, name)
    ensures FindInnermost(names, name).Some? ==>
              exists i: nat :: First(ops, i, name) && FindInnermost(names, name).value == nextId + Adds(ops[..i])
  {
    Innermost(names, name);
    if FindInnermost(names, name).Some? {
      var d :| 0 <= d < |names| && name in names[d] && names[d][name] == FindInnermost(names, name).value;
      assert BoundAt(names, d, name, names[d][name]);
      assert AddedAt(ops, nextId, |names| - 1, d, name, names[d][name]);
    }
    if i: nat :| First(ops, i, name) {
      assert ops[0..] == ops;
      LaterIsShallower(ops, 0, i);
      var d, v := |names| - 1 - Depth(ops[i..]).value, nextId + Adds(ops[..i]);
      assert AddedBy(ops, i, nextId, |names| - 1, d, name, v);
      assert AddedAt(ops, nextId, |names| - 1, d, name, v);
      assert BoundAt(names, d, name, v);
    }
  }

  /** The add itself is the first one left exactly when the name is not empty and there was none. */
  lemma AddIsFirst(h: seq<Op>, name: string)
    ensures First(h + [Add(name)], |h|, name) <==> name != "" && forall i: nat :: !First(h, i, name)
    ensures forall other :: other != name ==> !First(h + [Add(name)], |h|, other)
    ensures Depth((h + [Add(name)])[|h|..]) == Some(0)
  {
    var ops := h + [Add(name)];
    assert ops[|h|..] == [Add(name)] && [Add(name)][..0] == [];
    forall j: nat | j < |h| ensures Live(ops, j, name) <==> Live(h, j, name) {
      LiveStep(h, Add(name), j, name);
    }
    if j: nat :| Live(h, j, name) { var k := SomeFirst(h, j, name); }
  }

  lemma AccountedAdd(h: seq<Op>, nextId: nat, names: seq<Scope>, name: string)
    requires Accounted(h, nextId, names) && NoShadowing(names)
    ensures Accounted(h + [Add(name)], nextId, Bind(names, name, nextId + Adds(h)))
  {
    hide AddedAt, Bind, First, NoShadowing;
    var o, names' := Add(name), Bind(names, name, nextId + Adds(h));
    assert (h + [o])[..|h|] == h;
    FoundExactly(h, nextId, names, name);
    AddIsFirst(h, name);
    forall d: nat, other, v: nat | d < |names|
      ensures BoundAt(names', d, other, v) <==> AddedAt(h + [o], nextId, |names| - 1, d, other, v)
    {
      AddedStep(h, o, nextId, |names| - 1, d, other, v);
      BoundAfter(names, name, nextId + Adds(h), d, other, v);
    }
    assert |names'| == |names| by { BoundAfter(names, name, nextId + Adds(h), 0, name, 0); }
  }

  lemma BoundAfter(names: seq<Scope>, name: string, n: nat, d: nat, other: string, v: nat)
    requires names != [] && NoShadowing(names)
    ensures |Bind(names, name, n)| == |names|
    ensures BoundAt(Bind(names, name, n), d, other, v) <==>
            || BoundAt(names, d, other, v)
            || (other == name && d == |names| - 1 && v == n && name != "" && FindInnermost(names, name).None?)
  {
    SearchOrder(names, name);
    Outermost(names, name);
  }

  /**
    Over every run of a new table: a name is found exactly when it is not empty and some add of
    it was made in a scope that is still open, and what is found is the number that the first
    such add was given.
  */
  lemma {:induction false} FoundAfterRun(nextId: nat, ops: seq<Op>, name: string)
    requires Depth(ops).Some?
    ensures
      var found := FindInnermost(Run([map[]], nextId, ops).0, name);
      && (found.Some? <==> exists i: nat :: Live(ops, i, name))
      && (found.Some? ==> exists i: nat :: First(ops, i, name) && found.value == nextId + Adds(ops[..i]))
  {
    var names := Run([map[]], nextId, ops).0;
    RunAccounted(nextId, ops);
    FoundExactly(ops, nextId, names, name);
    if i: nat :| Live(ops, i, name) { var j := SomeFirst(ops, i, name); }
  }

  lemma {:induction false} RunAccounted(nextId: nat, ops: seq<Op>)
    requires Depth(ops).Some?
    ensures Accounted(ops, nextId, Run([map[]], nextId, ops).0)
    ensures Run([map[]], nextId, ops).1 == nextId + Adds(ops)
  {
    hide Accounted, Adds, NoShadowing;
    AccountedNew(nextId);
    if ops != [] {
      var h, o := ops[..|ops| - 1], ops[|ops| - 1];
      assert ops == h + [o];
      AddsOne(h, o);
      RunAccounted(nextId, h);
      var names := Run([map[]], nextId, h).0;
      NeverShadowed([map[]], nextId, h);
      match o
      case Open => AccountedOpen(h, nextId, names);
      case Close => AccountedClose(h, nextId, names);
      case Add(name) => AccountedAdd(h, nextId, names, name);
    }
  }

  /** Names stay unique over every run. */
  lemma {:induction false} NeverShadowed(names: seq<Scope>, nextId: nat, ops: seq<Op>)
    requires names != [] && Depth(ops).Some? && NoShadowing(names)
    ensures NoShadowing(Run(names, nextId, ops).0)
  {
    if ops != [] {
      NeverShadowed(names, nextId, ops[..|ops| - 1]);
      var r := Run(names, nextId, ops[..|ops| - 1]);
      if ops[|ops| - 1].Add? { Outermost(r.0, ops[|ops| - 1].name); }
    }
  }

  /** All numbers in the scopes are below the next one, so none is handed out twice. */
  ghost predicate Below(names: seq<Scope>, n: nat) {
    forall i, name :: 0 <= i < |names| && name in names[i] ==> names[i][name] < n
  }

  lemma {:induction false} NumbersAreFresh(names: seq<Scope>, nextId: nat, ops: seq<Op>)
    requires names != [] && Depth(ops).Some? && Below(names, nextId)
    ensures Below(Run(names, nextId, ops).0, Run(names, nextId, ops).1)
  {
    if ops != [] { NumbersAreFresh(names, nextId, ops[..|ops| - 1]); }
  }

  /** Opening a scope, anything balanced, and closing it again restores every lookup. */
  lemma ScopeRestores(names: seq<Scope>, nextId: nat, ops: seq<Op>, name: string)
    requires names != [] && Depth(ops) == Some(0)
    ensures
      var inside := Run(names + [map[]], nextId, ops).0;
      && inside[..|inside| - 1] == names
      && FindOutermost(inside[..|inside| - 1], name) == FindOutermost(names, name)
  {
    var inside := Run(names + [map[]], nextId, ops).0;
    assert (names + [map[]])[..|names|] == names;
  }
}
