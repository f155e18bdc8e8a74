/**
  Positions in a source file: byte offsets, and line and column counted from zero.  The
  index holds the offset after every newline byte.
*/
module SourceFile {
  type Byte = x: nat | x < 256

  const NEWLINE: Byte := 10

  function Newlines(bytes: seq<Byte>): nat {
    if bytes == [] then 0
    else Newlines(bytes[..|bytes| - 1]) + if bytes[|bytes| - 1] == NEWLINE then 1 else 0
  }

  /** Strictly increasing, and exactly the offsets that follow a newline. */
  ghost predicate IsIndex(lineStarts: seq<nat>, bytes: seq<Byte>) {
    && (forall i, j :: 0 <= i < j < |lineStarts| ==> lineStarts[i] < lineStarts[j])
    && (forall s: nat :: s in lineStarts <==> 0 < s <= |bytes| && bytes[s - 1] == NEWLINE)
  }

  method New(bytes: seq<Byte>) returns (lineStarts: seq<nat>)
    ensures IsIndex(lineStarts, bytes)
  {
    lineStarts := [];
    var ind := 0;
    while ind < |bytes|
      invariant ind <= |bytes|
      invariant forall i, j :: 0 <= i < j < |lineStarts| ==> lineStarts[i] < lineStarts[j]
      invariant forall s: nat :: s in lineStarts <==> 0 < s <= ind && bytes[s - 1] == NEWLINE
    {
      if bytes[ind] == NEWLINE {
        forall i | 0 <= i < |lineStarts| ensures lineStarts[i] < ind + 1 { assert lineStarts[i] in lineStarts; }
        lineStarts := lineStarts + [ind + 1];
      }
      ind := ind + 1;
    }
  }

  /** How many line starts are at or before an offset: where a binary search on the index ends. */
  function PartitionPoint(lineStarts: seq<nat>, loc: nat): (n: nat)
    ensures n <= |lineStarts|
    ensures forall i :: 0 <= i < n ==> lineStarts[i] <= loc
    ensures n < |lineStarts| ==> loc < lineStarts[n]
  {
    if lineStarts == [] || loc < lineStarts[0] then 0 else 1 + PartitionPoint(lineStarts[1..], loc)
  }

  function OffsetToLineColumn(lineStarts: seq<nat>, loc: nat): (nat, nat) {
    var lineNo := PartitionPoint(lineStarts, loc);
    (lineNo, if lineNo > 0 then loc - lineStarts[lineNo - 1] else loc)
  }

  function GetOffset(lineStarts: seq<nat>, lineNo: nat, columnNo: nat): nat
    requires lineNo <= |lineStarts|
  {
    if lineNo == 0 then columnNo else lineStarts[lineNo - 1] + columnNo
  }

  /** The line is the number of newlines before the offset, the column the distance from the last of them. */
  lemma LineAndColumn(lineStarts: seq<nat>, bytes: seq<Byte>, loc: nat)
    requires IsIndex(lineStarts, bytes) && loc <= |bytes|
    ensures
      var (line, column) := OffsetToLineColumn(lineStarts, loc);
      && line == Newlines(bytes[..loc])
      && column <= loc
      && (column < loc ==> bytes[loc - column - 1] == NEWLINE)
      && forall i :: loc - column <= i < loc ==> bytes[i] != NEWLINE
  {
    var n := PartitionPoint(lineStarts, loc);
    forall i | 0 <= i < loc && bytes[i] == NEWLINE ensures exists j :: 0 <= j < n && lineStarts[j] == i + 1 {
      assert i + 1 in lineStarts;
      var j :| 0 <= j < |lineStarts| && lineStarts[j] == i + 1;
    }
    if n > 0 {
      assert lineStarts[n - 1] in lineStarts;
    }
    CountNewlines(lineStarts, bytes, loc, n);
  }

  /** The line starts up to an offset are as many as the newlines before it. */
  lemma {:induction false} CountNewlines(lineStarts: seq<nat>, bytes: seq<Byte>, loc: nat, n: nat)
    requires IsIndex(lineStarts, bytes) && loc <= |bytes| && n <= |lineStarts|
    requires forall i :: 0 <= i < n ==> lineStarts[i] <= loc
    requires n < |lineStarts| ==> loc < lineStarts[n]
    ensures Newlines(bytes[..loc]) == n
    decreases loc
  {
    if loc == 0 {
      assert |lineStarts| > 0 ==> lineStarts[0] in lineStarts;
    } else {
      assert bytes[..loc][..loc - 1] == bytes[..loc - 1];
      if bytes[loc - 1] == NEWLINE {
        assert loc in lineStarts;
        var j :| 0 <= j < |lineStarts| && lineStarts[j] == loc;
        forall i | 0 <= i < n - 1 ensures lineStarts[i] <= loc - 1 { assert lineStarts[i] < lineStarts[n - 1]; }
        CountNewlines(lineStarts, bytes, loc - 1, n - 1);
      } else {
        assert loc !in lineStarts;
        forall i | 0 <= i < n ensures lineStarts[i] <= loc - 1 { assert lineStarts[i] in lineStarts; }
        CountNewlines(lineStarts, bytes, loc - 1, n);
      }
    }
  }

  /** Going to line and column and back is the identity on all offsets, */
  lemma OffsetRoundTrip(lineStarts: seq<nat>, loc: nat)
    ensures
      var (line, column) := OffsetToLineColumn(lineStarts, loc);
      line <= |lineStarts| && GetOffset(lineStarts, line, column) == loc
  {}

  /** and the other way round exactly on the positions that lie in their line. */
  lemma PositionRoundTrip(lineStarts: seq<nat>, bytes: seq<Byte>, line: nat, column: nat)
    requires IsIndex(lineStarts, bytes) && line <= |lineStarts|
    ensures
      var loc := GetOffset(lineStarts, line, column);
      OffsetToLineColumn(lineStarts, loc) == (line, column) <==> (line < |lineStarts| ==> loc < lineStarts[line])
  {
    var loc := GetOffset(lineStarts, line, column);
    var n := PartitionPoint(lineStarts, loc);
    if n > line + 1 { assert lineStarts[line] < lineStarts[n - 1]; }
  }
}
