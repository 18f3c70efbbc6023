/**
 * The `Position` and `Range` namespaces of src/document-symbols.ts: the order
 * on LSP positions, the minimum and maximum of a list of positions, and the
 * intersection of two ranges.
 */
module Positions {
  import opened Wrappers

  /** An LSP position: zero-based line and character offset. */
  datatype Position = Position(line: nat, character: nat)

  /** An LSP range; nothing forces `start` to come before `end`. */
  datatype Range = Range(start: Position, end: Position)

  /** Reference definition: strict lexicographic order on (line, character). */
  ghost predicate LexLess(a: Position, b: Position) {
    a.line < b.line || (a.line == b.line && a.character < b.character)
  }

  /** `Position.isBefore`: `one` comes strictly before `other`. */
  predicate IsBefore(one: Position, other: Position)
    ensures IsBefore(one, other) <==> LexLess(one, other)
  {
    if one.line < other.line then true
    else if other.line < one.line then false
    else one.character < other.character
  }

  /** `Position.isBeforeOrEqual`: `one` comes before `other` or is equal to it. */
  predicate IsBeforeOrEqual(one: Position, other: Position)
    ensures IsBeforeOrEqual(one, other) <==> LexLess(one, other) || one == other
  {
    if one.line < other.line then true
    else if other.line < one.line then false
    else one.character <= other.character
  }

  /** `Position.isAfter`, defined in the source as the negation of `isBeforeOrEqual`. */
  predicate IsAfter(one: Position, other: Position)
    ensures IsAfter(one, other) <==> IsBefore(other, one)
  {
    !IsBeforeOrEqual(one, other)
  }

  /** `IsBefore` is a strict total order. */
  lemma IsBeforeStrictTotalOrder(a: Position, b: Position, c: Position)
    ensures !IsBefore(a, a)
    ensures IsBefore(a, b) && IsBefore(b, c) ==> IsBefore(a, c)
    ensures a == b || IsBefore(a, b) || IsBefore(b, a)
    ensures !(IsBefore(a, b) && IsBefore(b, a))
  {
  }

  /**
   * The scan of `Min`: `acc` is the element popped off the end of the list,
   * `ps` the elements visited so far, in order; a later element replaces the
   * current result only when it is strictly before it.
   */
  function ScanMin(acc: Position, ps: seq<Position>): (r: Position)
    ensures r == acc || r in ps
    ensures !IsBefore(acc, r)
    ensures forall p :: p in ps ==> !IsBefore(p, r)
  {
    if ps == [] then acc
    else
      var r := ScanMin(acc, ps[..|ps| - 1]);
      var p := ps[|ps| - 1];
      assert ps == ps[..|ps| - 1] + [p];
      if IsBefore(p, r) then p else r
  }

  /** The scan of `Max`, with `isAfter` in place of `isBefore`. */
  function ScanMax(acc: Position, ps: seq<Position>): (r: Position)
    ensures r == acc || r in ps
    ensures !IsAfter(acc, r)
    ensures forall p :: p in ps ==> !IsAfter(p, r)
  {
    if ps == [] then acc
    else
      var r := ScanMax(acc, ps[..|ps| - 1]);
      var p := ps[|ps| - 1];
      assert ps == ps[..|ps| - 1] + [p];
      if IsAfter(p, r) then p else r
  }

  /**
   * What `Position.Min(...positions)` returns: `undefined` for no argument;
   * otherwise one of the arguments that no argument comes strictly before.
   */
  function MinOf(ps: seq<Position>): (r: Option<Position>)
    ensures r.None? <==> ps == []
    ensures r.Some? ==> r.value in ps && forall p :: p in ps ==> !IsBefore(p, r.value)
  {
    if ps == [] then None
    else
      assert ps == ps[..|ps| - 1] + [ps[|ps| - 1]];
      Some(ScanMin(ps[|ps| - 1], ps[..|ps| - 1]))
  }

  /**
   * What `Position.Max(...positions)` returns: `undefined` for no argument;
   * otherwise one of the arguments that no argument comes strictly after.
   */
  function MaxOf(ps: seq<Position>): (r: Option<Position>)
    ensures r.None? <==> ps == []
    ensures r.Some? ==> r.value in ps && forall p :: p in ps ==> !IsAfter(p, r.value)
  {
    if ps == [] then None
    else
      assert ps == ps[..|ps| - 1] + [ps[|ps| - 1]];
      Some(ScanMax(ps[|ps| - 1], ps[..|ps| - 1]))
  }

  /** A total order has one least element: any two minima of a list are equal. */
  lemma {:induction false} MinOfUnique(ps: seq<Position>, m: Position)
    requires m in ps && forall p :: p in ps ==> !IsBefore(p, m)
    ensures MinOf(ps) == Some(m)
  {
    var r := MinOf(ps).value;
    IsBeforeStrictTotalOrder(r, m, m);
  }

  /** A total order has one greatest element: any two maxima of a list are equal. */
  lemma {:induction false} MaxOfUnique(ps: seq<Position>, m: Position)
    requires m in ps && forall p :: p in ps ==> !IsAfter(p, m)
    ensures MaxOf(ps) == Some(m)
  {
    var r := MaxOf(ps).value;
    IsBeforeStrictTotalOrder(r, m, m);
  }

  /** `Position.Min`: pop the last position, then scan the rest in order. */
  method Min(positions: seq<Position>) returns (r: Option<Position>)
    ensures r == MinOf(positions)
  {
    if |positions| == 0 {
      return None;
    }
    var rest := positions[..|positions| - 1];
    var result := positions[|positions| - 1];
    for i := 0 to |rest|
      invariant result == ScanMin(positions[|positions| - 1], rest[..i])
    {
      assert rest[..i + 1][..i] == rest[..i];
      if IsBefore(rest[i], result) {
        result := rest[i];
      }
    }
    assert rest[..|rest|] == rest;
    r := Some(result);
  }

  /** `Position.Max`: pop the last position, then scan the rest in order. */
  method Max(positions: seq<Position>) returns (r: Option<Position>)
    ensures r == MaxOf(positions)
  {
    if |positions| == 0 {
      return None;
    }
    var rest := positions[..|positions| - 1];
    var result := positions[|positions| - 1];
    for i := 0 to |rest|
      invariant result == ScanMax(positions[|positions| - 1], rest[..i])
    {
      assert rest[..i + 1][..i] == rest[..i];
      if IsAfter(rest[i], result) {
        result := rest[i];
      }
    }
    assert rest[..|rest|] == rest;
    r := Some(result);
  }

  /** `Position.Max(a, b)`, the two-argument call `Range.intersection` makes. */
  function Later(a: Position, b: Position): Position {
    if IsAfter(a, b) then a else b
  }

  /** `Position.Min(a, b)`, the two-argument call `Range.intersection` makes. */
  function Earlier(a: Position, b: Position): Position {
    if IsBefore(a, b) then a else b
  }

  /** `Later` is what `Max` returns for two arguments. */
  lemma LaterIsMax(a: Position, b: Position)
    ensures MaxOf([a, b]) == Some(Later(a, b))
  {
    assert [a, b][..1] == [a];
  }

  /** `Earlier` is what `Min` returns for two arguments. */
  lemma EarlierIsMin(a: Position, b: Position)
    ensures MinOf([a, b]) == Some(Earlier(a, b))
  {
    assert [a, b][..1] == [a];
  }

  /** `q` lies within `outer`: neither end sticks out. */
  predicate Within(q: Range, outer: Range) {
    IsBeforeOrEqual(outer.start, q.start) && IsBeforeOrEqual(q.end, outer.end)
  }

  /**
   * `Range.intersection`: from the later start to the earlier end, or
   * `undefined` when that start is strictly after that end.
   */
  function Intersection(one: Range, other: Range): (r: Option<Range>)
    ensures r.None? <==>
      IsAfter(one.start, one.end) || IsAfter(one.start, other.end) ||
      IsAfter(other.start, one.end) || IsAfter(other.start, other.end)
    ensures r.Some? ==>
      (r.value.start == one.start || r.value.start == other.start) &&
      (r.value.end == one.end || r.value.end == other.end)
    ensures r.Some? ==> Within(r.value, one) && Within(r.value, other)
  {
    var start := Later(other.start, one.start);
    var end := Earlier(other.end, one.end);
    if IsAfter(start, end) then None else Some(Range(start, end))
  }

  /** The order of the arguments does not change the intersection. */
  lemma IntersectionCommutes(a: Range, b: Range)
    ensures Intersection(a, b) == Intersection(b, a)
  {
    IsBeforeStrictTotalOrder(a.start, b.start, b.start);
    IsBeforeStrictTotalOrder(a.end, b.end, b.end);
  }

  /** Well-formed ranges that only touch intersect in an empty range, not `undefined`. */
  lemma TouchingRangesIntersect(a: Range, b: Range)
    requires IsBeforeOrEqual(a.start, a.end) && IsBeforeOrEqual(b.start, b.end)
    requires a.end == b.start
    ensures Intersection(a, b) == Some(Range(b.start, b.start))
  {
  }

  /** Two well-formed ranges fail to intersect exactly when one ends strictly before the other starts. */
  lemma DisjointRanges(a: Range, b: Range)
    requires IsBeforeOrEqual(a.start, a.end) && IsBeforeOrEqual(b.start, b.end)
    ensures Intersection(a, b).None? <==> IsBefore(a.end, b.start) || IsBefore(b.end, a.start)
  {
  }
}
