/** Cell handles and their total order (lib/cell_complex.rb, class Cell). */
module Cells {
  import opened Wrappers

  /** A dimension: the empty face has dimension -1, every other cell more. */
  type Dim = d: int | -1 <= d

  /** A cell is an opaque handle: its dimension and an identity key that
      stands for the Ruby object's identity. */
  datatype Cell = Cell(dim: Dim, id: nat)

  /** `Cell#<=>`: by dimension first, then by the identity key; any cell is
      greater than `nil`. */
  function Compare(a: Cell, b: Option<Cell>): (r: int)
    ensures b.None? ==> r == 1
    ensures b.Some? && a.dim != b.value.dim ==> (r < 0 <==> a.dim < b.value.dim)
    ensures b.Some? ==> (r == 0 <==> a == b.value)
    ensures r == -1 || r == 0 || r == 1
  {
    match b
    case None => 1
    case Some(c) =>
      if a.dim == c.dim then Spaceship(a.id, c.id) else Spaceship(a.dim, c.dim)
  }

  /** Ruby's `Integer#<=>`. */
  function Spaceship(x: int, y: int): int {
    if x < y then -1 else if x == y then 0 else 1
  }

  /** `a <= b` in the order `Compare` induces. */
  predicate Le(a: Cell, b: Cell) {
    Compare(a, Some(b)) <= 0
  }

  /** Swapping the operands negates the comparison. */
  lemma CompareAntisymmetric(a: Cell, b: Cell)
    ensures Compare(a, Some(b)) == -Compare(b, Some(a))
  {
  }

  /** `Le` is a total order on cells: reflexive, antisymmetric, transitive, total. */
  lemma LeTotalOrder(a: Cell, b: Cell, c: Cell)
    ensures Le(a, a)
    ensures Le(a, b) && Le(b, a) ==> a == b
    ensures Le(a, b) && Le(b, c) ==> Le(a, c)
    ensures Le(a, b) || Le(b, a)
  {
  }

  /** Cells of lower dimension come first. */
  lemma LeRespectsDimension(a: Cell, b: Cell)
    ensures Le(a, b) ==> a.dim <= b.dim
    ensures a.dim < b.dim ==> Le(a, b)
  {
  }

  ghost predicate Sorted(s: seq<Cell>) {
    forall i, j :: 0 <= i < j < |s| ==> Le(s[i], s[j])
  }

  /** `Array#sort` under `Cell#<=>`. The order is total and only equal cells
      compare as 0, so the sorted result is unique. */
  function Sort(s: seq<Cell>): (r: seq<Cell>)
    ensures Sorted(r)
    ensures multiset(r) == multiset(s)
    ensures |r| == |s|
  {
    if |s| == 0 then []
    else
      assert s == [s[0]] + s[1..];
      Insert(s[0], Sort(s[1..]))
  }

  /** Places `x` in front of the first element it is not greater than. */
  function Insert(x: Cell, s: seq<Cell>): (r: seq<Cell>)
    requires Sorted(s)
    ensures Sorted(r)
    ensures multiset(r) == multiset(s) + multiset{x}
  {
    if |s| == 0 then [x]
    else if Le(x, s[0]) then
      LeTotalOrder(x, s[0], s[0]);
      assert forall j :: 0 <= j < |s| ==> Le(x, s[j]) by {
        forall j | 0 <= j < |s| ensures Le(x, s[j]) {
          LeTotalOrder(x, s[0], s[j]);
        }
      }
      [x] + s
    else
      var rest := Insert(x, s[1..]);
      InsertBehind(x, s, rest);
      [s[0]] + rest
  }

  /** Behind a head that `x` is greater than, the insertion result keeps the
      list sorted. */
  lemma InsertBehind(x: Cell, s: seq<Cell>, rest: seq<Cell>)
    requires |s| > 0 && Sorted(s) && !Le(x, s[0])
    requires Sorted(rest) && multiset(rest) == multiset(s[1..]) + multiset{x}
    ensures Sorted([s[0]] + rest)
    ensures multiset([s[0]] + rest) == multiset(s) + multiset{x}
  {
    assert Le(s[0], x) by { LeTotalOrder(x, s[0], s[0]); }
    forall y | y in multiset(rest) ensures Le(s[0], y) {
      if y != x {
        assert y in multiset(s[1..]);
        assert y in s[1..];
      }
    }
    var r := [s[0]] + rest;
    forall i, j | 0 <= i < j < |r| ensures Le(r[i], r[j]) {
      if i == 0 {
        assert r[j] == rest[j - 1];
        assert rest[j - 1] in multiset(rest);
      } else {
        assert r[i] == rest[i - 1] && r[j] == rest[j - 1];
      }
    }
    assert s == [s[0]] + s[1..];
  }

  /** In a sorted list, cells between two of equal dimension share it. */
  lemma SortedDims(s: seq<Cell>, i: int, k: int, j: int)
    requires Sorted(s) && 0 <= i <= k <= j < |s|
    requires s[i].dim == s[j].dim
    ensures s[k].dim == s[i].dim
  {
    LeRespectsDimension(s[i], s[k]);
    LeRespectsDimension(s[k], s[j]);
  }
}
