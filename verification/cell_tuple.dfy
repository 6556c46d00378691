/** Cell tuples: one cell per dimension 0..n (lib/cell_complex.rb, class CellTuple).
    Tuples are values, so `CellTuple#clone` is the value itself and no two
    tuples ever alias. */
module Tuples {
  import opened Wrappers
  import opened Cells

  datatype TupleError = NotCells | WrongLength | IndexOutOfRange

  datatype CellTuple = CellTuple(cells: seq<Cell>) {
    /** `CellTuple#dim`: one less than the number of cells. */
    function Dim(): int {
      |cells| - 1
    }
  }

  /** `CellTuple.new(complex, cells)` for a complex of dimension `n`: the
      list must start with a cell and hold exactly n+1 of them. */
  function Make(n: int, cells: seq<Cell>): (r: Result<CellTuple, TupleError>)
    ensures r.Success? <==> |cells| > 0 && |cells| == n + 1
    ensures r.Success? ==> r.value.cells == cells && r.value.Dim() == n
    ensures |cells| == 0 ==> r == Failure(NotCells)
  {
    if |cells| == 0 then Failure(NotCells)
    else if |cells| - 1 != n then Failure(WrongLength)
    else Success(CellTuple(cells))
  }

  /** `CellTuple#[]`: Ruby indexing, negative indices count from the end,
      anything else out of range is `nil`. */
  function At(t: CellTuple, k: int): (r: Option<Cell>)
    ensures 0 <= k < |t.cells| ==> r == Some(t.cells[k])
    ensures -|t.cells| <= k < 0 ==> r == Some(t.cells[|t.cells| + k])
    ensures (k >= |t.cells| || k < -|t.cells|) <==> r.None?
  {
    if 0 <= k < |t.cells| then Some(t.cells[k])
    else if -|t.cells| <= k < 0 then Some(t.cells[|t.cells| + k])
    else None
  }

  /** `CellTuple#[]=`: assigns only when `k <= dim`; a negative index counts
      from the end, and one before the start raises. */
  function Set(t: CellTuple, k: int, c: Cell): (r: Result<CellTuple, TupleError>)
    ensures k > t.Dim() ==> r == Success(t)
    ensures 0 <= k <= t.Dim() ==>
      && r.Success?
      && |r.value.cells| == |t.cells|
      && r.value.cells[k] == c
      && (forall i :: 0 <= i < |t.cells| && i != k ==> r.value.cells[i] == t.cells[i])
    ensures -|t.cells| <= k < 0 ==>
      && r.Success?
      && |r.value.cells| == |t.cells|
      && r.value.cells[|t.cells| + k] == c
      && (forall i :: 0 <= i < |t.cells| && i != |t.cells| + k ==> r.value.cells[i] == t.cells[i])
    ensures r.Success? ==> |r.value.cells| == |t.cells|
    ensures r.Failure? <==> k < -|t.cells|
  {
    if k > t.Dim() then Success(t)
    else if 0 <= k then Success(CellTuple(t.cells[k := c]))
    else if -|t.cells| <= k then Success(CellTuple(t.cells[|t.cells| + k := c]))
    else Failure(IndexOutOfRange)
  }
}
