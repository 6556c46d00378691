/** `CellComplex#delete`: removing a cell together with everything above it
    (lib/cell_complex.rb). */
module Deletion {
  import opened Wrappers
  import opened Lists
  import opened Cells
  import opened Complex

  /** `D` arises from `C` by removals only: coboundary lists, cell lists and
      switch entries lose elements, nothing is added or rewritten. */
  ghost predicate Shrinks(C: Complex, D: Complex) {
    && D.dim == C.dim && D.lower == C.lower && D.nextId == C.nextId
    && D.cells.Keys == C.cells.Keys
    && (forall y, z :: z in Upper(D, y) ==> z in Upper(C, y))
    && (forall d, x :: x in Bucket(D, d) ==> x in Bucket(C, d))
    && (forall s :: s in D.switch ==> s in C.switch && D.switch[s] == C.switch[s])
  }

  /** A cell is gone once it is in no cell list. */
  ghost predicate Gone(C: Complex, x: Cell) {
    x !in Bucket(C, x.dim)
  }

  /** No facet of `c` lists it as a coface any more, and the switch table
      has no entry keyed on `c` above one of its facets: neither (f, c, full
      face) nor (g, f, c) for a facet g of f. The boundary lists themselves
      are never changed by a deletion, so they are read from `C`. */
  ghost predicate Detached(C: Complex, c: Cell) {
    forall f :: f in Lower(C, c) ==> DetachedFrom(C, c, f)
  }

  /** `c` is detached from the one facet `f`. */
  ghost predicate DetachedFrom(C: Complex, c: Cell, f: Cell) {
    && c !in Upper(C, f)
    && Slot(f, c, FullFace(C)) !in C.switch
    && (forall g :: g in Lower(C, f) ==> Slot(g, f, c) !in C.switch)
  }

  /** Removals never reattach. */
  lemma DetachedFromShrinks(C: Complex, D: Complex, c: Cell, f: Cell)
    requires Shrinks(C, D) && DetachedFrom(C, c, f)
    ensures DetachedFrom(D, c, f)
  {
  }

  /** Ruby's `@cells[d]` names a list: an array of n+1 lists is indexed from
      the front by 0..n and from the back by -(n+1)..-1, and is nil beyond. */
  predicate HasBucket(C: Complex, d: int) {
    -(C.dim + 1) <= d <= C.dim
  }

  /** `delete(cell)` as a caller sees it: the full face returns at once;
      for any other cell the last line, `@cells[cell.dim].delete(cell)`,
      raises on nil when that index is past either end of the cell array.
      Only the cell passed in can raise: grading keeps every cell the
      recursion reaches inside the array or equal to the full face
      (`DeleteClosure.AboveInArray`). The raise comes after the coboundary
      is deleted; the error result does not keep that partial work. */
  function DeleteCell(C: Complex, c: Cell): (r: Result<Complex, Error>)
    requires Graded(C)
    ensures r.Failure? <==> c != FullFace(C) && !HasBucket(C, c.dim)
    ensures r.Failure? ==> r.error == NoBucket
    ensures r.Success? ==> r.value == Delete(C, c) && Graded(r.value) && Shrinks(C, r.value)
    ensures r.Success? && c != FullFace(C) ==> Gone(r.value, c) && Detached(r.value, c)
  {
    if c != FullFace(C) && !HasBucket(C, c.dim) then Failure(NoBucket)
    else Success(Delete(C, c))
  }

  /** `delete(cell)` once the cell's list exists: nothing happens to the
      full face. Any other cell first
      has every cell of its coboundary deleted (recursively), then is
      detached from each of its facets (coboundary entry and switch entries
      keyed on it) and finally removed from its cell list. */
  function Delete(C: Complex, c: Cell): (r: Complex)
    requires Graded(C)
    ensures Graded(r) && Shrinks(C, r)
    ensures c == FullFace(C) ==> r == C
    ensures c != FullFace(C) ==> Gone(r, c)
    ensures c != FullFace(C) ==> Detached(r, c)
    decreases C.dim + 1 - c.dim, 1
  {
    if c == FullFace(C) then C
    else
      var kids := Upper(C, c);
      assert forall k :: k in kids ==> k.dim == c.dim + 1 && k.dim <= C.dim + 1;
      var C1 := DeleteEach(C, c, kids, 0);
      var r := Remove(C1, c);
      ShrinksTrans(C, C1, r);
      GradedShrinks(C, r);
      r
  }

  /** Everything `delete` does to the cell itself once its coboundary is
      gone: detach it from its facets, then drop it from its cell list. */
  function Remove(C: Complex, c: Cell): (r: Complex)
    ensures Shrinks(C, r) && Gone(r, c) && Detached(r, c)
    ensures forall y, z :: z in Upper(C, y) && z !in Upper(r, y) ==> z == c
    ensures forall d, x :: x in Bucket(C, d) && x !in Bucket(r, d) ==> x == c
  {
    var C2 := Detach(C, c, Lower(C, c));
    var r := Drop(C2, c);
    ShrinksTrans(C, C2, r);
    assert Detached(r, c) by {
      forall f | f in Lower(r, c) ensures DetachedFrom(r, c, f) {
        DetachedFromShrinks(C2, r, c, f);
      }
    }
    r
  }

  /** The last step of `delete`: `@cells[cell.dim].delete(cell)`. */
  function Drop(C: Complex, c: Cell): (r: Complex)
    ensures Shrinks(C, r) && Gone(r, c)
    ensures r.upper == C.upper && r.switch == C.switch
    ensures forall x :: x != c ==> Bucket(r, x.dim) == Bucket(C, x.dim) || x.dim == c.dim
    ensures forall d, x :: x in Bucket(C, d) && x != c ==> x in Bucket(r, d)
  {
    C.(cells := Unlist(C.cells, c))
  }

  /** The `@upper[cell].clone.each { |up_cell| delete up_cell }` loop, from
      position `i` of the snapshot `kids`. */
  function DeleteEach(C: Complex, parent: Cell, kids: seq<Cell>, i: nat): (r: Complex)
    requires Graded(C) && i <= |kids|
    requires forall k :: k in kids ==> k.dim == parent.dim + 1 && k.dim <= C.dim + 1
    ensures Graded(r) && Shrinks(C, r)
    decreases C.dim + 1 - parent.dim, 0, |kids| - i
  {
    if i == |kids| then C
    else
      var C1 := Delete(C, kids[i]);
      var r := DeleteEach(C1, parent, kids, i + 1);
      ShrinksTrans(C, C1, r);
      r
  }

  /** The loop over the cell's facets: clear the switch entries (f, cell,
      full face) and (g, f, cell) for every g below f, and remove the cell
      from f's coboundary. */
  function Detach(C: Complex, c: Cell, fs: seq<Cell>): (r: Complex)
    ensures Shrinks(C, r) && r.cells == C.cells
    ensures forall f :: f in fs ==> DetachedFrom(r, c, f)
    ensures forall y, z :: z in Upper(C, y) && z !in Upper(r, y) ==> z == c
    decreases |fs|
  {
    if |fs| == 0 then C
    else
      var C1 := DetachOne(C, c, fs[0]);
      var r := Detach(C1, c, fs[1..]);
      assert forall x :: x in fs ==> x == fs[0] || x in fs[1..];
      ShrinksTrans(C, C1, r);
      DetachedFromShrinks(C1, r, c, fs[0]);
      r
  }

  /** One facet `f` of the loop in `Detach`. */
  function DetachOne(C: Complex, c: Cell, f: Cell): (r: Complex)
    ensures Shrinks(C, r) && r.cells == C.cells
    ensures DetachedFrom(r, c, f)
    ensures forall y, z :: z in Upper(C, y) && z !in Upper(r, y) ==> z == c
  {
    var cleared := {Slot(f, c, FullFace(C))} + (set g | g in Lower(C, f) :: Slot(g, f, c));
    C.(switch := C.switch - cleared, upper := C.upper[f := RemoveAll(Upper(C, f), c)])
  }

  /** `@cells[cell.dim].delete(cell)` for an index 0..n. A negative index
      counts from the back of the array; `UnlistFromBack` shows that the
      list it names cannot hold the cell, so leaving the lists alone, as
      this function does for any index without a list, is the same. */
  function Unlist(cells: map<int, seq<Cell>>, c: Cell): (r: map<int, seq<Cell>>)
    ensures r.Keys == cells.Keys
    ensures c.dim in cells ==> r[c.dim] == RemoveAll(cells[c.dim], c)
    ensures forall d :: d in cells && d != c.dim ==> r[d] == cells[d]
  {
    if c.dim in cells then cells[c.dim := RemoveAll(cells[c.dim], c)] else cells
  }

  /** For -(n+1) <= dim < 0 Ruby deletes from the list `@cells[n+1+dim]`,
      whose cells all have dimension n+1+dim >= 0, so the cell is not in it
      and the list is unchanged, as `Unlist` has it. */
  lemma UnlistFromBack(C: Complex, c: Cell)
    requires Graded(C) && HasBucket(C, c.dim) && c.dim < 0
    ensures var d := C.dim + 1 + c.dim;
      RemoveAll(Bucket(C, d), c) == Bucket(C, d) && Unlist(C.cells, c) == C.cells
  {
    var d := C.dim + 1 + c.dim;
    assert c !in Bucket(C, d);
    RemoveAbsent(Bucket(C, d), c);
  }

  lemma ShrinksTrans(A: Complex, B: Complex, D: Complex)
    requires Shrinks(A, B) && Shrinks(B, D)
    ensures Shrinks(A, D)
  {
  }

  /** Removals keep a complex graded. */
  lemma GradedShrinks(C: Complex, D: Complex)
    requires Graded(C) && Shrinks(C, D)
    ensures Graded(D)
  {
    forall d | d in D.cells ensures 0 <= d <= D.dim {
      assert d in C.cells;
    }
    forall d, x | x in Bucket(D, d) ensures x.dim == d {
      assert x in Bucket(C, d);
    }
    forall c, f | f in Lower(D, c) ensures f.dim == c.dim - 1 {
      assert Lower(D, c) == Lower(C, c);
    }
    forall c, u | u in Upper(D, c) ensures u.dim == c.dim + 1 && (u.dim <= D.dim || u == FullFace(D)) {
      assert u in Upper(C, c);
    }
  }
}
