/** Incidence symmetry, a live `y` in `@upper[x]` exactly when `x` is in
    `@lower[y]`: `CellComplex.new` starts with it (`Complex.Init`), `add`
    and `delete` keep it, and after `delete` no surviving cell's lists name
    a cell the deletion removed (lib/cell_complex.rb). */
module Symmetry {
  import opened Cells
  import opened Complex
  import opened Insertion
  import opened Involution
  import opened Deletion
  import opened DeleteClosure

  /** A live cell of a graded complex is not the full face. */
  lemma LiveNotFull(C: Complex, y: Cell)
    requires Graded(C) && Live(C, y)
    ensures y.dim <= C.dim && y != FullFace(C)
  {
    assert y.dim in C.cells;
  }

  /** `add` writes the new cell's boundary list and enters the cell into
      the coboundary list of each boundary cell, and nothing else names it:
      symmetry survives. */
  lemma AddSym(C: Complex, boundary: seq<Cell>)
    requires Graded(C) && KeysBelow(C) && Sym(C)
    requires Add(C, boundary).Success?
    ensures Sym(Add(C, boundary).value.complex)
  {
    var D, c := Add(C, boundary).value.complex, Add(C, boundary).value.cell;
    assert c !in Lower(D, c);
    forall x, y | Live(D, y) ensures y in Upper(D, x) <==> x in Lower(D, y) {
      if y == c {
        if x != c && x !in Lower(D, c) {
          assert Upper(D, x) == Upper(C, x);
        }
      } else {
        assert Live(C, y) && Lower(D, y) == Lower(C, y);
        LiveNotFull(C, y);
        if x != c && x !in Lower(D, c) {
          assert Upper(D, x) == Upper(C, x);
        }
      }
    }
  }

  /** `delete` only cuts coboundary entries that point at cells it removes,
      and never touches a boundary list: symmetry survives. */
  lemma DeleteSym(C: Complex, c: Cell)
    requires Graded(C) && Sym(C)
    ensures Sym(Delete(C, c))
  {
    var D := Delete(C, c);
    if c != FullFace(C) {
      DeleteFacts(C, c);
      forall x, y | Live(D, y) ensures y in Upper(D, x) <==> x in Lower(D, y) {
        assert Live(C, y);
        SymKept(C, D, c, x, y);
      }
    }
  }

  /** One pair of `DeleteSym`: an entry cut from `x`'s coboundary list
      points above `c`, and a surviving `y` is not above it. */
  lemma SymKept(C: Complex, D: Complex, c: Cell, x: Cell, y: Cell)
    requires Shrinks(C, D) && EdgesCut(C, D, [c]) && AllGone(C, D, [c])
    requires Live(D, y) && (y in Upper(C, x) <==> x in Lower(C, y))
    ensures y in Upper(D, x) <==> x in Lower(D, y)
  {
    assert Lower(D, y) == Lower(C, y);
    assert !AboveSome(C, [c], y);
  }

  /** After `delete`, no cell that survives lists, as a face or as a
      coface, a cell the deletion removed: a removed face would put the
      survivor above the deleted cell, and a removed coface was detached
      from every facet when it went. */
  lemma DeleteNoDangling(C: Complex, c: Cell)
    requires Graded(C) && Sym(C)
    ensures var D := Delete(C, c);
      forall y, z :: Live(D, y) && Live(C, z) && (z in Lower(D, y) || z in Upper(D, y)) ==> Live(D, z)
  {
    if c != FullFace(C) {
      DeleteFacts(C, c);
      NoDanglingAbove(C, Delete(C, c), c);
    }
  }

  /** `DeleteNoDangling` for any removal of exactly what lies above `c`. */
  lemma NoDanglingAbove(C: Complex, D: Complex, c: Cell)
    requires Graded(C) && Sym(C) && Shrinks(C, D) && RemovesAbove(C, D, [c])
    ensures forall y, z :: Live(D, y) && Live(C, z) && (z in Lower(D, y) || z in Upper(D, y)) ==> Live(D, z)
  {
    forall y, z | Live(D, y) && Live(C, z) && (z in Lower(D, y) || z in Upper(D, y)) ensures Live(D, z) {
      assert Live(C, y) && Lower(D, y) == Lower(C, y);
      if z in Lower(D, y) {
        assert y in Upper(C, z);
        FaceKept(C, D, c, y, z);
      } else {
        assert y in Lower(C, z);
        CofaceKept(C, D, c, y, z);
      }
    }
  }

  /** A face of a survivor survives: were it removed, it would lie above
      `c`, and so would the survivor on its coboundary list. */
  lemma FaceKept(C: Complex, D: Complex, c: Cell, y: Cell, z: Cell)
    requires Graded(C) && Shrinks(C, D) && CellsCut(C, D, [c]) && AllGone(C, D, [c])
    requires Live(C, y) && Live(C, z) && y in Upper(C, z)
    ensures Live(D, y) ==> Live(D, z)
  {
    if !Live(D, z) {
      assert AboveSome(C, [c], z);
      var k: nat :| Reaches(C, Upward, c, z, k);
      assert Reaches(C, Upward, y, y, 0);
      ReachCons(C, z, y, y, 0);
      ReachTrans(C, c, z, y, k, 1);
      LiveNotFull(C, y);
      assert Above(C, c, y);
    }
  }

  /** A coface listed by a survivor survives: were it removed, it would lie
      above `c` and have been detached from the survivor, its facet. */
  lemma CofaceKept(C: Complex, D: Complex, c: Cell, y: Cell, z: Cell)
    requires Shrinks(C, D) && CellsCut(C, D, [c]) && AllDetached(C, D, [c])
    requires Live(C, z) && y in Lower(C, z)
    ensures z in Upper(D, y) ==> Live(D, z)
  {
    if !Live(D, z) {
      assert AboveSome(C, [c], z);
      assert Lower(D, z) == Lower(C, z);
      assert DetachedFrom(D, z, y);
    }
  }
}
