/** What `CellComplex.new` and `add` keep true of the complex as a whole
    (lib/cell_complex.rb). */
module InsertionFacts {
  import opened Wrappers
  import opened Cells
  import opened Complex
  import opened Insertion

  /** The boundary cells all have one dimension, the one below the new cell.
      `add` does not check this; it is what every caller in the repository
      passes. */
  ghost predicate Uniform(boundary: seq<Cell>) {
    forall b :: b in boundary ==> b.dim == NewDim(boundary) - 1
  }

  /** A fresh complex is graded and the full face has no boundary list. */
  lemma InitGraded(n: nat)
    ensures Graded(Init(n)) && Lower(Init(n), FullFace(Init(n))) == []
  {
  }

  /** `add` on a uniform boundary keeps the complex graded and never gives
      the full face a boundary. */
  lemma AddGraded(C: Complex, boundary: seq<Cell>)
    requires Graded(C) && Lower(C, FullFace(C)) == [] && Uniform(boundary)
    ensures Add(C, boundary).Success? ==>
      var D := Add(C, boundary).value.complex;
      Graded(D) && Lower(D, FullFace(D)) == []
  {
    var r := Add(C, boundary);
    if r.Success? {
      var D, c := r.value.complex, r.value.cell;
      var bdy := Lower(D, c);
      assert forall b :: b in bdy ==> b.dim == c.dim - 1 by {
        if c.dim != 0 {
          assert bdy == boundary;
        }
      }
      BucketsGraded(C, D, c);
      LowersGraded(C, D, c);
      UppersGraded(C, D, c);
      assert Graded(D);
      assert FullFace(D) == FullFace(C) != c;
      assert Lower(D, FullFace(C)) == Lower(C, FullFace(C));
    }
  }

  /** Appending a cell of a listed dimension to its own list keeps every
      list homogeneous and within 0..n. */
  lemma BucketsGraded(C: Complex, D: Complex, c: Cell)
    requires Graded(C) && D.dim == C.dim && D.cells.Keys == C.cells.Keys
    requires Bucket(D, c.dim) == Bucket(C, c.dim) + [c]
    requires forall d :: d != c.dim ==> Bucket(D, d) == Bucket(C, d)
    ensures forall d :: d in D.cells ==> 0 <= d <= D.dim
    ensures forall d, x :: x in Bucket(D, d) ==> x.dim == d
  {
    forall d, x | x in Bucket(D, d) ensures x.dim == d {
      if d != c.dim || x != c {
        assert x in Bucket(C, d);
      }
    }
  }

  /** A new boundary list one dimension down keeps the boundary lists graded. */
  lemma LowersGraded(C: Complex, D: Complex, c: Cell)
    requires Graded(C)
    requires forall b :: b in Lower(D, c) ==> b.dim == c.dim - 1
    requires forall x :: x != c ==> Lower(D, x) == Lower(C, x)
    ensures forall x, f :: f in Lower(D, x) ==> f.dim == x.dim - 1
  {
    forall x, f | f in Lower(D, x) ensures f.dim == x.dim - 1 {
      if x != c {
        assert f in Lower(C, x);
      }
    }
  }

  /** Entering `c` above its facets, and giving it the full face above (or
      nothing), keeps the coboundary lists graded. */
  lemma UppersGraded(C: Complex, D: Complex, c: Cell)
    requires Graded(C) && D.dim == C.dim && 0 <= c.dim <= C.dim
    requires forall b :: b in Lower(D, c) ==> b.dim == c.dim - 1
    requires Upper(D, c) == (if c.dim == C.dim then [FullFace(C)] else [])
    requires forall f, x :: f in Lower(D, c) ==> (x in Upper(D, f) <==> x in Upper(C, f) || x == c)
    requires forall f :: f !in Lower(D, c) && f != c ==> Upper(D, f) == Upper(C, f)
    ensures forall y, u :: u in Upper(D, y) ==> u.dim == y.dim + 1 && (u.dim <= D.dim || u == FullFace(D))
  {
    forall y, u | u in Upper(D, y) ensures u.dim == y.dim + 1 && (u.dim <= D.dim || u == FullFace(D)) {
      if y != c && u != c {
        assert u in Upper(C, y);
      }
    }
  }

  /** `add([])` creates a vertex bounded by the empty face whenever there is
      a list for 0-cells and the empty face has no facets, except that in a
      0-dimensional complex the empty face's coboundary forms a diamond with
      the full face, so a third vertex is refused. */
  lemma AddVertex(C: Complex)
    requires 0 in C.cells && Lower(C, EmptyFace) == []
    requires C.dim > 0 || |Upper(C, EmptyFace)| < 2
    ensures Add(C, []).Success?
    ensures Add(C, []).value.cell.dim == 0
    ensures Lower(Add(C, []).value.complex, Add(C, []).value.cell) == [EmptyFace]
  {
    assert IsCycle(C, []);
    var cell := Cell(0, FreshId(C, []));
    var bdy := [EmptyFace];
    var C1 := Allocate(C, cell, bdy);
    assert Upper(C1, EmptyFace) == Upper(C, EmptyFace);
    var f := AddFacet(C1, cell, EmptyFace, bdy);
    assert f.Success?;
    assert AddIncidences(f.value, cell, bdy, 1) == Success(f.value);
    assert AddIncidences(C1, cell, bdy, 0).Success?;
  }
}
