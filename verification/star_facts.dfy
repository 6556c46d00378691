/** What `add_star` does to the cell lists: the deleted top simplex leaves
    its list, and every coned face adds exactly one cell one dimension up
    (lib/simplicial_complex.rb). */
module StarFacts {
  import opened Wrappers
  import opened Lists
  import opened Cells
  import opened Complex
  import opened Insertion
  import opened InsertionFacts
  import opened Deletion
  import opened Piecewise
  import opened Star

  /** Each cone sits one dimension above the face it cones. */
  ghost predicate ConesGraded(h: map<Cell, Cell>) {
    forall x :: x in h ==> h[x].dim == x.dim + 1
  }

  /** The complex invariants `add_star` keeps: graded, and nothing below the
      full face. */
  ghost predicate Sound(C: Complex) {
    Graded(C) && Lower(C, FullFace(C)) == []
  }

  /** The boundary built for a face is uniform: the cones over its facets
      and the face itself all have the face's dimension. */
  lemma ConeBoundaryUniform(fs: seq<Cell>, h: map<Cell, Cell>, cell: Cell, b: seq<Cell>)
    requires ConesGraded(h) && forall f :: f in fs ==> f.dim == cell.dim - 1
    requires ConeBoundary(h, fs) == Success(b)
    ensures Uniform(b + [cell]) && NewDim(b + [cell]) == cell.dim + 1
  {
    var bdy := b + [cell];
    forall x | x in bdy ensures x.dim == cell.dim {
      if x in b {
        var j :| 0 <= j < |b| && b[j] == x;
        assert fs[j] in fs;
      }
    }
    assert bdy[0] in bdy;
  }

  /** In a graded complex the facets of a cell sit one dimension below it. */
  lemma FacetDims(C: Complex, cell: Cell)
    requires Graded(C)
    ensures forall f :: f in Down(C, cell, 1) ==> f.dim == cell.dim - 1
  {
  }

  /** `D` and `h2` arise from `C` and `h` by coning `cell`: `D` is sound,
      the cone is recorded for the cell one dimension up and appended to
      that dimension's list, and no other list changes. */
  ghost predicate ConeStep(C: Complex, h: map<Cell, Cell>, cell: Cell, D: Complex, h2: map<Cell, Cell>) {
    && Sound(D) && D.dim == C.dim && ConesGraded(h2)
    && cell in h2
    && Bucket(D, cell.dim + 1) == Bucket(C, cell.dim + 1) + [h2[cell]]
    && (forall e :: e != cell.dim + 1 ==> Bucket(D, e) == Bucket(C, e))
  }

  /** One face coned: the complex stays sound, the cone is appended to the
      list one dimension above the face, and no other list changes. */
  lemma ConeOneFacts(s: Coning, cell: Cell)
    requires Sound(s.plc.complex) && ConesGraded(s.cones)
    ensures var r := ConeOne(s, cell);
      r.Success? ==> ConeStep(s.plc.complex, s.cones, cell, r.value.plc.complex, r.value.cones)
  {
    if ConeOne(s, cell).Success? {
      var b, a := ConeOneParts(s, cell);
      ConeOneAdded(s.plc.complex, s.cones, cell, b, a);
    }
  }

  /** A successful `ConeOne` is the boundary lookup followed by `add`. */
  lemma ConeOneParts(s: Coning, cell: Cell) returns (b: seq<Cell>, a: Added)
    requires ConeOne(s, cell).Success?
    ensures ConeBoundary(s.cones, Down(s.plc.complex, cell, 1)) == Success(b)
    ensures Add(s.plc.complex, b + [cell]) == Success(a)
    ensures ConeOne(s, cell).value.plc.complex == a.complex
    ensures ConeOne(s, cell).value.cones == s.cones[cell := a.cell]
  {
    b := ConeBoundary(s.cones, Down(s.plc.complex, cell, 1)).value;
    var m := PlcAdd(s.plc, Boundary(b + [cell])).value;
    a := Added(m.plc.complex, m.cell);
  }

  /** The cell `add` makes from a face's cone boundary. */
  lemma ConeOneAdded(C: Complex, h: map<Cell, Cell>, cell: Cell, b: seq<Cell>, a: Added)
    requires Sound(C) && ConesGraded(h)
    requires ConeBoundary(h, Down(C, cell, 1)) == Success(b)
    requires Add(C, b + [cell]) == Success(a)
    ensures ConeStep(C, h, cell, a.complex, h[cell := a.cell])
  {
    FacetDims(C, cell);
    ConeBoundaryUniform(Down(C, cell, 1), h, cell, b);
    AddGraded(C, b + [cell]);
    ConeStepFrom(C, h, cell, a.complex, a.cell);
  }

  lemma ConeStepFrom(C: Complex, h: map<Cell, Cell>, cell: Cell, D: Complex, c: Cell)
    requires Sound(D) && D.dim == C.dim && ConesGraded(h) && c.dim == cell.dim + 1
    requires Bucket(D, c.dim) == Bucket(C, c.dim) + [c]
    requires forall e :: e != c.dim ==> Bucket(D, e) == Bucket(C, e)
    ensures ConeStep(C, h, cell, D, h[cell := c])
  {
  }

  /** `D` arises from the sound complex `C` by appending k cells to the
      list for dimension e and changing no other list, and is sound. */
  ghost predicate Grew(C: Complex, D: Complex, e: int, k: int) {
    && Sound(D) && D.dim == C.dim
    && |Bucket(D, e)| == |Bucket(C, e)| + k
    && (forall e' :: e' != e ==> Bucket(D, e') == Bucket(C, e'))
  }

  lemma GrewTrans(A: Complex, B: Complex, D: Complex, e: int, k1: int, k2: int)
    requires Grew(A, B, e, k1) && Grew(B, D, e, k2)
    ensures Grew(A, D, e, k1 + k2)
  {
  }

  lemma GrewNothing(C: Complex, e: int)
    requires Sound(C)
    ensures Grew(C, C, e, 0)
  {
  }

  /** One coning step is growth by one cell. */
  lemma StepGrew(C: Complex, h: map<Cell, Cell>, cell: Cell, D: Complex, h2: map<Cell, Cell>)
    requires ConeStep(C, h, cell, D, h2)
    ensures Grew(C, D, cell.dim + 1, 1) && ConesGraded(h2)
  {
  }

  /** The faces of one dimension d coned from position i: the list for
      d + 1 grows by one cell per remaining face, the others stay. */
  lemma {:induction false} ConeEachFacts(s: Coning, cells: seq<Cell>, i: nat, d: int)
    requires i <= |cells| && Sound(s.plc.complex) && ConesGraded(s.cones)
    requires forall c :: c in cells ==> c.dim == d
    ensures var r := ConeEach(s, cells, i);
      r.Success? ==> Grew(s.plc.complex, r.value.plc.complex, d + 1, |cells| - i) && ConesGraded(r.value.cones)
    decreases |cells| - i
  {
    if i == |cells| {
      GrewNothing(s.plc.complex, d + 1);
    } else {
      var c := cells[i];
      assert c in cells;
      var r1 := ConeOne(s, c);
      ConeOneFacts(s, c);
      if r1.Success? {
        var C1 := r1.value.plc.complex;
        StepGrew(s.plc.complex, s.cones, c, C1, r1.value.cones);
        ConeEachFacts(r1.value, cells, i + 1, d);
        var r := ConeEach(s, cells, i);
        ConeEachUnfold(s, cells, i);
        if r.Success? {
          GrewTrans(s.plc.complex, C1, r.value.plc.complex, d + 1, 1, |cells| - i - 1);
        }
      }
    }
  }

  /** `each` from position i: the face there is coned first, then the rest. */
  lemma ConeEachUnfold(s: Coning, cells: seq<Cell>, i: nat)
    requires i < |cells|
    ensures ConeOne(s, cells[i]).Success? ==>
      ConeEach(s, cells, i) == ConeEach(ConeOne(s, cells[i]).value, cells, i + 1)
  {
  }

  /** `D` arises from the sound complex `C` by coning the faces of
      dimensions d..top: the list for e + 1 grew by the number of e-faces,
      lists outside d+1..top+1 are unchanged, and `D` is sound. */
  ghost predicate Layered(C: Complex, D: Complex, faces: seq<seq<Cell>>, d: nat, top: int)
    requires top < |faces|
  {
    && Sound(D) && D.dim == C.dim
    && (forall e :: d <= e <= top ==> |Bucket(D, e + 1)| == |Bucket(C, e + 1)| + |faces[e]|)
    && (forall e :: (e < d + 1 || e > top + 1) ==> Bucket(D, e) == Bucket(C, e))
  }

  /** One more level in front of the ones already coned. */
  lemma LayeredCons(C: Complex, C1: Complex, D: Complex, faces: seq<seq<Cell>>, d: nat, top: int)
    requires d <= top < |faces|
    requires Grew(C, C1, d + 1, |faces[d]|) && Layered(C1, D, faces, d + 1, top)
    ensures Layered(C, D, faces, d, top)
  {
    forall e | d <= e <= top ensures |Bucket(D, e + 1)| == |Bucket(C, e + 1)| + |faces[e]| {
      if e > d {
        assert Bucket(C1, e + 1) == Bucket(C, e + 1);
      } else {
        assert Bucket(D, e + 1) == Bucket(C1, e + 1);
      }
    }
  }

  /** The dimensions d..top coned: the list for e + 1 grows by the number
      of e-faces for every e in d..top. */
  lemma {:induction false} ConeLevelsFacts(s: Coning, faces: seq<seq<Cell>>, d: nat, top: int)
    requires top < |faces| && Sound(s.plc.complex) && ConesGraded(s.cones)
    requires forall e, c :: d <= e <= top && c in faces[e] ==> c.dim == e
    ensures var r := ConeLevels(s, faces, d, top);
      r.Success? ==> Layered(s.plc.complex, r.value.plc.complex, faces, d, top)
    decreases top + 1 - d
  {
    var C := s.plc.complex;
    if d > top {
      assert Layered(C, C, faces, d, top);
    } else {
      var r1 := ConeEach(s, faces[d], 0);
      ConeEachFacts(s, faces[d], 0, d);
      if r1.Success? {
        ConeLevelsFacts(r1.value, faces, d + 1, top);
        var r := ConeLevels(s, faces, d, top);
        assert r == ConeLevels(r1.value, faces, d + 1, top);
        if r.Success? {
          LayeredCons(C, r1.value.plc.complex, r.value.plc.complex, faces, d, top);
        }
      }
    }
  }

  /** Deleting cofaces that are all the full face does nothing. */
  lemma {:induction false} DeleteEachFull(C: Complex, s: Cell, kids: seq<Cell>, i: nat)
    requires Graded(C) && i <= |kids| && s.dim == C.dim
    requires forall k :: k in kids ==> k == FullFace(C) && k.dim == s.dim + 1 && k.dim <= C.dim + 1
    ensures DeleteEach(C, s, kids, i) == C
    decreases |kids| - i
  {
    if i < |kids| {
      var k := kids[i];
      assert k in kids;
      var C1 := Delete(C, k);
      assert C1 == C;
      DeleteEachFull(C1, s, kids, i + 1);
    }
  }

  /** A top-dimensional cell's deletion is its removal alone. */
  lemma DeleteTopCells(C: Complex, s: Cell)
    requires Sound(C) && s.dim == C.dim
    ensures Delete(C, s).cells == Unlist(C.cells, s)
  {
    var kids := Upper(C, s);
    assert forall k :: k in kids ==> k == FullFace(C) && k.dim == s.dim + 1 && k.dim <= C.dim + 1;
    DeleteEachFull(C, s, kids, 0);
    assert Delete(C, s) == Remove(C, s);
    var C2 := Detach(C, s, Lower(C, s));
    assert Remove(C, s) == Drop(C2, s);
  }

  /** Deleting a top-dimensional cell removes it from the top list and
      changes no other list: its only coface can be the full face. */
  lemma DeleteTop(C: Complex, s: Cell)
    requires Sound(C) && s.dim == C.dim
    ensures Sound(Delete(C, s))
    ensures Bucket(Delete(C, s), C.dim) == RemoveAll(Bucket(C, C.dim), s)
    ensures forall e :: e != C.dim ==> Bucket(Delete(C, s), e) == Bucket(C, e)
  {
    var D := Delete(C, s);
    assert Graded(D) && Shrinks(C, D);
    assert Lower(D, FullFace(D)) == Lower(C, FullFace(C));
    DeleteTopCells(C, s);
    UnlistBuckets(C, D, s);
  }

  /** Buckets of a complex whose lists are those of another minus one cell. */
  lemma UnlistBuckets(C: Complex, D: Complex, s: Cell)
    requires D.cells == Unlist(C.cells, s)
    ensures Bucket(D, s.dim) == RemoveAll(Bucket(C, s.dim), s)
    ensures forall e :: e != s.dim ==> Bucket(D, e) == Bucket(C, e)
  {
  }

  /** `add_star` cones the faces of every dimension 0..top onto the pruned
      complex, level by level. */
  lemma StarLayered(P: Plc, vertex: Cell, simplex: Cell)
    requires Sound(P.complex) && vertex.dim == 0
    ensures Sound(Pruned(P.complex, simplex))
    ensures var r := AddStar(P, vertex, simplex);
      r.Success? ==> Layered(Pruned(P.complex, simplex), r.value.plc.complex,
                             FaceLists(P.complex, simplex), 0, Top(P.complex, simplex))
  {
    var C := P.complex;
    PrunedSound(C, simplex);
    FaceListsDims(C, simplex);
    var h := map[EmptyFace := vertex];
    assert ConesGraded(h);
    ConeLevelsFacts(Coning(P.(complex := Pruned(C, simplex)), h), FaceLists(C, simplex), 0, Top(C, simplex));
  }

  /** Deleting the simplex, if it is top-dimensional, keeps the complex
      sound. */
  lemma PrunedSound(C: Complex, simplex: Cell)
    requires Sound(C)
    ensures Sound(Pruned(C, simplex))
  {
    if simplex.dim == C.dim {
      DeleteTop(C, simplex);
    }
  }

  /** The face lists up to the top coned dimension hold cells of their own
      dimension. */
  lemma FaceListsDims(C: Complex, simplex: Cell)
    requires Graded(C)
    ensures var faces := FaceLists(C, simplex);
      forall e, c :: 0 <= e <= Top(C, simplex) && c in faces[e] ==> c.dim == e
  {
    var faces := FaceLists(C, simplex);
    forall e: int, c: Cell | 0 <= e <= Top(C, simplex) && c in faces[e] ensures c.dim == e {
      FacesDims(C, simplex, e, c);
    }
  }

  /** `add_star(vertex, simplex)` with a vertex, in a sound complex: the
      result is sound; for a top-dimensional simplex (n >= 1) the top list
      loses the simplex and gains one cell per facet; for a lower simplex
      the list of each dimension d + 1 <= simplex.dim + 1 gains one cell per
      d-face, in particular exactly one cell of dimension simplex.dim + 1. */
  lemma StarCounts(P: Plc, vertex: Cell, simplex: Cell)
    requires Sound(P.complex) && vertex.dim == 0
    ensures var r, C := AddStar(P, vertex, simplex), P.complex;
      r.Success? ==>
        var D := r.value.plc.complex;
        && Sound(D)
        && (simplex.dim == C.dim >= 1 ==>
              |Bucket(D, C.dim)| == |Bucket(C, C.dim)| - multiset(Bucket(C, C.dim))[simplex]
                                    + |Faces(C, simplex, C.dim - 1)|)
        && (0 <= simplex.dim < C.dim ==>
              && (forall d :: 0 <= d <= simplex.dim ==>
                    |Bucket(D, d + 1)| == |Bucket(C, d + 1)| + |Faces(C, simplex, d)|)
              && |Bucket(D, simplex.dim + 1)| == |Bucket(C, simplex.dim + 1)| + 1)
  {
    StarLayered(P, vertex, simplex);
    if simplex.dim == P.complex.dim >= 1 {
      StarCountsTop(P, vertex, simplex);
    } else if 0 <= simplex.dim < P.complex.dim {
      StarCountsLow(P, vertex, simplex);
    }
  }

  /** The lower-dimensional case of `StarCounts`. */
  lemma StarCountsLow(P: Plc, vertex: Cell, simplex: Cell)
    requires Sound(P.complex) && vertex.dim == 0 && 0 <= simplex.dim < P.complex.dim
    ensures var r, C := AddStar(P, vertex, simplex), P.complex;
      r.Success? ==>
        && (forall d :: 0 <= d <= simplex.dim ==>
              |Bucket(r.value.plc.complex, d + 1)| == |Bucket(C, d + 1)| + |Faces(C, simplex, d)|)
        && |Bucket(r.value.plc.complex, simplex.dim + 1)| == |Bucket(C, simplex.dim + 1)| + 1
  {
    var C := P.complex;
    StarLayered(P, vertex, simplex);
    var r := AddStar(P, vertex, simplex);
    if r.Success? {
      assert Pruned(C, simplex) == C && Top(C, simplex) == simplex.dim;
      LowCount(C, r.value.plc.complex, simplex);
    }
  }

  /** Coning the faces of a simplex that stays: each dimension d + 1 gains
      one cell per d-face, and the simplex itself gets one cone. */
  lemma LowCount(C: Complex, D: Complex, simplex: Cell)
    requires 0 <= simplex.dim < C.dim
    requires Layered(C, D, FaceLists(C, simplex), 0, simplex.dim)
    ensures forall d :: 0 <= d <= simplex.dim ==> |Bucket(D, d + 1)| == |Bucket(C, d + 1)| + |Faces(C, simplex, d)|
    ensures |Bucket(D, simplex.dim + 1)| == |Bucket(C, simplex.dim + 1)| + 1
  {
    var faces := FaceLists(C, simplex);
    LayeredCounts(C, D, faces, simplex.dim);
    assert faces[simplex.dim] == [simplex];
  }

  lemma LayeredCounts(C: Complex, D: Complex, faces: seq<seq<Cell>>, top: int)
    requires top < |faces| && Layered(C, D, faces, 0, top)
    ensures forall e :: 0 <= e <= top ==> |Bucket(D, e + 1)| == |Bucket(C, e + 1)| + |faces[e]|
  {
  }

  /** The top-dimensional case of `StarCounts`. */
  lemma StarCountsTop(P: Plc, vertex: Cell, simplex: Cell)
    requires Sound(P.complex) && vertex.dim == 0 && simplex.dim == P.complex.dim >= 1
    ensures var r, C := AddStar(P, vertex, simplex), P.complex;
      r.Success? ==>
        |Bucket(r.value.plc.complex, C.dim)|
          == |Bucket(C, C.dim)| - multiset(Bucket(C, C.dim))[simplex] + |Faces(C, simplex, C.dim - 1)|
  {
    var C := P.complex;
    StarLayered(P, vertex, simplex);
    var r := AddStar(P, vertex, simplex);
    if r.Success? {
      TopCount(C, r.value.plc.complex, simplex);
    }
  }

  /** Coning the facets of a deleted top cell onto what is left. */
  lemma TopCount(C: Complex, D: Complex, s: Cell)
    requires Sound(C) && s.dim == C.dim >= 1
    requires Layered(Pruned(C, s), D, FaceLists(C, s), 0, Top(C, s))
    ensures |Bucket(D, C.dim)| == |Bucket(C, C.dim)| - multiset(Bucket(C, C.dim))[s] + |Faces(C, s, C.dim - 1)|
  {
    DeleteTop(C, s);
    RemoveAllCount(Bucket(C, C.dim), s);
    LayeredCounts(Delete(C, s), D, FaceLists(C, s), C.dim - 1);
  }

  lemma RemoveAllCount(s: seq<Cell>, x: Cell)
    ensures |RemoveAll(s, x)| == |s| - multiset(s)[x]
  {
    assert |RemoveAll(s, x)| == |multiset(RemoveAll(s, x))|;
  }
}
