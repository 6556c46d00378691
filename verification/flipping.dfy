/** `SimplicialComplex#flip` as a whole (lib/simplicial_complex.rb): find
    the cells to flip out, file the faces below them under their sorted
    boundaries, delete the flipped-out cells, rebuild the simplex over
    the collected vertices round by round, and delete every filed face
    left without a coface. */
module Flipping {
  import opened Wrappers
  import opened Lists
  import opened Cells
  import opened Complex
  import opened Deletion
  import opened Piecewise
  import opened Simplices
  import opened Star
  import opened StarFacts
  import opened TupleQuery
  import opened FlipSearch
  import opened FaceIndex
  import opened FlipSteps
  import opened FlipFacts

  /** The cells of `out` are top-dimensional, in membership form. */
  lemma TopMembers(C: Complex, out: seq<Cell>)
    requires AllTop(C, out)
    ensures forall c :: c in out ==> c.dim == C.dim
  {
    forall c | c in out ensures c.dim == C.dim {
      var j :| 0 <= j < |out| && out[j] == c;
    }
  }

  /** Filing the faces of top-dimensional cells puts (i+1)-cells in table
      i, so no table holds a cell above the top dimension, and the last
      table stays empty. */
  lemma IndexDims(C: Complex, out: seq<Cell>, f: Filing)
    requires Graded(C) && AllTop(C, out)
    ensures |Index(C, out, f)| == C.dim + 1 && TablesDims(Index(C, out, f), C.dim)
  {
    var ts: seq<Table> := Index(C, out, f);
    IndexFacts(C, out, f);
    TopMembers(C, out);
    forall i: int, j: int | 0 <= i < |ts| && 0 <= j < |ts[i]| ensures ts[i][j].face.dim == i + 1 && i + 1 <= C.dim {
      assert TableIndexed(C, out, ts[i], i, f);
      var e := ts[i][j].face;
      assert FaceOf(C, out, e, C.dim - 1 - i, f);
      FaceOfDim(C, out, e, i, f);
    }
  }

  /** `all_vertices` holds 0-cells only. */
  lemma AllVerticesDims(C: Complex, facet: Cell)
    requires Graded(C)
    ensures forall v :: v in AllVertices(C, facet) ==> v.dim == 0
  {
    forall v | v in AllVertices(C, facet) ensures v.dim == 0 {
      var s :| s in Up(C, facet, 1) && v in Vertices(C, s);
      VerticesAreVertices(C, s, v);
    }
  }

  /** One table per dimension 0..n. */
  lemma IndexLength(C: Complex, out: seq<Cell>, f: Filing)
    ensures |Index(C, out, f)| == C.dim + 1
  {
    IndexFacts(C, out, f);
  }

  /** The rebuild rounds of `flip`, run on the complex after the deletions
      and starting from `new_simplex = all_vertices[0]`, with the faces
      filed as written or as intended: on success the complex is sound
      again and of the same dimension. */
  function Rounds(P: Plc, av: seq<Cell>, out: seq<Cell>, f: Filing): (r: Result<Building, Error>)
    requires Sound(P.complex) && AllTop(P.complex, out) && |av| > 0
    requires forall v :: v in av ==> v.dim == 0
    ensures r.Failure? ==> r.error in {MissingFace, InvalidBoundary, NoBucket, NonManifold}
    ensures r.Success? ==> Valid(r.value, P.complex.dim)
    ensures r.Success? ==> r.value.plc.flavour == P.flavour && r.value.plc.coords == P.coords
  {
    var C := P.complex;
    var ts := Index(C, out, f);
    IndexDims(C, out, f);
    var s0 := Building(P.(complex := DeleteAll(C, out, 0)), map[], av[0]);
    assert Valid(s0, C.dim);
    FlipRoundsValid(C.dim, s0, ts, av, 0);
    FlipRounds(C.dim, s0, ts, av, 0)
  }

  /** The cleanup keeps the complex sound: it never touches boundary
      lists, so the full face still has none. */
  lemma CleanupSound(C: Complex, ts: seq<Table>)
    requires Sound(C) && |ts| == C.dim + 1
    ensures Sound(Cleanup(C, ts, 0)) && Cleanup(C, ts, 0).dim == C.dim
  {
    var r := Cleanup(C, ts, 0);
    assert FullFace(r) == FullFace(C);
  }

  /** Everything `flip` does once the cells to flip out are known: file
      their faces, delete them, rebuild, clean up. With no vertex to start
      from, Ruby calls `dim` on `nil`. */
  function Rebuild(P: Plc, av: seq<Cell>, out: seq<Cell>, f: Filing): (r: Result<Plc, Error>)
    requires Sound(P.complex) && AllTop(P.complex, out)
    requires forall v :: v in av ==> v.dim == 0
    ensures r.Failure? ==> r.error in {MissingFace, InvalidBoundary, NoBucket, NonManifold}
    ensures av == [] ==> r == Failure(MissingFace)
    ensures r.Success? ==> Sound(r.value.complex) && r.value.complex.dim == P.complex.dim
    ensures r.Success? ==> r.value.flavour == P.flavour && r.value.coords == P.coords
  {
    if |av| == 0 then Failure(MissingFace)
    else
      match Rounds(P, av, out, f)
      case Failure(e) => Failure(e)
      case Success(s) =>
        var ts := Index(P.complex, out, f);
        IndexLength(P.complex, out, f);
        CleanupSound(s.plc.complex, ts);
        Success(s.plc.(complex := Cleanup(s.plc.complex, ts, 0)))
  }

  /** `flip(facet)`, with the faces filed as written (`AsWritten`) or as
      intended. Only a simplicial complex has `flip`, and `all_vertices`
      needs every cell above the facet to be a Simplex. The model returns
      the complex after the flip rather than changing it in place. */
  function Flip(P: Plc, facet: Cell, f: Filing): (r: Result<Plc, Error>)
    requires Sound(P.complex) && SwitchDims(P.complex)
    ensures r.Failure? ==>
      r.error in {NotSimplicial, NoVertices, NoVertex, BadTuple, NoTuple, MissingFace, InvalidBoundary, NoBucket, NonManifold}
    ensures r == Failure(NotSimplicial) <==> P.flavour != Simplicial
    ensures P.flavour == Simplicial ==>
      (r == Failure(NoVertices) <==> exists s :: s in Up(P.complex, facet, 1) && KindOf(P, s) != SimplexKind)
    ensures P.flavour == Simplicial && (forall s :: s in Up(P.complex, facet, 1) ==> KindOf(P, s) == SimplexKind) ==>
      (Tuple(P.complex, [facet]) == Success(None) ==> r == Failure(NoTuple))
    ensures r.Success? ==> Sound(r.value.complex) && r.value.complex.dim == P.complex.dim
    ensures r.Success? ==> r.value.flavour == Simplicial == P.flavour && r.value.coords == P.coords
  {
    if P.flavour != Simplicial then Failure(NotSimplicial)
    else
      match CofaceVertices(P, facet)
      case Failure(e) => Failure(e)
      case Success(av) => FlipWith(P, facet, av, f)
  }

  /** The rest of `flip` once `all_vertices` is known: the search for the
      cells to flip out, then the rebuild. */
  function FlipWith(P: Plc, facet: Cell, av: seq<Cell>, f: Filing): (r: Result<Plc, Error>)
    requires Sound(P.complex) && SwitchDims(P.complex) && av == AllVertices(P.complex, facet)
    ensures r.Failure? ==> r.error in {NoVertex, BadTuple, NoTuple, MissingFace, InvalidBoundary, NoBucket, NonManifold}
    ensures Tuple(P.complex, [facet]) == Success(None) ==> r == Failure(NoTuple)
    ensures r.Success? ==> Sound(r.value.complex) && r.value.complex.dim == P.complex.dim
    ensures r.Success? ==> r.value.flavour == P.flavour && r.value.coords == P.coords
  {
    var C := P.complex;
    match CellsToFlipOut(C, facet, av)
    case Failure(e) => Failure(e)
    case Success(out) =>
      FlipOutTop(C, facet, av);
      AllVerticesDims(C, facet);
      Rebuild(P, av, out, f)
  }

  /** After a successful rebuild every filed face is either gone or has a
      coface: the cleanup deletes exactly the filed faces it finds bare. */
  lemma RebuildSettles(P: Plc, av: seq<Cell>, out: seq<Cell>, f: Filing, i: nat, m: nat)
    requires Sound(P.complex) && AllTop(P.complex, out)
    requires forall v :: v in av ==> v.dim == 0
    requires i < |Index(P.complex, out, f)| && m < |Index(P.complex, out, f)[i]|
    ensures Rebuild(P, av, out, f).Success? ==>
      Settled(Rebuild(P, av, out, f).value.complex, Index(P.complex, out, f)[i][m].face)
  {
    if |av| > 0 && Rounds(P, av, out, f).Success? {
      var ts := Index(P.complex, out, f);
      IndexDims(P.complex, out, f);
      var E := Rounds(P, av, out, f).value.plc.complex;
      assert Cleanable(E, ts);
      CleanupSettles(E, ts, 0, i, m);
    }
  }

  /** Every face `flip` filed ends either deleted or under some cell. */
  lemma FlipSettles(P: Plc, facet: Cell, f: Filing, i: nat, m: nat)
    requires Sound(P.complex) && SwitchDims(P.complex)
    requires CellsToFlipOut(P.complex, facet, AllVertices(P.complex, facet)).Success?
    requires var out := CellsToFlipOut(P.complex, facet, AllVertices(P.complex, facet)).value;
      i < |Index(P.complex, out, f)| && m < |Index(P.complex, out, f)[i]|
    ensures var out := CellsToFlipOut(P.complex, facet, AllVertices(P.complex, facet)).value;
      Flip(P, facet, f).Success? ==> Settled(Flip(P, facet, f).value.complex, Index(P.complex, out, f)[i][m].face)
  {
    var av := AllVertices(P.complex, facet);
    if Flip(P, facet, f).Success? {
      assert Flip(P, facet, f) == FlipWith(P, facet, av, f);
      FlipWithSettles(P, facet, av, f, i, m);
    }
  }

  /** `FlipSettles` once `all_vertices` is known. */
  lemma FlipWithSettles(P: Plc, facet: Cell, av: seq<Cell>, f: Filing, i: nat, m: nat)
    requires Sound(P.complex) && SwitchDims(P.complex) && av == AllVertices(P.complex, facet)
    requires CellsToFlipOut(P.complex, facet, av).Success?
    requires var out := CellsToFlipOut(P.complex, facet, av).value;
      i < |Index(P.complex, out, f)| && m < |Index(P.complex, out, f)[i]|
    ensures var out := CellsToFlipOut(P.complex, facet, av).value;
      FlipWith(P, facet, av, f).Success? ==>
        Settled(FlipWith(P, facet, av, f).value.complex, Index(P.complex, out, f)[i][m].face)
  {
    var C := P.complex;
    var out := CellsToFlipOut(C, facet, av).value;
    FlipOutTop(C, facet, av);
    AllVerticesDims(C, facet);
    RebuildSettles(P, av, out, f, i, m);
  }

  /** As written, the last round's top level never finds a face: every
      top-dimensional cone is added as a fresh cell, even one whose boundary
      is that of a flipped-out cell, which the rebuild thereby puts back. */
  lemma TopConesAddedAsWritten(s: Building, C: Complex, out: seq<Cell>, cell: Cell)
    requires C.dim >= 1
    ensures var r := FlipOne(s, Index(C, out, AsWritten), C.dim - 1, cell);
      r.Success? ==> r.value.plc != s.plc && s.plc.complex.nextId <= r.value.newest.id
  {
    var ts := Index(C, out, AsWritten);
    TopTableEmpty(C, out);
    IndexedOnly(C, out, AsWritten);
    var r := FlipOne(s, ts, C.dim - 1, cell);
    if r.Success? {
      FlipOneReuses(s, ts, C.dim - 1, cell, C, out, AsWritten);
      var b := ConeBoundary(s.cones, Down(s.plc.complex, cell, 1)).value;
      assert Lookup(ts[C.dim - 1], Sort(b + [cell])).None?;
    }
  }

  /** The half of `IndexFacts` the reuse lemma needs. */
  lemma IndexedOnly(C: Complex, out: seq<Cell>, f: Filing)
    ensures |Index(C, out, f)| == C.dim + 1 && Indexed(C, out, Index(C, out, f), f)
  {
    IndexFacts(C, out, f);
  }

  /** As intended, a top-dimensional cone with the sorted boundary of a
      flipped-out cell is not added again: the cell filed under that
      boundary, itself flipped out, is taken instead and the complex is left
      as it is. */
  lemma TopConesReusedIntended(s: Building, C: Complex, out: seq<Cell>, cell: Cell, c: Cell, b: seq<Cell>)
    requires C.dim >= 1 && c in out
    requires ConeBoundary(s.cones, Down(s.plc.complex, cell, 1)) == Success(b)
    requires Sort(b + [cell]) == Sort(Down(C, c, 1))
    ensures var r := FlipOne(s, Index(C, out, Intended), C.dim - 1, cell);
      && r.Success? && r.value.plc == s.plc && r.value.newest in out
      && Sort(Down(C, r.value.newest, 1)) == Sort(Down(C, c, 1))
  {
    var ts := Index(C, out, Intended);
    var key := Sort(Down(C, c, 1));
    TopTableFilesOut(C, out, c, key, c);
    var e := Lookup(ts[C.dim - 1], key).value;
    TopTableFilesOut(C, out, c, key, e);
    assert FlipOne(s, ts, C.dim - 1, cell) == Success(Building(s.plc, s.cones[cell := e], e));
  }
}
