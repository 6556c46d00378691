/** Stellar subdivision: `SimplicialComplex#add_star` cones a new vertex over
    every face of a simplex (lib/simplicial_complex.rb). */
module Star {
  import opened Wrappers
  import opened Lists
  import opened Cells
  import opened Complex
  import opened Insertion
  import opened InsertionFacts
  import opened Deletion
  import opened Queries
  import opened Piecewise
  import opened Simplices

  /** `cell.faces(i)`, which the simplicial complex calls but does not
      define; taken to be the cell itself when i is its dimension and its
      cells i dimensions lower otherwise (so a vertex's `faces(0)` is the
      vertex). */
  function Faces(C: Complex, s: Cell, i: int): seq<Cell> {
    if i == s.dim then [s] else Down(C, s, s.dim - i)
  }

  /** In a graded complex, `faces(i)` of a cell holds i-cells only. */
  lemma FacesDims(C: Complex, s: Cell, i: int, f: Cell)
    requires Graded(C) && 0 <= i <= s.dim && f in Faces(C, s, i)
    ensures f.dim == i
  {
    if i < s.dim {
      WalkReaches(C, Downward, s, s.dim - i, f);
      DescentDims(C, s, f, s.dim - i);
    }
  }

  /** `Array.new(simplex.dim + 1) { |i| simplex.faces(i).clone }`. */
  function FaceLists(C: Complex, s: Cell): (fl: seq<seq<Cell>>)
    ensures |fl| == if s.dim < 0 then 0 else s.dim + 1
    ensures forall i :: 0 <= i < |fl| ==> fl[i] == Faces(C, s, i)
  {
    if s.dim < 0 then [] else seq(s.dim + 1, i => Faces(C, s, i))
  }

  /** The state of `add_star`'s loops: the complex so far and the hash `h`
      from each coned face to its cone. */
  datatype Coning = Coning(plc: Plc, cones: map<Cell, Cell>)

  /** `cell.down.map { |f| h[f] }`: a face without a cone yet is `nil` in
      Ruby, and the boundary it ends up in is not one `add` can use. */
  function ConeBoundary(h: map<Cell, Cell>, fs: seq<Cell>): (r: Result<seq<Cell>, Error>)
    ensures r.Success? <==> forall f :: f in fs ==> f in h
    ensures r.Failure? ==> r.error == MissingFace
    ensures r.Success? ==> |r.value| == |fs| && forall j :: 0 <= j < |fs| ==> r.value[j] == h[fs[j]]
  {
    if forall f :: f in fs ==> f in h then Success(seq(|fs|, j requires 0 <= j < |fs| => h[fs[j]]))
    else Failure(MissingFace)
  }

  /** `add_star(vertex, simplex)`: records the faces of the simplex; a
      top-dimensional simplex is deleted and its faces are coned up to its
      facets, a lower one is kept and coned up to itself; dimension by
      dimension, every face gets the cell whose boundary is the cones over
      its facets followed by the face itself, starting from the empty face,
      whose cone is the vertex. Only a simplicial complex has `add_star`. */
  function AddStar(P: Plc, vertex: Cell, simplex: Cell): (r: Result<Coning, Error>)
    requires Graded(P.complex)
    ensures r.Failure? ==> r.error in {NotSimplicial, MissingFace, InvalidBoundary, NoBucket, NonManifold}
    ensures r == Failure(NotSimplicial) <==> P.flavour != Simplicial
    ensures r.Success? ==> r.value.plc.flavour == Simplicial == P.flavour && r.value.plc.coords == P.coords
  {
    if P.flavour != Simplicial then Failure(NotSimplicial)
    else
      var C := P.complex;
      ConeLevels(Coning(P.(complex := Pruned(C, simplex)), map[EmptyFace := vertex]),
                 FaceLists(C, simplex), 0, Top(C, simplex))
  }

  /** The complex `add_star` cones in: without the simplex when it is
      top-dimensional. */
  function Pruned(C: Complex, simplex: Cell): Complex
    requires Graded(C)
  {
    if simplex.dim == C.dim then Delete(C, simplex) else C
  }

  /** The highest dimension of faces `add_star` cones: the facets of a
      top-dimensional simplex, otherwise the simplex itself. */
  function Top(C: Complex, simplex: Cell): (top: int)
    ensures top < |FaceLists(C, simplex)|
  {
    if simplex.dim == C.dim then C.dim - 1 else simplex.dim
  }

  /** `for d in 0..dim`: cone the faces of each dimension in turn. */
  function ConeLevels(s: Coning, faces: seq<seq<Cell>>, d: nat, top: int): (r: Result<Coning, Error>)
    requires top < |faces|
    ensures r.Failure? ==> r.error in {MissingFace, InvalidBoundary, NoBucket, NonManifold}
    ensures r.Success? ==> r.value.plc.flavour == s.plc.flavour && r.value.plc.coords == s.plc.coords
    decreases top + 1 - d
  {
    if d > top then Success(s)
    else
      var s1 :- ConeEach(s, faces[d], 0);
      ConeLevels(s1, faces, d + 1, top)
  }

  /** `faces[d].each do |cell| ... end` from position i. */
  function ConeEach(s: Coning, cells: seq<Cell>, i: nat): (r: Result<Coning, Error>)
    requires i <= |cells|
    ensures r.Failure? ==> r.error in {MissingFace, InvalidBoundary, NoBucket, NonManifold}
    ensures r.Success? ==> r.value.plc.flavour == s.plc.flavour && r.value.plc.coords == s.plc.coords
    decreases |cells| - i
  {
    if i == |cells| then Success(s)
    else
      var s1 :- ConeOne(s, cells[i]);
      ConeEach(s1, cells, i + 1)
  }

  /** One face: `boundary = cell.down.map { |f| h[f] } << cell` and
      `h[cell] = add boundary`. */
  function ConeOne(s: Coning, cell: Cell): (r: Result<Coning, Error>)
    ensures r.Failure? ==> r.error in {MissingFace, InvalidBoundary, NoBucket, NonManifold}
    ensures r.Success? ==> r.value.plc.flavour == s.plc.flavour && r.value.plc.coords == s.plc.coords
    ensures r.Success? ==> r.value.cones.Keys == s.cones.Keys + {cell}
  {
    var b :- ConeBoundary(s.cones, Down(s.plc.complex, cell, 1));
    var m :- PlcAdd(s.plc, Boundary(b + [cell]));
    Success(Coning(m.plc, s.cones[cell := m.cell]))
  }
}
