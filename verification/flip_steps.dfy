/** `SimplicialComplex#flip` (lib/simplicial_complex.rb): the cells around a
    facet that see the facet's vertices are flipped out, and the simplex
    over those vertices is rebuilt face by face, reusing every face that
    was already there. */
module FlipSteps {
  import opened Wrappers
  import opened Lists
  import opened Cells
  import opened Complex
  import opened Deletion
  import opened Piecewise
  import opened Simplices
  import opened Star
  import opened StarFacts
  import opened FlipSearch
  import opened FaceIndex

  /** `cells_to_flip_out.each { |c| delete c }` from position i. */
  function DeleteAll(C: Complex, cs: seq<Cell>, i: nat): (r: Complex)
    requires Graded(C) && i <= |cs|
    ensures Graded(r) && Shrinks(C, r)
    decreases |cs| - i
  {
    if i == |cs| then C
    else
      var C1 := Delete(C, cs[i]);
      var r := DeleteAll(C1, cs, i + 1);
      ShrinksTrans(C, C1, r);
      r
  }

  /** The state of the rebuild: the complex so far, the hash `h` from each
      face to the cell coned over it, and `new_simplex`, the cell made or
      found last. */
  datatype Building = Building(plc: Plc, cones: map<Cell, Cell>, newest: Cell)

  /** One face of the round's simplex: `boundary = cell.down.map { |f| h[f] }
      << cell`, then `existing_faces[d][boundary.sort] || add(boundary)`,
      which becomes the face's cone and the newest cell. A face whose
      facets have no cone yet leaves `nil` in the boundary, which Ruby
      cannot sort. */
  function FlipOne(s: Building, ts: seq<Table>, d: nat, cell: Cell): (r: Result<Building, Error>)
    requires d < |ts|
    ensures r.Failure? ==> r.error in {MissingFace, InvalidBoundary, NoBucket, NonManifold}
    ensures r.Success? ==> r.value.plc.flavour == s.plc.flavour && r.value.plc.coords == s.plc.coords
  {
    var b :- ConeBoundary(s.cones, Down(s.plc.complex, cell, 1));
    match Lookup(ts[d], Sort(b + [cell]))
    case Some(e) => Success(Building(s.plc, s.cones[cell := e], e))
    case None => AddCone(s, cell, b + [cell])
  }

  /** `h[cell] = add(boundary)` for a boundary not found among the existing
      faces. */
  function AddCone(s: Building, cell: Cell, boundary: seq<Cell>): (r: Result<Building, Error>)
    requires |boundary| > 0
    ensures r.Failure? ==> r.error in {InvalidBoundary, NoBucket, NonManifold}
    ensures r.Success? ==> r.value.plc.flavour == s.plc.flavour && r.value.plc.coords == s.plc.coords
  {
    var m :- PlcAdd(s.plc, Boundary(boundary));
    Success(Building(m.plc, s.cones[cell := m.cell], m.cell))
  }

  /** `simplex.faces(d).each do |cell| ... end` from position i. */
  function FlipEach(s: Building, ts: seq<Table>, d: nat, cells: seq<Cell>, i: nat): (r: Result<Building, Error>)
    requires d < |ts| && i <= |cells|
    ensures r.Failure? ==> r.error in {MissingFace, InvalidBoundary, NoBucket, NonManifold}
    ensures r.Success? ==> r.value.plc.flavour == s.plc.flavour && r.value.plc.coords == s.plc.coords
    decreases |cells| - i
  {
    if i == |cells| then Success(s)
    else
      var s1 :- FlipOne(s, ts, d, cells[i]);
      FlipEach(s1, ts, d, cells, i + 1)
  }

  /** `for d in 0..dim`: the faces of each dimension of the round's simplex,
      read from the complex as it stands when the dimension is reached. */
  function FlipLevels(s: Building, ts: seq<Table>, simplex: Cell, d: nat, top: int): (r: Result<Building, Error>)
    requires top < |ts|
    ensures r.Failure? ==> r.error in {MissingFace, InvalidBoundary, NoBucket, NonManifold}
    ensures r.Success? ==> r.value.plc.flavour == s.plc.flavour && r.value.plc.coords == s.plc.coords
    decreases top + 1 - d
  {
    if d > top then Success(s)
    else
      var s1 :- FlipEach(s, ts, d, Faces(s.plc.complex, simplex, d), 0);
      FlipLevels(s1, ts, simplex, d + 1, top)
  }

  /** The highest dimension a round cones: the simplex's own, except that
      no (n+1)-cell is attempted. */
  function RoundTop(n: nat, simplex: Cell): (top: int)
    ensures top <= simplex.dim && top < n
  {
    if simplex.dim < n then simplex.dim else n - 1
  }

  /** The cone hash a round starts from: the empty face coned to the
      round's vertex `all_vertices[i+1]`, or to `nil` past the end of the
      list, which no boundary can use. */
  function StartCones(av: seq<Cell>, i: nat): (h: map<Cell, Cell>)
    ensures h.Keys <= {EmptyFace}
    ensures i + 1 < |av| <==> EmptyFace in h
    ensures i + 1 < |av| ==> h[EmptyFace] == av[i + 1]
  {
    if i + 1 < |av| then map[EmptyFace := av[i + 1]] else map[]
  }

  /** `for i in 0..@dim`: each round cones the next vertex over the newest
      simplex, from round i. */
  function FlipRounds(n: nat, s: Building, ts: seq<Table>, av: seq<Cell>, i: nat): (r: Result<Building, Error>)
    requires |ts| == n + 1
    ensures r.Failure? ==> r.error in {MissingFace, InvalidBoundary, NoBucket, NonManifold}
    ensures r.Success? ==> r.value.plc.flavour == s.plc.flavour && r.value.plc.coords == s.plc.coords
    decreases n + 1 - i
  {
    if i > n then Success(s)
    else
      var simplex := s.newest;
      var s1 :- FlipLevels(Building(s.plc, StartCones(av, i), simplex), ts, simplex, 0, RoundTop(n, simplex));
      FlipRounds(n, s1, ts, av, i + 1)
  }

  /** `existing_faces[i].each { |k, v| delete v if @upper[v].empty? }` from
      position j: a filed face left without cofaces is deleted. */
  function CleanTable(C: Complex, tb: Table, j: nat): (r: Complex)
    requires Graded(C) && j <= |tb|
    ensures Graded(r) && Shrinks(C, r)
    decreases |tb| - j
  {
    if j == |tb| then C
    else
      var v := tb[j].face;
      var C1 := if Upper(C, v) == [] then Delete(C, v) else C;
      var r := CleanTable(C1, tb, j + 1);
      ShrinksTrans(C, C1, r);
      r
  }

  /** The cleanup loop `(0..@dim).each do |d|` from stage d on: the tables
      from index `@dim - d` down to 0. */
  function Cleanup(C: Complex, ts: seq<Table>, d: nat): (r: Complex)
    requires Graded(C) && |ts| == C.dim + 1
    ensures Graded(r) && r.dim == C.dim && r.lower == C.lower
    decreases |ts| - d
  {
    if d >= |ts| then C
    else Cleanup(CleanLevel(C, ts, d), ts, d + 1)
  }

  /** Stage d of the cleanup: the table at index `@dim - d`. */
  function CleanLevel(C: Complex, ts: seq<Table>, d: nat): (r: Complex)
    requires Graded(C) && |ts| == C.dim + 1 && d < |ts|
    ensures Graded(r) && Shrinks(C, r)
  {
    CleanTable(C, ts[C.dim - d], 0)
  }
}
