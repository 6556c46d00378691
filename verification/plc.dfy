/** The piecewise-linear layer: vertices carry coordinates, `add` accepts
    either a coordinate list or a boundary, and every cell has a head and a
    tail (lib/piecewise_linear_complex.rb), together with the kind of object
    `new_cell` creates in it and in a simplicial complex
    (lib/simplicial_complex.rb). */
module Piecewise {
  import opened Wrappers
  import opened Lists
  import opened Cells
  import opened Complex
  import opened Insertion
  import opened InsertionFacts

  /** A point: the coordinate list of a vertex. */
  type Point = seq<int>

  /** The classes `new_cell` instantiates. */
  datatype Kind = VertexKind | SimplexKind | PlainKind

  /** Which subclass of the cell complex is in use. */
  datatype Flavour = PiecewiseLinear | Simplicial

  /** `new_cell(dim)`: a piecewise-linear complex makes a Vertex for
      dimension 0 and a plain Cell otherwise; a simplicial complex of
      dimension n makes a Vertex for 0, a Simplex for n and defers to the
      piecewise-linear choice for the rest. */
  function NewCellKind(fl: Flavour, n: int, d: int): (k: Kind)
    ensures k == VertexKind <==> d == 0
    ensures k == SimplexKind <==> fl == Simplicial && d == n && d != 0
    ensures k == PlainKind <==> d != 0 && (fl == PiecewiseLinear || d != n)
    decreases if fl == Simplicial then 1 else 0
  {
    match fl
    case PiecewiseLinear => if d == 0 then VertexKind else PlainKind
    case Simplicial =>
      if d == 0 then VertexKind
      else if d == n then SimplexKind
      else NewCellKind(PiecewiseLinear, n, d)
  }

  /** A piecewise-linear (or simplicial) complex: the cell complex and the
      coordinates of its vertices. */
  datatype Plc = Plc(flavour: Flavour, complex: Complex, coords: map<Cell, Point>)

  /** The class of object a cell of `P` was created as. */
  function KindOf(P: Plc, c: Cell): Kind {
    NewCellKind(P.flavour, P.complex.dim, c.dim)
  }

  /** A new, empty complex of dimension n; no vertex has coordinates yet. */
  function PlcInit(fl: Flavour, n: nat): (P: Plc)
    ensures P.flavour == fl && P.complex == Init(n) && P.coords == map[]
  {
    Plc(fl, Init(n), map[])
  }

  /** The argument of `add`: Ruby looks at the first element and treats a
      list starting with an integer as coordinates, anything else
      (including the empty list) as a boundary. */
  datatype Arg = Coordinates(xs: seq<int>) | Boundary(cells: seq<Cell>)

  /** The boundary `add` passes on to the cell complex. */
  function BoundaryOf(arg: Arg): seq<Cell> {
    match arg
    case Coordinates(_) => []
    case Boundary(cs) => cs
  }

  /** The list copied into the new cell's coordinates when its boundary is
      empty. */
  function Payload(arg: Arg): Point {
    match arg
    case Coordinates(xs) => xs
    case Boundary(_) => []
  }

  datatype Made = Made(plc: Plc, cell: Cell)

  /** `add(bdy_or_coords)`: a coordinate list creates a 0-cell with an empty
      boundary and a copy of the list as its coordinates; a boundary creates
      the cell the cell complex makes of it, and a cell with a non-empty
      boundary gets no coordinates. Errors are those of the cell complex. */
  function PlcAdd(P: Plc, arg: Arg): (r: Result<Made, Error>)
    ensures r.Failure? <==> Add(P.complex, BoundaryOf(arg)).Failure?
    ensures r.Failure? ==> r.error == Add(P.complex, BoundaryOf(arg)).error
    ensures r.Success? ==>
      && Add(P.complex, BoundaryOf(arg)) == Success(Added(r.value.plc.complex, r.value.cell))
      && r.value.plc.flavour == P.flavour
    ensures r.Success? && BoundaryOf(arg) == [] ==>
      && r.value.cell.dim == 0
      && KindOf(r.value.plc, r.value.cell) == VertexKind
      && r.value.plc.coords == P.coords[r.value.cell := Payload(arg)]
    ensures r.Success? && BoundaryOf(arg) != [] ==>
      && r.value.cell.dim == BoundaryOf(arg)[0].dim + 1
      && r.value.plc.coords == P.coords
  {
    var boundary := BoundaryOf(arg);
    var a :- Add(P.complex, boundary);
    var coords := if |boundary| == 0 then P.coords[a.cell := Payload(arg)] else P.coords;
    Success(Made(Plc(P.flavour, a.complex, coords), a.cell))
  }

  /** An empty argument list means the same thing read either way. */
  lemma EmptyArgumentsAgree(P: Plc)
    ensures PlcAdd(P, Coordinates([])) == PlcAdd(P, Boundary([]))
  {
  }

  /** A coordinate list yields a vertex holding exactly those coordinates
      whenever the cell complex can add a vertex at all (see
      `InsertionFacts.AddVertex`). */
  lemma CoordinatesMakeVertex(P: Plc, xs: seq<int>)
    requires 0 in P.complex.cells && Lower(P.complex, EmptyFace) == []
    requires P.complex.dim > 0 || |Upper(P.complex, EmptyFace)| < 2
    ensures PlcAdd(P, Coordinates(xs)).Success?
    ensures var m := PlcAdd(P, Coordinates(xs)).value;
      && KindOf(m.plc, m.cell) == VertexKind
      && m.cell in m.plc.coords && m.plc.coords[m.cell] == xs
      && Lower(m.plc.complex, m.cell) == [EmptyFace]
      && (forall v :: v in P.coords && v != m.cell ==> v in m.plc.coords && m.plc.coords[v] == P.coords[v])
  {
    AddVertex(P.complex);
  }

  /** `Vertex#[](k)` (and `x`, `y` for k = 0, 1): Ruby indexing into the
      coordinate list, `nil` beyond it; a cell without coordinates raises. */
  function Coordinate(P: Plc, v: Cell, k: int): (r: Result<Option<int>, Error>)
    ensures r.Failure? <==> v !in P.coords
    ensures r.Success? && 0 <= k < |P.coords[v]| ==> r.value == Some(P.coords[v][k])
    ensures r.Success? && -|P.coords[v]| <= k < 0 ==> r.value == Some(P.coords[v][|P.coords[v]| + k])
    ensures r.Success? ==> (r.value.None? <==> k >= |P.coords[v]| || k < -|P.coords[v]|)
  {
    if v !in P.coords then Failure(NoCoords)
    else
      var xs := P.coords[v];
      if 0 <= k < |xs| then Success(Some(xs[k]))
      else if -|xs| <= k < 0 then Success(Some(xs[|xs| + k]))
      else Success(None)
  }

  /** `Cell#head`: the first element of `down`, i.e. the first facet in the
      stored boundary; `nil` for a cell without facets. */
  function Head(C: Complex, c: Cell): (r: Option<Cell>)
    ensures r.Some? <==> |Lower(C, c)| > 0
    ensures r.Some? ==> r.value == Lower(C, c)[0]
  {
    var fs := Lower(C, c);
    if |fs| > 0 then DedupFirst(fs); Some(Down(C, c, 1)[0]) else None
  }

  /** `Cell#tail`: the second element of `down`, i.e. the first facet that
      differs from the head; `nil` when the boundary has fewer than two
      distinct facets. */
  function Tail(C: Complex, c: Cell): (r: Option<Cell>)
    ensures r.Some? <==> exists j :: 0 <= j < |Lower(C, c)| && Lower(C, c)[j] != Lower(C, c)[0]
    ensures r.Some? ==> exists j ::
      && 0 < j < |Lower(C, c)| && Lower(C, c)[j] == r.value && r.value != Lower(C, c)[0]
      && (forall i :: 0 < i < j ==> Lower(C, c)[i] == Lower(C, c)[0])
  {
    var fs := Lower(C, c);
    var ds := Down(C, c, 1);
    if exists j :: 0 <= j < |fs| && fs[j] != fs[0] then
      var j := FirstOther(fs);
      DedupSecond(fs, j);
      Some(ds[1])
    else if |fs| > 0 then DedupConstant(fs); None
    else None
  }

  /** The position of the first entry that differs from the first one. */
  function FirstOther(s: seq<Cell>): (j: int)
    requires exists j :: 0 <= j < |s| && s[j] != s[0]
    ensures 0 < j < |s| && s[j] != s[0]
    ensures forall i :: 0 < i < j ==> s[i] == s[0]
  {
    FirstOtherFrom(s, 1)
  }

  function FirstOtherFrom(s: seq<Cell>, k: int): (j: int)
    requires 0 < k <= |s|
    requires exists j :: k <= j < |s| && s[j] != s[0]
    ensures k <= j < |s| && s[j] != s[0]
    ensures forall i :: k <= i < j ==> s[i] == s[0]
    decreases |s| - k
  {
    if s[k] != s[0] then k else FirstOtherFrom(s, k + 1)
  }

  /** An edge whose boundary lists two distinct vertices runs from the first
      (its head) to the second (its tail). */
  lemma EdgeEnds(C: Complex, e: Cell, a: Cell, b: Cell)
    requires Lower(C, e) == [a, b] && a != b
    ensures Head(C, e) == Some(a) && Tail(C, e) == Some(b)
  {
    assert Lower(C, e)[1] != Lower(C, e)[0];
  }
}
