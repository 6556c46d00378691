/** The state of a cell complex and its read-only queries: incidence lookups,
    `down`/`up` with an offset, and the `switch` operator
    (lib/cell_complex.rb, class CellComplex). */
module Complex {
  import opened Wrappers
  import opened Lists
  import opened Cells
  import opened Tuples

  /** A switch-table key: (lower face, cell, upper face). */
  datatype Slot = Slot(lo: Cell, mid: Cell, hi: Cell)

  /** The ways an operation of the complex raises. */
  datatype Error =
    | InvalidBoundary  // add: the boundary is not a mod-2 cycle
    | NonManifold      // add: a diamond has more than two middle cells
    | NoBucket         // add, delete: no cell list for that dimension (Ruby: nil.<<, nil.delete)
    | BadSwitchIndex   // switch: k < 0 or k > tuple.dim
    | NoVertex         // tuple(): no 0-cell to start from (Ruby: sorting nil)
    | BadTuple         // tuple: the cell list failed CellTuple's checks
    | MissingFace      // add_star / flip: a face has no cone cell yet (Ruby: nil)
    | NoCoords         // a vertex without coordinates, or too few vertices (Ruby: nil)
    | NoTuple          // flip: a tuple or next facet is nil (Ruby: nil[])
    | NoContains       // locate: a top cell that is not a Simplex has no contains?
    | NoVertices       // flip: a cell above the facet is not a Simplex and has no vertices
    | NotSimplicial    // add_star, locate, flip: a piecewise-linear complex has no such method

  /** The complex: its dimension, per-dimension cell lists (`@cells`),
      `@lower` and `@upper` incidence lists, the switch table, and the next
      unused identity key. */
  datatype Complex = Complex(
    dim: nat,
    cells: map<int, seq<Cell>>,
    lower: map<Cell, seq<Cell>>,
    upper: map<Cell, seq<Cell>>,
    switch: map<Slot, Cell>,
    nextId: nat)

  /** The bottom of the face poset, dimension -1. */
  const EmptyFace: Cell := Cell(-1, 0)

  /** The top of the face poset, dimension n+1. */
  function FullFace(C: Complex): (f: Cell)
    ensures f.dim == C.dim + 1 && f != EmptyFace
  {
    Cell(C.dim + 1, 1)
  }

  /** `CellComplex.new(n)`: empty cell lists for dimensions 0..n, no
      incidences, no switches; the two sentinels hold the first two keys. */
  function Init(n: nat): (C: Complex)
    ensures C.dim == n && C.nextId == 2
    ensures forall d :: d in C.cells <==> 0 <= d <= n
    ensures forall d :: 0 <= d <= n ==> Bucket(C, d) == []
    ensures forall c :: Lower(C, c) == [] && Upper(C, c) == []
    ensures forall s :: s !in C.switch
    ensures Sym(C)
  {
    Complex(n, EmptyBuckets(n), map[], map[], map[], 2)
  }

  /** `Array.new(n+1) { [] }`: an empty list for each dimension 0..n. */
  function EmptyBuckets(n: int): (m: map<int, seq<Cell>>)
    ensures forall d :: d in m <==> 0 <= d <= n
    ensures forall d :: d in m ==> m[d] == []
    decreases n + 1
  {
    if n < 0 then map[] else EmptyBuckets(n - 1)[n := []]
  }

  /** `@cells[d]`, empty where there is no list. */
  function Bucket(C: Complex, d: int): seq<Cell> {
    if d in C.cells then C.cells[d] else []
  }

  /** `@lower[c]`: a missing key reads as the empty list. */
  function Lower(C: Complex, c: Cell): seq<Cell> {
    if c in C.lower then C.lower[c] else []
  }

  /** `@upper[c]`: a missing key reads as the empty list. */
  function Upper(C: Complex, c: Cell): seq<Cell> {
    if c in C.upper then C.upper[c] else []
  }

  /** A cell is live when it sits in one of the cell lists. */
  ghost predicate Live(C: Complex, c: Cell) {
    c in Bucket(C, c.dim)
  }

  /** Incidence symmetry: a live cell `y` is on the coboundary list of `x`
      exactly when `x` is on `y`'s boundary list. The full face is never
      live, so its empty boundary list is no exception to it. */
  ghost predicate Sym(C: Complex) {
    forall x, y :: Live(C, y) ==> (y in Upper(C, x) <==> x in Lower(C, y))
  }

  /** The grading every complex built from uniform boundaries keeps: each
      list holds cells of its own dimension 0..n, boundary entries sit one
      dimension below, coboundary entries one above and no higher than n
      except the full face. Recursion over the incidence lists terminates on
      dimension because of it. */
  ghost predicate Graded(C: Complex) {
    && (forall d :: d in C.cells ==> 0 <= d <= C.dim)
    && (forall d, x {:trigger x in Bucket(C, d)} :: x in Bucket(C, d) ==> x.dim == d)
    && (forall c, f {:trigger f in Lower(C, c)} :: f in Lower(C, c) ==> f.dim == c.dim - 1)
    && (forall c, u {:trigger u in Upper(C, c)} :: u in Upper(C, c) ==> u.dim == c.dim + 1 && (u.dim <= C.dim || u == FullFace(C)))
  }

  datatype Direction = Downward | Upward

  /** One step of `down` or `up`: the stored incidence list. */
  function Step(C: Complex, dir: Direction, c: Cell): seq<Cell> {
    match dir
    case Downward => Lower(C, c)
    case Upward => Upper(C, c)
  }

  /** `down(cell, offset)` / `up(cell, offset)`: offset 1 is the stored list
      without repetitions; a larger offset is the repetition-free
      concatenation of the neighbours' results at offset-1. An offset below 1
      yields the empty list, which is where the Ruby recursion bottoms out. */
  function Walk(C: Complex, dir: Direction, c: Cell, offset: int): (r: seq<Cell>)
    ensures NoDup(r)
    decreases offset, 0
  {
    if offset < 1 then []
    else if offset == 1 then Dedup(Step(C, dir, c))
    else Dedup(WalkEach(C, dir, Step(C, dir, c), offset - 1))
  }

  /** The concatenated `Walk` results of a list of cells. */
  function WalkEach(C: Complex, dir: Direction, fs: seq<Cell>, offset: int): seq<Cell>
    requires offset >= 1
    decreases offset, 1, |fs|
  {
    if |fs| == 0 then [] else Walk(C, dir, fs[0], offset) + WalkEach(C, dir, fs[1..], offset)
  }

  function Down(C: Complex, c: Cell, offset: int): seq<Cell> {
    Walk(C, Downward, c, offset)
  }

  function Up(C: Complex, c: Cell, offset: int): seq<Cell> {
    Walk(C, Upward, c, offset)
  }

  /** `b` is reached from `a` in exactly `k` steps of the incidence lists. */
  ghost predicate Reaches(C: Complex, dir: Direction, a: Cell, b: Cell, k: nat)
    decreases k
  {
    if k == 0 then a == b
    else exists u :: u in Step(C, dir, a) && Reaches(C, dir, u, b, k - 1)
  }

  /** The first step of a non-empty path. */
  lemma ReachFirst(C: Complex, a: Cell, x: Cell, k: nat) returns (u: Cell)
    requires k > 0 && Reaches(C, Upward, a, x, k)
    ensures u in Upper(C, a) && Reaches(C, Upward, u, x, k - 1)
  {
    u :| u in Step(C, Upward, a) && Reaches(C, Upward, u, x, k - 1);
  }

  /** A coface in front of a path gives a path one step longer. */
  lemma ReachCons(C: Complex, a: Cell, u: Cell, x: Cell, k: nat)
    requires u in Upper(C, a) && Reaches(C, Upward, u, x, k)
    ensures Reaches(C, Upward, a, x, k + 1)
  {
    assert u in Step(C, Upward, a);
  }

  /** The switch-table key `switch(k, t)` consults, or None when one of its
      cells is `nil` (an index beyond the tuple). */
  function SlotOf(C: Complex, k: int, t: CellTuple): Option<Slot>
    requires 0 <= k < |t.cells|
  {
    var lo := if k == 0 then Some(EmptyFace) else At(t, k - 1);
    var hi := if k == C.dim then Some(FullFace(C)) else At(t, k + 1);
    if lo.None? || hi.None? then None else Some(Slot(lo.value, t.cells[k], hi.value))
  }

  /** The tuple has a switch partner at rank k. */
  ghost predicate HasSwitch(C: Complex, k: int, t: CellTuple)
    requires 0 <= k < |t.cells|
  {
    SlotOf(C, k, t).Some? && SlotOf(C, k, t).value in C.switch
  }

  /** `switch(k, tuple)`: raises outside 0..tuple.dim; `nil` when the table
      has no entry for the tuple's slot at rank k (the complex's boundary, or
      cells the complex does not know); otherwise a new tuple that differs
      from `t` exactly at rank k, where it holds the slot's partner cell. */
  function Switch(C: Complex, k: int, t: CellTuple): (r: Result<Option<CellTuple>, Error>)
    ensures r.Failure? <==> k < 0 || k > t.Dim()
    ensures r.Failure? ==> r.error == BadSwitchIndex
    ensures r.Success? ==> (r.value.Some? <==> HasSwitch(C, k, t))
    ensures r.Success? && r.value.Some? ==>
      && |r.value.value.cells| == |t.cells|
      && r.value.value.cells[k] == C.switch[SlotOf(C, k, t).value]
      && (forall i :: 0 <= i < |t.cells| && i != k ==> r.value.value.cells[i] == t.cells[i])
  {
    if k < 0 || k > t.Dim() then Failure(BadSwitchIndex)
    else
      match SlotOf(C, k, t)
      case None => Success(None)
      case Some(s) =>
        if s !in C.switch then Success(None)
        else
          // `tuple.clone` then `new_tuple[k] = other_cell`, with 0 <= k <= dim
          Success(Some(CellTuple(t.cells[k := C.switch[s]])))
  }
}
