/** The simplicial layer: a simplex's vertices, the containment test over an
    abstract orientation sign, point location, and the orbit walks that
    chain switches (lib/simplicial_complex.rb). */
module Simplices {
  import opened Wrappers
  import opened Lists
  import opened Cells
  import opened Tuples
  import opened Complex
  import opened Queries
  import opened Switching
  import opened Piecewise

  /** `orient(*points)`: the sign of the orientation determinant, left
      uninterpreted. */
  type Orient = seq<Point> -> int

  /** `Simplex#vertices`: `down(dim)`, the cells `dim` facet steps below,
      each once. */
  function Vertices(C: Complex, s: Cell): (vs: seq<Cell>)
    ensures NoDup(vs)
    ensures s.dim >= 1 ==> forall v :: v in vs <==> Reaches(C, Downward, s, v, s.dim)
    ensures s.dim < 1 ==> vs == []
  {
    var vs := Down(C, s, s.dim);
    assert s.dim >= 1 ==> forall v :: v in vs <==> Reaches(C, Downward, s, v, s.dim) by {
      if s.dim >= 1 {
        forall v ensures v in vs <==> Reaches(C, Downward, s, v, s.dim) {
          WalkReaches(C, Downward, s, s.dim, v);
        }
      }
    }
    vs
  }

  /** Facet steps go down one dimension each in a graded complex. */
  lemma {:induction false} DescentDims(C: Complex, a: Cell, b: Cell, k: nat)
    requires Graded(C) && Reaches(C, Downward, a, b, k)
    ensures b.dim == a.dim - k
    decreases k
  {
    if k > 0 {
      var u :| u in Step(C, Downward, a) && Reaches(C, Downward, u, b, k - 1);
      DescentDims(C, u, b, k - 1);
    }
  }

  /** The vertices of a cell of a graded complex are 0-cells. */
  lemma VerticesAreVertices(C: Complex, s: Cell, v: Cell)
    requires Graded(C) && v in Vertices(C, s)
    ensures v.dim == 0
  {
    DescentDims(C, s, v, s.dim);
  }

  /** Ruby's `p[i] = x`: inside the array it overwrites, past the end it
      pads with `nil` up to position i. */
  function Put(p: seq<Option<Point>>, i: nat, x: Option<Point>): (r: seq<Option<Point>>)
    ensures |r| == if i < |p| then |p| else i + 1
    ensures r[i] == x
    ensures forall j :: 0 <= j < |r| && j != i ==> r[j] == (if j < |p| then p[j] else None)
  {
    if i < |p| then p[i := x] else p + Nils(i - |p|) + [x]
  }

  function Nils(k: nat): (r: seq<Option<Point>>)
    ensures |r| == k && forall j :: 0 <= j < k ==> r[j] == None
  {
    if k == 0 then [] else Nils(k - 1) + [None]
  }

  /** All entries are points (none is `nil`). */
  predicate Present(p: seq<Option<Point>>) {
    forall j :: 0 <= j < |p| ==> p[j].Some?
  }

  function Values(p: seq<Option<Point>>): (r: seq<Point>)
    requires Present(p)
    ensures |r| == |p| && forall j :: 0 <= j < |p| ==> r[j] == p[j].value
  {
    if |p| == 0 then [] else Values(p[..|p| - 1]) + [p[|p| - 1].value]
  }

  /** `orient(*p)`: raises when an entry is `nil`. */
  function Orientation(orient: Orient, p: seq<Option<Point>>): (r: Result<int, Error>)
    ensures r.Success? <==> Present(p)
    ensures r.Success? ==> r.value == orient(Values(p))
  {
    if Present(p) then Success(orient(Values(p))) else Failure(NoCoords)
  }

  /** `Simplex#contains?(point)` given the vertices' coordinates `points`
      (`nil` for a vertex without any) and the query point `q`: compute the
      baseline orientation, then for i in 0..dim substitute `q` at position
      i and answer false as soon as the sign is exactly the negated
      baseline; restore the entry and carry on; answer true at the end. */
  function Contains(orient: Orient, points: seq<Option<Point>>, q: Option<Point>, dim: int): (r: Result<bool, Error>)
    ensures !Present(points) ==> r == Failure(NoCoords)
    ensures r.Failure? ==> r.error == NoCoords
    ensures dim < |points| ==> (r.Failure? <==> !Present(points) || (0 <= dim && q.None?))
    ensures |points| < dim ==> r != Success(true)
  {
    var o :- Orientation(orient, points);
    var r := ContainsFrom(orient, points, points, q, dim, 0, o);
    assert dim < |points| && q.Some? ==> r.Success? by {
      if dim < |points| && q.Some? {
        ContainsLoop(orient, Values(points), points, q.value, dim, 0);
      }
    }
    assert dim < |points| && 0 <= dim && q.None? ==> r.Failure? by {
      if dim < |points| && 0 <= dim && q.None? {
        assert !Present(Put(points, 0, q));
      }
    }
    assert |points| < dim ==> r != Success(true) by {
      if |points| < dim {
        ContainsShort(orient, points, q, dim, 0, o);
      }
    }
    r
  }

  /** With fewer than dim vertices, the loop of `contains?` meets a padding
      `nil` two positions past the end unless it answers false earlier: it
      never answers true. */
  lemma {:induction false} ContainsShort(orient: Orient, points: seq<Option<Point>>, q: Option<Point>, dim: int, i: nat, o: int)
    requires |points| < dim && i <= |points|
    ensures ContainsFrom(orient, points, points, q, dim, i, o) != Success(true)
    decreases |points| - i
  {
    var p1 := Put(points, i, q);
    if Orientation(orient, p1).Success? && orient(Values(p1)) != -o {
      var p2 := Put(p1, i, if i < |points| then points[i] else None);
      if i < |points| {
        assert p2 == points;
        ContainsShort(orient, points, q, dim, i + 1, o);
      } else {
        assert !Present(Put(p2, i + 1, q)) by {
          assert Put(p2, i + 1, q)[i] == None;
        }
      }
    }
  }

  /** The loop of `contains?` from position i, with working array `p`. */
  function ContainsFrom(orient: Orient, points: seq<Option<Point>>, p: seq<Option<Point>>, q: Option<Point>,
                        dim: int, i: nat, o: int): (r: Result<bool, Error>)
    ensures r.Failure? ==> r.error == NoCoords
    decreases dim + 1 - i
  {
    if i > dim then Success(true)
    else
      var p1 := Put(p, i, q);
      var s :- Orientation(orient, p1);
      if s == -o then Success(false)
      else ContainsFrom(orient, points, Put(p1, i, if i < |points| then points[i] else None), q, dim, i + 1, o)
  }

  /** The sign after substituting `q` for the i-th point. */
  function SignWith(orient: Orient, ps: seq<Point>, q: Point, i: int): int
    requires 0 <= i < |ps|
  {
    orient(ps[i := q])
  }

  /** Substituting `q` for the i-th point changes the sign to exactly the
      negated baseline. */
  ghost predicate Flips(orient: Orient, ps: seq<Point>, q: Point, i: int)
    requires 0 <= i < |ps|
  {
    SignWith(orient, ps, q, i) == -orient(ps)
  }

  /** For a simplex with all its coordinates and at least dim+1 vertices,
      `contains?` is false exactly when some substitution among the first
      dim+1 positions flips the sign to the negated baseline. */
  lemma ContainsIff(orient: Orient, ps: seq<Point>, q: Point, dim: int)
    requires dim < |ps|
    ensures var points := seq(|ps|, j requires 0 <= j < |ps| => Some(ps[j]));
      Contains(orient, points, Some(q), dim) ==
        Success(!exists i :: 0 <= i <= dim && Flips(orient, ps, q, i))
  {
    var points := seq(|ps|, j requires 0 <= j < |ps| => Some(ps[j]));
    assert Values(points) == ps;
    ContainsLoop(orient, ps, points, q, dim, 0);
  }

  lemma {:induction false} ContainsLoop(orient: Orient, ps: seq<Point>, points: seq<Option<Point>>, q: Point, dim: int, i: nat)
    requires dim < |ps| && |points| == |ps|
    requires forall j :: 0 <= j < |ps| ==> points[j] == Some(ps[j])
    ensures ContainsFrom(orient, points, points, Some(q), dim, i, orient(ps)) ==
      Success(!exists j :: i <= j <= dim && Flips(orient, ps, q, j))
    decreases dim + 1 - i
  {
    if i <= dim {
      var p1 := Put(points, i, Some(q));
      assert Values(p1) == ps[i := q];
      if !Flips(orient, ps, q, i) {
        var p2 := Put(p1, i, points[i]);
        assert p2 == points;
        ContainsLoop(orient, ps, points, q, dim, i + 1);
        assert (exists j :: i <= j <= dim && Flips(orient, ps, q, j))
          <==> (exists j :: i + 1 <= j <= dim && Flips(orient, ps, q, j));
      }
    }
  }

  /** With a non-degenerate baseline, a substitution that gives zero never
      excludes the point: a point whose substitutions all give zero or the
      baseline sign is contained. */
  lemma ZeroNeverExcludes(orient: Orient, ps: seq<Point>, q: Point, dim: int)
    requires dim < |ps| && orient(ps) != 0
    requires forall i :: 0 <= i <= dim ==> SignWith(orient, ps, q, i) == 0 || SignWith(orient, ps, q, i) == orient(ps)
    ensures Contains(orient, seq(|ps|, j requires 0 <= j < |ps| => Some(ps[j])), Some(q), dim) == Success(true)
  {
    ContainsIff(orient, ps, q, dim);
  }

  /** With a degenerate baseline (sign zero) the negated baseline is zero
      too, so a single substitution that gives zero excludes the point. */
  lemma DegenerateExcludes(orient: Orient, ps: seq<Point>, q: Point, dim: int, i: int)
    requires dim < |ps| && orient(ps) == 0
    requires 0 <= i <= dim && SignWith(orient, ps, q, i) == 0
    ensures Contains(orient, seq(|ps|, j requires 0 <= j < |ps| => Some(ps[j])), Some(q), dim) == Success(false)
  {
    ContainsIff(orient, ps, q, dim);
    assert Flips(orient, ps, q, i);
  }

  /** The argument of `contains?`: a Vertex (whose coordinates are used) or
      a bare coordinate list. */
  datatype Query = AtVertex(v: Cell) | AtPoint(xs: Point)

  /** `v.coords`, `nil` for a cell without coordinates. */
  function CoordsOf(P: Plc, v: Cell): Option<Point> {
    if v in P.coords then Some(P.coords[v]) else None
  }

  /** `vertices.map { |v| v.coords }`. */
  function PointsOf(P: Plc, s: Cell): (ps: seq<Option<Point>>)
    ensures |ps| == |Vertices(P.complex, s)|
    ensures forall j :: 0 <= j < |ps| ==> ps[j] == CoordsOf(P, Vertices(P.complex, s)[j])
  {
    var vs := Vertices(P.complex, s);
    seq(|vs|, j requires 0 <= j < |vs| => CoordsOf(P, vs[j]))
  }

  function QueryPoint(P: Plc, q: Query): Option<Point> {
    match q
    case AtVertex(v) => CoordsOf(P, v)
    case AtPoint(xs) => Some(xs)
  }

  /** `s.contains?(point)` in the complex `P`: raises when a vertex of `s`
      has no coordinates. */
  function SimplexContains(P: Plc, orient: Orient, s: Cell, q: Query): (r: Result<bool, Error>)
    ensures (exists v :: v in Vertices(P.complex, s) && v !in P.coords) ==> r == Failure(NoCoords)
    ensures r.Failure? ==> r.error == NoCoords
    ensures s.dim < |Vertices(P.complex, s)| ==>
      (r.Failure? <==>
        (exists v :: v in Vertices(P.complex, s) && v !in P.coords) || (0 <= s.dim && QueryPoint(P, q).None?))
    ensures |Vertices(P.complex, s)| < s.dim ==> r != Success(true)
  {
    var ps := PointsOf(P, s);
    assert (exists v :: v in Vertices(P.complex, s) && v !in P.coords) ==> !Present(ps) by {
      if exists v :: v in Vertices(P.complex, s) && v !in P.coords {
        var v :| v in Vertices(P.complex, s) && v !in P.coords;
        var j :| 0 <= j < |Vertices(P.complex, s)| && Vertices(P.complex, s)[j] == v;
        assert ps[j] == None;
      }
    }
    assert Present(ps) ==> forall v :: v in Vertices(P.complex, s) ==> v in P.coords by {
      if Present(ps) {
        forall v | v in Vertices(P.complex, s) ensures v in P.coords {
          var j :| 0 <= j < |Vertices(P.complex, s)| && Vertices(P.complex, s)[j] == v;
          assert ps[j].Some?;
        }
      }
    }
    Contains(orient, ps, QueryPoint(P, q), s.dim)
  }

  /** The containment test of `locate`, cell by cell: only a Simplex has
      `contains?`, so a top cell created as a Vertex (the cells of a
      0-dimensional complex) or a plain Cell raises. */
  function Tester(P: Plc, orient: Orient, q: Query): Cell -> Result<bool, Error> {
    t => if KindOf(P, t) != SimplexKind then Failure(NoContains) else SimplexContains(P, orient, t, q)
  }

  /** Every cell of `ts[i..j]` answered no. */
  predicate RejectedBetween(test: Cell -> Result<bool, Error>, ts: seq<Cell>, i: int, j: int)
    requires 0 <= i <= j <= |ts|
  {
    forall k :: i <= k < j ==> test(ts[k]) == Success(false)
  }

  /** `ts[j]` is the first cell from position i on that does not answer no. */
  predicate FirstOpen(test: Cell -> Result<bool, Error>, ts: seq<Cell>, i: int, j: int)
    requires 0 <= i
  {
    i <= j < |ts| && test(ts[j]) != Success(false) && RejectedBetween(test, ts, i, j)
  }

  /** `locate(point)`: the first top-dimensional cell, in list order, that
      contains the point; `nil` when every one of them answers no; a
      raising test propagates. Only a simplicial complex has `locate`. */
  function Locate(P: Plc, orient: Orient, q: Query): (r: Result<Option<Cell>, Error>)
    ensures r == Failure(NotSimplicial) <==> P.flavour != Simplicial
    ensures P.flavour == Simplicial ==>
      var ts, test := Bucket(P.complex, P.complex.dim), Tester(P, orient, q);
      && (r == Success(None) <==> RejectedBetween(test, ts, 0, |ts|))
      && (r.Success? && r.value.Some? ==>
            exists j :: FirstOpen(test, ts, 0, j) && ts[j] == r.value.value && test(ts[j]) == Success(true))
      && (r.Failure? ==> exists j :: FirstOpen(test, ts, 0, j) && test(ts[j]).Failure?)
    ensures P.flavour == Simplicial && P.complex.dim == 0 ==>
      (r == Success(None) <==> |Bucket(P.complex, 0)| == 0) &&
      (r.Failure? <==> |Bucket(P.complex, 0)| > 0) &&
      (r.Failure? ==> r.error == NoContains)
  {
    if P.flavour != Simplicial then Failure(NotSimplicial)
    else
      var test, ts := Tester(P, orient, q), Bucket(P.complex, P.complex.dim);
      ScanFacts(test, ts, 0);
      var r := Scan(test, ts, 0);
      assert r.Failure? ==> r.error != NotSimplicial by {
        if r.Failure? {
          var j :| FirstOpen(test, ts, 0, j) && test(ts[j]) == Failure(r.error);
        }
      }
      r
  }

  /** `ts.each { |t| return t if test(t) }; nil` from position i. */
  function Scan(test: Cell -> Result<bool, Error>, ts: seq<Cell>, i: nat): Result<Option<Cell>, Error>
    requires i <= |ts|
    decreases |ts| - i
  {
    if i == |ts| then Success(None)
    else
      var c :- test(ts[i]);
      if c then Success(Some(ts[i])) else Scan(test, ts, i + 1)
  }

  /** What `Scan` finds: nothing exactly when every cell answers no,
      otherwise the first cell that does not answer no, either answering
      yes or failing. */
  lemma {:induction false} ScanFacts(test: Cell -> Result<bool, Error>, ts: seq<Cell>, i: nat)
    requires i <= |ts|
    ensures var r := Scan(test, ts, i);
      && (r == Success(None) <==> RejectedBetween(test, ts, i, |ts|))
      && (r.Success? && r.value.Some? ==>
            exists j :: FirstOpen(test, ts, i, j) && ts[j] == r.value.value && test(ts[j]) == Success(true))
      && (r.Failure? ==> exists j :: FirstOpen(test, ts, i, j) && test(ts[j]) == Failure(r.error))
    decreases |ts| - i
  {
    if i < |ts| {
      var c := test(ts[i]);
      if c != Success(false) {
        assert FirstOpen(test, ts, i, i);
      } else {
        ScanFacts(test, ts, i + 1);
        assert Scan(test, ts, i) == Scan(test, ts, i + 1);
        assert RejectedBetween(test, ts, i, |ts|) <==> RejectedBetween(test, ts, i + 1, |ts|);
        forall j | FirstOpen(test, ts, i + 1, j) ensures FirstOpen(test, ts, i, j) {
        }
      }
    }
  }

  /** Applying `switch` at the ranks `ks` in turn, stopping with `nil` as
      soon as one of them has no partner (or the tuple is `nil` to begin
      with). A switch leaves every other rank alone, so the result differs
      from the start only at ranks in `ks`. */
  function SwitchChain(C: Complex, t: Option<CellTuple>, ks: seq<int>): (r: Result<Option<CellTuple>, Error>)
    ensures t.None? ==> r == Success(None)
    ensures r.Failure? ==> r.error == BadSwitchIndex
    ensures t.Some? && (forall k :: k in ks ==> 0 <= k < |t.value.cells|) ==> r.Success?
    ensures r.Success? && r.value.Some? ==>
      && t.Some? && |r.value.value.cells| == |t.value.cells|
      && forall i :: 0 <= i < |t.value.cells| && i !in ks ==> r.value.value.cells[i] == t.value.cells[i]
    decreases |ks|
  {
    if |ks| == 0 then Success(t)
    else
      match t
      case None => Success(None)
      case Some(u) =>
        assert ks[0] in ks;
        var v :- Switch(C, ks[0], u);
        var rest := ks[1..];
        assert forall k :: k in rest ==> k in ks;
        assert forall i :: i !in ks ==> i != ks[0] && i !in rest;
        SwitchChain(C, v, rest)
  }

  /** The ranks top, top-1, ..., top-count+1. */
  function Countdown(top: int, count: nat): (ks: seq<int>)
    ensures |ks| == count && forall j :: 0 <= j < count ==> ks[j] == top - j
    decreases count
  {
    if count == 0 then [] else [top] + Countdown(top - 1, count - 1)
  }

  /** `opposite_vertex(t)`: switches at ranks dim, dim-1, ..., 0. */
  function OppositeVertex(C: Complex, t: Option<CellTuple>): (r: Result<Option<CellTuple>, Error>)
    ensures t.Some? && |t.value.cells| == C.dim + 1 ==> r.Success?
    ensures t.None? ==> r == Success(None)
  {
    SwitchChain(C, t, Countdown(C.dim, C.dim + 1))
  }

  /** `next_facet(t)`: switches at ranks dim-1, ..., 0. They leave the top
      rank alone, so the walk turns around the same top cell. */
  function NextFacet(C: Complex, t: Option<CellTuple>): (r: Result<Option<CellTuple>, Error>)
    ensures t.Some? && |t.value.cells| == C.dim + 1 ==> r.Success?
    ensures t.None? ==> r == Success(None)
    ensures r.Success? && r.value.Some? ==> t.Some? && |r.value.value.cells| == |t.value.cells|
    ensures r.Success? && r.value.Some? && |t.value.cells| == C.dim + 1 ==>
      r.value.value.cells[C.dim] == t.value.cells[C.dim]
  {
    var ks := Countdown(C.dim - 1, C.dim);
    assert C.dim !in ks;
    SwitchChain(C, t, ks)
  }

  /** Switching along `a + b` is switching along `a`, then along `b`. */
  lemma {:induction false} ChainAppend(C: Complex, t: Option<CellTuple>, a: seq<int>, b: seq<int>)
    ensures SwitchChain(C, t, a + b) ==
      match SwitchChain(C, t, a)
      case Failure(e) => Failure(e)
      case Success(v) => SwitchChain(C, v, b)
    decreases |a|
  {
    if |a| > 0 && t.Some? {
      assert (a + b)[1..] == a[1..] + b;
      var v := Switch(C, a[0], t.value);
      if v.Success? {
        ChainAppend(C, v.value, a[1..], b);
      }
    }
    if |a| == 0 {
      assert a + b == b;
    }
  }

  /** With an involutive table, a chain of switches that succeeds is undone
      by the same switches in reverse order. */
  lemma {:induction false} ChainReverse(C: Complex, t: CellTuple, ks: seq<int>, u: CellTuple)
    requires Involutive(C.switch)
    requires SwitchChain(C, Some(t), ks) == Success(Some(u))
    ensures SwitchChain(C, Some(u), Reverse(ks)) == Success(Some(t))
    decreases |ks|
  {
    if |ks| > 0 {
      var t1 := Switch(C, ks[0], t).value.value;
      ChainReverse(C, t1, ks[1..], u);
      assert Reverse(ks) == Reverse(ks[1..]) + [ks[0]];
      ChainAppend(C, Some(u), Reverse(ks[1..]), [ks[0]]);
      SwitchTwice(C, ks[0], t);
    }
  }

  /** `opposite_vertex` is undone by switching at ranks 0, 1, ..., dim. */
  lemma OppositeVertexUndone(C: Complex, t: CellTuple, u: CellTuple)
    requires Involutive(C.switch)
    requires OppositeVertex(C, Some(t)) == Success(Some(u))
    ensures SwitchChain(C, Some(u), seq(C.dim + 1, j => j)) == Success(Some(t))
  {
    ChainReverse(C, t, Countdown(C.dim, C.dim + 1), u);
    assert Reverse(Countdown(C.dim, C.dim + 1)) == seq(C.dim + 1, j => j);
  }
}
