/** `CellComplex#tuple(*cells)`: the cell tuple through the given cells
    (lib/cell_complex.rb). */
module TupleQuery {
  import opened Wrappers
  import opened Cells
  import opened Tuples
  import opened Complex
  import opened Search

  /** Some consecutive pair of `cs` has no rising path. */
  ghost predicate Broken(C: Complex, cs: seq<Cell>)
    requires Graded(C)
  {
    exists j :: 0 <= j < |cs| - 1 && RisingPath(C, cs[j], cs[j + 1]).None?
  }

  /** `path` climbs one dimension per step through coboundary lists from
      `cs[0]`, passes through every later cell of `cs` and ends at the last
      one. */
  ghost predicate Threads(C: Complex, cs: seq<Cell>, path: seq<Cell>)
    requires |cs| > 0
  {
    && UpChain(C, [cs[0]] + path) && DimsFrom(path, cs[0].dim + 1)
    && (path == [] ==> cs[|cs| - 1] == cs[0])
    && (path != [] ==> path[|path| - 1] == cs[|cs| - 1])
    && (forall j :: 0 < j < |cs| && cs[j] != cs[0] ==> cs[j] in path)
  }

  /** The rising paths between consecutive cells of `cs`, concatenated
      (`path << p; path.flatten!`); nil as soon as one pair is not
      connected. */
  function Connect(C: Complex, cs: seq<Cell>): (r: Option<seq<Cell>>)
    requires Graded(C)
    ensures r.None? <==> Broken(C, cs)
    ensures r.Some? && |cs| > 0 ==> Threads(C, cs, r.value)
  {
    if |cs| < 2 then Some([])
    else
      BrokenStep(C, cs);
      match RisingPath(C, cs[0], cs[1])
      case None => None
      case Some(p) =>
        match Connect(C, cs[1..])
        case None => None
        case Some(q) =>
          ThreadStep(C, cs, p, q);
          Some(p + q)
  }

  lemma BrokenStep(C: Complex, cs: seq<Cell>)
    requires Graded(C) && |cs| >= 2
    ensures Broken(C, cs) <==> RisingPath(C, cs[0], cs[1]).None? || Broken(C, cs[1..])
  {
    if Broken(C, cs) {
      var j :| 0 <= j < |cs| - 1 && RisingPath(C, cs[j], cs[j + 1]).None?;
      if j > 0 {
        var rest := cs[1..];
        assert rest[j - 1] == cs[j] && rest[j] == cs[j + 1];
        assert RisingPath(C, rest[j - 1], rest[j]).None?;
      }
    }
    if Broken(C, cs[1..]) {
      var rest := cs[1..];
      var j :| 0 <= j < |rest| - 1 && RisingPath(C, rest[j], rest[j + 1]).None?;
      assert rest[j] == cs[j + 1] && rest[j + 1] == cs[j + 2];
      assert RisingPath(C, cs[j + 1], cs[j + 2]).None?;
    }
  }

  /** The first rising path followed by the threaded rest threads `cs`. */
  lemma ThreadStep(C: Complex, cs: seq<Cell>, p: seq<Cell>, q: seq<Cell>)
    requires Graded(C) && |cs| >= 2
    requires RisingPath(C, cs[0], cs[1]) == Some(p)
    requires Threads(C, cs[1..], q)
    ensures Threads(C, cs, p + q)
  {
    ThreadJoin(C, cs, p, q);
  }

  /** `ThreadStep` with the facts about the first rising path spelled out. */
  lemma ThreadJoin(C: Complex, cs: seq<Cell>, p: seq<Cell>, q: seq<Cell>)
    requires |cs| >= 2
    requires UpChain(C, [cs[0]] + p) && DimsFrom(p, cs[0].dim + 1)
    requires p == [] <==> cs[0] == cs[1]
    requires p != [] ==> p[|p| - 1] == cs[1]
    requires Threads(C, cs[1..], q)
    ensures Threads(C, cs, p + q)
  {
    var tail := cs[1..];
    assert tail[0] == cs[1];
    assert tail[|tail| - 1] == cs[|cs| - 1];
    JoinPaths(C, cs[0], p, cs[1], q);
    assert cs[1] != cs[0] ==> cs[1] in p by {
      if cs[1] != cs[0] {
        assert p[|p| - 1] in p;
      }
    }
    ThreadMembers(cs, p, q);
    if p + q == [] {
      assert p == [] && q == [];
    } else if q == [] {
      assert p + q == p;
    } else {
      assert (p + q)[|p + q| - 1] == q[|q| - 1];
    }
  }

  /** Every later cell of `cs` lies on `p + q` when `p` reaches `cs[1]` and
      `q` passes through the cells after it. */
  lemma ThreadMembers(cs: seq<Cell>, p: seq<Cell>, q: seq<Cell>)
    requires |cs| >= 2 && (cs[1] != cs[0] ==> cs[1] in p)
    requires forall j :: 0 < j < |cs[1..]| && cs[1..][j] != cs[1..][0] ==> cs[1..][j] in q
    ensures forall j :: 0 < j < |cs| && cs[j] != cs[0] ==> cs[j] in p + q
  {
    forall j | 0 < j < |cs| && cs[j] != cs[0] ensures cs[j] in p + q {
      if cs[j] != cs[1] {
        assert cs[1..][j - 1] == cs[j];
      }
    }
  }

  /** Two rising paths meeting at `m` make one rising path from `s`. */
  lemma JoinPaths(C: Complex, s: Cell, p: seq<Cell>, m: Cell, q: seq<Cell>)
    requires UpChain(C, [s] + p) && DimsFrom(p, s.dim + 1)
    requires p == [] ==> m == s
    requires p != [] ==> p[|p| - 1] == m
    requires UpChain(C, [m] + q) && DimsFrom(q, m.dim + 1)
    ensures UpChain(C, [s] + (p + q)) && DimsFrom(p + q, s.dim + 1)
  {
    var sp := [s] + p;
    var mq := [m] + q;
    var all := [s] + (p + q);
    assert m == sp[|sp| - 1];
    if p != [] {
      assert m.dim == s.dim + |p|;
    }
    forall i | 0 <= i < |all| - 1 ensures all[i + 1] in Upper(C, all[i]) {
      if i < |p| {
        assert all[i] == sp[i] && all[i + 1] == sp[i + 1];
      } else {
        assert all[i] == mq[i - |p|] && all[i + 1] == mq[i - |p| + 1];
      }
    }
    forall i | 0 <= i < |p + q| ensures (p + q)[i].dim == s.dim + 1 + i {
      if i >= |p| {
        assert (p + q)[i] == q[i - |p|];
      }
    }
  }

  /** The cells `tuple` starts from: the given ones, or the first vertex
      of the complex when none are given; none when there is no vertex
      either (Ruby then fails sorting `nil` against the full face). */
  function Start(C: Complex, given: seq<Cell>): (r: Option<seq<Cell>>)
    ensures r.None? <==> |given| == 0 && Bucket(C, 0) == []
    ensures r.Some? && |given| > 0 ==> r.value == given
    ensures r.Some? && |given| == 0 ==> r.value == [Bucket(C, 0)[0]]
  {
    if |given| > 0 then Some(given)
    else if |Bucket(C, 0)| == 0 then None
    else Some([Bucket(C, 0)[0]])
  }

  /** The start cells with the full face appended, in `Cell#<=>` order. */
  function Arrange(C: Complex, cells: seq<Cell>): (cs: seq<Cell>)
    ensures |cs| == |cells| + 1 && Sorted(cs)
    ensures forall c :: c in cs <==> c in cells || c == FullFace(C)
  {
    var cs := Sort(cells + [FullFace(C)]);
    assert forall c :: c in cs <==> c in multiset(cells + [FullFace(C)]);
    cs
  }

  /** The falling path to the lowest start cell, followed by the joined
      rising paths without their final cell, the full face
      (`path[0..-2]`). */
  function Assemble(C: Complex, cs: seq<Cell>, path: seq<Cell>): seq<Cell>
    requires Graded(C) && |cs| > 0
  {
    FallingPath(C, cs[0]) + (if |path| == 0 then [] else path[..|path| - 1])
  }

  /** `tuple(*cells)`: fails without any cell to start from; nil when two
      consecutive start cells (in `Cell#<=>` order, with the full face last)
      are not joined by an upward path; otherwise the assembled cells,
      which must pass `CellTuple`'s length check. */
  function Tuple(C: Complex, given: seq<Cell>): (r: Result<Option<CellTuple>, Error>)
    requires Graded(C)
    ensures r == Failure(NoVertex) <==> Start(C, given).None?
    ensures r.Failure? ==> r.error == NoVertex || r.error == BadTuple
    ensures r == Success(None) <==>
      Start(C, given).Some? && Broken(C, Arrange(C, Start(C, given).value))
    ensures r.Success? && r.value.Some? ==> |r.value.value.cells| == C.dim + 1
  {
    match Start(C, given)
    case None => Failure(NoVertex)
    case Some(cells) =>
      var cs := Arrange(C, cells);
      match Connect(C, cs)
      case None => Success(None)
      case Some(path) =>
        match Make(C.dim, Assemble(C, cs, path))
        case Failure(_) => Failure(BadTuple)
        case Success(t) => Success(Some(t))
  }

  /** Consecutive tuple cells are incident: the lower one is a stored facet
      of the upper one, or the upper one a stored coface of the lower. */
  ghost predicate Incident(C: Complex, a: Cell, b: Cell) {
    a in Lower(C, b) || b in Upper(C, a)
  }

  /** A rising path never climbs past the full face, so the full face can
      only be its last cell. */
  lemma FullEndsPath(C: Complex, x: Cell, path: seq<Cell>, i: int)
    requires Graded(C) && UpChain(C, [x] + path) && DimsFrom(path, x.dim + 1)
    requires 0 <= i < |path| && path[i] == FullFace(C)
    ensures i == |path| - 1
  {
    if i < |path| - 1 {
      ClimbStep(C, [x] + path, i + 1);
      assert false;
    }
  }

  /** One step of an ascending chain in a graded complex. */
  lemma ClimbStep(C: Complex, p: seq<Cell>, i: int)
    requires Graded(C) && UpChain(C, p) && 0 <= i < |p| - 1
    ensures p[i + 1] in Upper(C, p[i])
    ensures p[i + 1].dim == p[i].dim + 1 && (p[i + 1].dim <= C.dim || p[i + 1] == FullFace(C))
  {
  }

  /** When the search succeeds and `tuple` passes the length check, the
      joined path runs from just above the lowest start cell up to the full
      face, and that cell is not the full face. */
  lemma PathToFull(C: Complex, cs: seq<Cell>, path: seq<Cell>)
    requires Graded(C) && Lower(C, FullFace(C)) == []
    requires |cs| > 0 && FullFace(C) in cs && Threads(C, cs, path)
    requires |Assemble(C, cs, path)| == C.dim + 1
    ensures cs[0] != FullFace(C) && path != []
    ensures path[|path| - 1] == FullFace(C) && |path| == C.dim + 1 - cs[0].dim
  {
    if cs[0] == FullFace(C) {
      if path != [] {
        ClimbStep(C, [cs[0]] + path, 0);
        assert false;
      }
      FallingPathOfFull(C);
      assert false;
    }
    var j :| 0 <= j < |cs| && cs[j] == FullFace(C);
    assert FullFace(C) in path;
    var i :| 0 <= i < |path| && path[i] == FullFace(C);
    FullEndsPath(C, cs[0], path, i);
  }

  /** The full face has no falling path when it has no stored facets. */
  lemma FallingPathOfFull(C: Complex)
    requires Graded(C) && Lower(C, FullFace(C)) == []
    ensures FallingPath(C, FullFace(C)) == []
  {
  }

  /** The assembled cells carry the dimensions 0..n in order. */
  lemma AssembledDims(C: Complex, cs: seq<Cell>, path: seq<Cell>)
    requires Graded(C) && Lower(C, FullFace(C)) == []
    requires |cs| > 0 && FullFace(C) in cs && Threads(C, cs, path)
    requires |Assemble(C, cs, path)| == C.dim + 1
    ensures DimsFrom(Assemble(C, cs, path), 0)
    ensures cs[0].dim >= 0 ==> FallingPath(C, cs[0]) != []
  {
    PathToFull(C, cs, path);
    var f := FallingPath(C, cs[0]);
    var pd := path[..|path| - 1];
    assert Assemble(C, cs, path) == f + pd;
    assert DimsFrom(pd, cs[0].dim + 1);
    if f != [] {
      assert cs[0].dim == f[0].dim + |f| - 1;
    }
    var a := f + pd;
    forall i | 0 <= i < |a| ensures a[i].dim == i {
      if i >= |f| {
        assert a[i] == pd[i - |f|];
      }
    }
  }

  /** Consecutive assembled cells are incident. */
  lemma AssembledIncident(C: Complex, cs: seq<Cell>, path: seq<Cell>)
    requires Graded(C) && Lower(C, FullFace(C)) == []
    requires |cs| > 0 && FullFace(C) in cs && Threads(C, cs, path)
    requires |Assemble(C, cs, path)| == C.dim + 1
    ensures forall i :: 0 <= i < C.dim ==>
      Incident(C, Assemble(C, cs, path)[i], Assemble(C, cs, path)[i + 1])
  {
    PathToFull(C, cs, path);
    var f := FallingPath(C, cs[0]);
    var pd := path[..|path| - 1];
    var a := f + pd;
    assert Assemble(C, cs, path) == a;
    var xp := [cs[0]] + path;
    forall i | 0 <= i < |a| - 1 ensures Incident(C, a[i], a[i + 1]) {
      if i + 1 < |f| {
        assert a[i] == f[i] && a[i + 1] == f[i + 1];
      } else if i + 1 == |f| {
        assert a[i] == cs[0] && a[i + 1] == path[0];
        assert xp[1] in Upper(C, xp[0]);
      } else {
        assert a[i] == path[i - |f|] && a[i + 1] == path[i - |f| + 1];
        assert xp[i - |f| + 2] in Upper(C, xp[i - |f| + 1]);
      }
    }
  }

  /** Every start cell of dimension 0..n is among the assembled cells. */
  lemma AssembledMembers(C: Complex, cs: seq<Cell>, path: seq<Cell>)
    requires Graded(C) && Lower(C, FullFace(C)) == []
    requires |cs| > 0 && FullFace(C) in cs && Threads(C, cs, path)
    requires |Assemble(C, cs, path)| == C.dim + 1
    ensures forall c :: c in cs && 0 <= c.dim <= C.dim ==> c in Assemble(C, cs, path)
  {
    PathToFull(C, cs, path);
    AssembledDims(C, cs, path);
    var f := FallingPath(C, cs[0]);
    var pd := path[..|path| - 1];
    assert Assemble(C, cs, path) == f + pd;
    forall c | c in cs && 0 <= c.dim <= C.dim ensures c in f + pd {
      if c == cs[0] {
        assert f[|f| - 1] == c;
      } else {
        var j :| 0 <= j < |cs| && cs[j] == c;
        assert c in path;
        var i :| 0 <= i < |path| && path[i] == c;
        assert i < |path| - 1;
        assert pd[i] == c;
      }
    }
  }

  /** A tuple `tuple` returns is the assembly of a successful search. */
  lemma TupleAssembled(C: Complex, given: seq<Cell>)
    requires Graded(C)
    requires Tuple(C, given).Success? && Tuple(C, given).value.Some?
    ensures Start(C, given).Some?
    ensures Connect(C, Arrange(C, Start(C, given).value)).Some?
    ensures var cs := Arrange(C, Start(C, given).value);
      Tuple(C, given).value.value.cells == Assemble(C, cs, Connect(C, cs).value)
  {
  }

  /** A tuple `tuple` returns holds one cell per dimension 0..n, in order,
      and each consecutive pair is incident. */
  lemma TupleShape(C: Complex, given: seq<Cell>)
    requires Graded(C) && Lower(C, FullFace(C)) == []
    requires Tuple(C, given).Success? && Tuple(C, given).value.Some?
    ensures var t := Tuple(C, given).value.value.cells;
      && |t| == C.dim + 1
      && (forall i :: 0 <= i < |t| ==> t[i].dim == i)
      && (forall i :: 0 <= i < |t| - 1 ==> Incident(C, t[i], t[i + 1]))
  {
    TupleAssembled(C, given);
    var cs := Arrange(C, Start(C, given).value);
    var path := Connect(C, cs).value;
    assert FullFace(C) in cs;
    AssembledDims(C, cs, path);
    AssembledIncident(C, cs, path);
  }

  /** Every start cell of dimension 0..n sits in the tuple at the index of
      its dimension. */
  lemma TupleHoldsStart(C: Complex, given: seq<Cell>)
    requires Graded(C) && Lower(C, FullFace(C)) == []
    requires Tuple(C, given).Success? && Tuple(C, given).value.Some?
    ensures forall c :: c in Start(C, given).value && 0 <= c.dim <= C.dim ==>
      Tuple(C, given).value.value.cells[c.dim] == c
  {
    TupleAssembled(C, given);
    var cells := Start(C, given).value;
    var cs := Arrange(C, cells);
    var path := Connect(C, cs).value;
    var t := Tuple(C, given).value.value.cells;
    assert FullFace(C) in cs;
    AssembledDims(C, cs, path);
    AssembledMembers(C, cs, path);
    forall c | c in cells && 0 <= c.dim <= C.dim ensures t[c.dim] == c {
      assert c in cs;
      var i :| 0 <= i < |t| && t[i] == c;
    }
  }

  /** With the first vertex as the only start cell, the tuple begins with
      that vertex. */
  lemma TupleFromFirstVertex(C: Complex)
    requires Graded(C) && Lower(C, FullFace(C)) == []
    requires Tuple(C, []).Success? && Tuple(C, []).value.Some?
    ensures Tuple(C, []).value.value.cells[0] == Bucket(C, 0)[0]
  {
    TupleHoldsStart(C, []);
    assert Bucket(C, 0)[0] in Bucket(C, 0);
  }

  /** Between two different cells of a sorted list some neighbours differ. */
  lemma {:induction false} NeighboursDiffer(cs: seq<Cell>, i: int, k: int) returns (j: int)
    requires 0 <= i < k < |cs| && cs[i] != cs[k]
    ensures i <= j < k && cs[j] != cs[j + 1]
    decreases k - i
  {
    if cs[i] != cs[i + 1] {
      j := i;
    } else {
      j := NeighboursDiffer(cs, i + 1, k);
    }
  }

  /** Two different start cells of the same dimension admit no tuple:
      somewhere between them two different cells of that dimension are
      neighbours, and no rising path joins those. */
  lemma TupleSameDimension(C: Complex, given: seq<Cell>, a: Cell, b: Cell)
    requires Graded(C)
    requires a in given && b in given && a != b && a.dim == b.dim
    ensures Tuple(C, given) == Success(None)
  {
    var cs := Arrange(C, given);
    assert Start(C, given) == Some(given);
    var j := AdjacentSameDim(cs, a, b);
    var x, y := cs[j], cs[j + 1];
    assert RisingPath(C, x, y).None?;
    assert Broken(C, cs);
  }

  /** Two different cells of one dimension in a sorted list have two
      different neighbours of that dimension between them. */
  lemma AdjacentSameDim(cs: seq<Cell>, a: Cell, b: Cell) returns (j: int)
    requires Sorted(cs) && a in cs && b in cs && a != b && a.dim == b.dim
    ensures 0 <= j < |cs| - 1 && cs[j] != cs[j + 1] && cs[j].dim == cs[j + 1].dim
  {
    var ia :| 0 <= ia < |cs| && cs[ia] == a;
    var ib :| 0 <= ib < |cs| && cs[ib] == b;
    var lo, hi := if ia < ib then ia else ib, if ia < ib then ib else ia;
    j := NeighboursDiffer(cs, lo, hi);
    SortedDims(cs, lo, j, hi);
    SortedDims(cs, lo, j + 1, hi);
  }

  /** Some two consecutive cells of `cs` are not joined by an upward path. */
  ghost predicate Unjoined(C: Complex, cs: seq<Cell>) {
    exists j :: 0 <= j < |cs| - 1 && !Joined(C, cs[j], cs[j + 1])
  }

  /** `tuple` answers nil exactly when there are start cells and some two
      consecutive ones (with the full face last, in `Cell#<=>` order) are
      not joined by any upward path of coboundary entries. */
  lemma TupleNilIff(C: Complex, given: seq<Cell>)
    requires Graded(C)
    ensures Tuple(C, given) == Success(None) <==>
      Start(C, given).Some? && Unjoined(C, Arrange(C, Start(C, given).value))
  {
    if Start(C, given).Some? {
      var cs := Arrange(C, Start(C, given).value);
      forall j | 0 <= j < |cs| - 1
        ensures RisingPath(C, cs[j], cs[j + 1]).None? <==> !Joined(C, cs[j], cs[j + 1])
      {
        RisingPathIff(C, cs[j], cs[j + 1]);
      }
    }
  }

  /** `falling_path(c)` descends all the way to a vertex, one cell per
      dimension (for the empty face: the empty path), and `c` is not the
      full face. */
  ghost predicate Grounded(C: Complex, c: Cell)
    requires Graded(C)
  {
    c != FullFace(C) && |FallingPath(C, c)| == c.dim + 1
  }

  /** Nothing lies above the full face, so a rising path from it stays put. */
  lemma NothingAboveFull(C: Complex, t: Cell)
    requires Graded(C) && RisingPath(C, FullFace(C), t).Some?
    ensures t == FullFace(C) && RisingPath(C, FullFace(C), t) == Some([])
  {
  }

  /** When the start cells are joined, everything after the full face is
      the full face again, so the last start cell is the full face. */
  lemma {:induction false} FullLast(C: Complex, cs: seq<Cell>, j: int)
    requires Graded(C) && 0 <= j < |cs| && cs[j] == FullFace(C) && !Broken(C, cs)
    ensures cs[|cs| - 1] == FullFace(C)
    decreases |cs| - j
  {
    if j < |cs| - 1 {
      assert RisingPath(C, cs[j], cs[j + 1]).Some?;
      NothingAboveFull(C, cs[j + 1]);
      FullLast(C, cs, j + 1);
    }
  }

  /** The assembled cells of a joined search number one per dimension up to
      n exactly when the lowest start cell is grounded. */
  lemma AssembledLength(C: Complex, cs: seq<Cell>, path: seq<Cell>)
    requires Graded(C) && Lower(C, FullFace(C)) == []
    requires |cs| > 0 && cs[|cs| - 1] == FullFace(C) && Threads(C, cs, path)
    ensures |Assemble(C, cs, path)| == C.dim + 1 <==> Grounded(C, cs[0])
  {
    if cs[0] == FullFace(C) {
      FallingPathOfFull(C);
    } else {
      assert path != [] && path[|path| - 1] == FullFace(C);
      assert |path| == C.dim + 1 - cs[0].dim;
    }
  }

  /** `tuple` fails its length check exactly when there are start cells,
      they are joined, and the lowest one is not grounded; so a joined
      search from a grounded lowest cell returns a tuple. */
  lemma TupleBadIff(C: Complex, given: seq<Cell>)
    requires Graded(C) && Lower(C, FullFace(C)) == []
    ensures Tuple(C, given) == Failure(BadTuple) <==>
      && Start(C, given).Some? && !Broken(C, Arrange(C, Start(C, given).value))
      && !Grounded(C, Arrange(C, Start(C, given).value)[0])
    ensures (Start(C, given).Some? && !Broken(C, Arrange(C, Start(C, given).value))
             && Grounded(C, Arrange(C, Start(C, given).value)[0])) ==>
      Tuple(C, given).Success? && Tuple(C, given).value.Some?
  {
    if Start(C, given).Some? {
      var cs := Arrange(C, Start(C, given).value);
      if !Broken(C, cs) {
        var path := Connect(C, cs).value;
        assert FullFace(C) in cs;
        var j :| 0 <= j < |cs| && cs[j] == FullFace(C);
        FullLast(C, cs, j);
        AssembledLength(C, cs, path);
      }
    }
  }

  /** With no cells given and the first vertex joined to the full face,
      `tuple()` returns a tuple: a vertex is its own falling path. */
  lemma TupleOfFirstVertex(C: Complex)
    requires Graded(C) && Lower(C, FullFace(C)) == []
    requires Bucket(C, 0) != [] && Joined(C, Bucket(C, 0)[0], FullFace(C))
    ensures Tuple(C, []).Success? && Tuple(C, []).value.Some?
  {
    var v := Bucket(C, 0)[0];
    assert v in Bucket(C, 0);
    var cs := Arrange(C, [v]);
    assert cs[0] == v && cs[1] == FullFace(C) by {
      assert cs[0] in cs && cs[1] in cs;
      assert v in cs && FullFace(C) in cs;
      LeRespectsDimension(cs[0], cs[1]);
    }
    RisingPathIff(C, v, FullFace(C));
    assert !Broken(C, cs);
    TupleBadIff(C, []);
  }
}
