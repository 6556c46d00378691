/** What the phases of `flip` do (lib/simplicial_complex.rb): the deletions
    remove the flipped-out cells, the rebuild keeps the complex sound and
    reuses a face exactly when it is filed under the new boundary, and the
    cleanup leaves no filed face both present and without a coface. */
module FlipFacts {
  import opened Wrappers
  import opened Lists
  import opened Cells
  import opened Complex
  import opened Insertion
  import opened Deletion
  import opened Piecewise
  import opened Simplices
  import opened Star
  import opened StarFacts
  import opened FaceIndex
  import opened FlipSteps

  /** The rebuild's invariant: a sound complex of dimension n, and every
      cone one dimension above its face. */
  ghost predicate Valid(s: Building, n: nat) {
    Sound(s.plc.complex) && s.plc.complex.dim == n && ConesGraded(s.cones)
  }

  /** The table at index i holds (i+1)-cells, and none above dimension n. */
  ghost predicate TablesDims(ts: seq<Table>, n: nat) {
    forall i, j :: 0 <= i < |ts| && 0 <= j < |ts[i]| ==> ts[i][j].face.dim == i + 1 && i + 1 <= n
  }

  /** The face a lookup finds has the dimension of its table. */
  lemma FoundDim(ts: seq<Table>, n: nat, d: nat, key: seq<Cell>, e: Cell)
    requires TablesDims(ts, n) && d < |ts| && Lookup(ts[d], key) == Some(e)
    ensures e.dim == d + 1
  {
    var j :| 0 <= j < |ts[d]| && ts[d][j] == Entry(key, e);
  }

  /** One face keeps the rebuild valid: a found face has the dimension of
      the cone it stands for, an added one is a cone step. */
  lemma FlipOneValid(s: Building, ts: seq<Table>, n: nat, d: nat, cell: Cell)
    requires Valid(s, n) && TablesDims(ts, n) && d < |ts| && cell.dim == d
    ensures FlipOne(s, ts, d, cell).Success? ==> Valid(FlipOne(s, ts, d, cell).value, n)
  {
    var cb := ConeBoundary(s.cones, Down(s.plc.complex, cell, 1));
    if cb.Success? {
      var key := Sort(cb.value + [cell]);
      var found := Lookup(ts[d], key);
      if found.Some? {
        FoundDim(ts, n, d, key, found.value);
        ReuseValid(s, n, cell, found.value);
        assert FlipOne(s, ts, d, cell) == Success(Building(s.plc, s.cones[cell := found.value], found.value));
      } else {
        AddConeValid(s, n, cell, cb.value);
        assert FlipOne(s, ts, d, cell) == AddCone(s, cell, cb.value + [cell]);
      }
    }
  }

  /** Reusing a face one dimension above the cell keeps the rebuild valid. */
  lemma ReuseValid(s: Building, n: nat, cell: Cell, e: Cell)
    requires Valid(s, n) && e.dim == cell.dim + 1
    ensures Valid(Building(s.plc, s.cones[cell := e], e), n)
  {
  }

  /** Adding the cone over a cell's facets, followed by the cell, is a cone
      step. */
  lemma AddConeValid(s: Building, n: nat, cell: Cell, b: seq<Cell>)
    requires Valid(s, n) && ConeBoundary(s.cones, Down(s.plc.complex, cell, 1)) == Success(b)
    ensures AddCone(s, cell, b + [cell]).Success? ==> Valid(AddCone(s, cell, b + [cell]).value, n)
  {
    if AddCone(s, cell, b + [cell]).Success? {
      var m := PlcAdd(s.plc, Boundary(b + [cell])).value;
      ConeOneAdded(s.plc.complex, s.cones, cell, b, Added(m.plc.complex, m.cell));
    }
  }

  /** The faces of one dimension keep the rebuild valid. */
  lemma {:induction false} FlipEachValid(s: Building, ts: seq<Table>, n: nat, d: nat, cells: seq<Cell>, i: nat)
    requires Valid(s, n) && TablesDims(ts, n) && d < |ts| && i <= |cells|
    requires forall c :: c in cells ==> c.dim == d
    ensures FlipEach(s, ts, d, cells, i).Success? ==> Valid(FlipEach(s, ts, d, cells, i).value, n)
    decreases |cells| - i
  {
    if i < |cells| {
      FlipOneValid(s, ts, n, d, cells[i]);
      var s1 := FlipOne(s, ts, d, cells[i]);
      if s1.Success? {
        FlipEachValid(s1.value, ts, n, d, cells, i + 1);
      }
    }
  }

  /** Every dimension of a round keeps the rebuild valid: the faces of
      dimension d of the round's simplex are d-cells. */
  lemma {:induction false} FlipLevelsValid(s: Building, ts: seq<Table>, n: nat, simplex: Cell, d: nat, top: int)
    requires Valid(s, n) && TablesDims(ts, n) && top < |ts| && top <= simplex.dim
    ensures FlipLevels(s, ts, simplex, d, top).Success? ==> Valid(FlipLevels(s, ts, simplex, d, top).value, n)
    decreases top + 1 - d
  {
    if d <= top {
      var cells := Faces(s.plc.complex, simplex, d);
      FacesAllDims(s.plc.complex, simplex, d);
      FlipEachValid(s, ts, n, d, cells, 0);
      var s1 := FlipEach(s, ts, d, cells, 0);
      if s1.Success? {
        FlipLevelsValid(s1.value, ts, n, simplex, d + 1, top);
      }
    }
  }

  lemma FacesAllDims(C: Complex, simplex: Cell, d: int)
    requires Graded(C) && 0 <= d <= simplex.dim
    ensures forall c :: c in Faces(C, simplex, d) ==> c.dim == d
  {
    forall c | c in Faces(C, simplex, d) ensures c.dim == d {
      FacesDims(C, simplex, d, c);
    }
  }

  /** Every round keeps the rebuild valid: each starts by coning the empty
      face to a vertex. */
  lemma {:induction false} FlipRoundsValid(n: nat, s: Building, ts: seq<Table>, av: seq<Cell>, i: nat)
    requires Valid(s, n) && TablesDims(ts, n) && |ts| == n + 1
    requires forall v :: v in av ==> v.dim == 0
    ensures FlipRounds(n, s, ts, av, i).Success? ==> Valid(FlipRounds(n, s, ts, av, i).value, n)
    decreases n + 1 - i
  {
    if i <= n {
      var simplex := s.newest;
      var h := StartCones(av, i);
      assert ConesGraded(h) by {
        if i + 1 < |av| {
          assert av[i + 1] in av;
        }
      }
      var s0 := Building(s.plc, h, simplex);
      FlipLevelsValid(s0, ts, n, simplex, 0, RoundTop(n, simplex));
      var s1 := FlipLevels(s0, ts, simplex, 0, RoundTop(n, simplex));
      if s1.Success? {
        FlipRoundsValid(n, s1.value, ts, av, i + 1);
      }
    }
  }

  /** One face either reuses the face filed under the sorted cone boundary,
      leaving the complex as it was, or adds a fresh cell whose boundary is
      the cone boundary; in the first case the face found is, before the
      flip, a face of a flipped-out cell whose sorted boundary was that
      same sorted boundary. */
  lemma FlipOneReuses(s: Building, ts: seq<Table>, d: nat, cell: Cell, C0: Complex, out: seq<Cell>, f: Filing)
    requires Indexed(C0, out, ts, f) && d < |ts|
    ensures var r := FlipOne(s, ts, d, cell);
      var cb := ConeBoundary(s.cones, Down(s.plc.complex, cell, 1));
      r.Success? ==>
        && cb.Success?
        && (r.value.plc == s.plc <==> Lookup(ts[d], Sort(cb.value + [cell])).Some?)
        && (r.value.plc == s.plc ==>
              && Sort(Down(C0, r.value.newest, 1)) == Sort(cb.value + [cell])
              && FaceOf(C0, out, r.value.newest, C0.dim - 1 - d, f))
        && (r.value.plc != s.plc ==>
              && s.plc.complex.nextId <= r.value.newest.id
              && (r.value.newest.dim != 0 ==> Lower(r.value.plc.complex, r.value.newest) == cb.value + [cell]))
  {
    var r := FlipOne(s, ts, d, cell);
    var cb := ConeBoundary(s.cones, Down(s.plc.complex, cell, 1));
    if r.Success? {
      var key := Sort(cb.value + [cell]);
      var found := Lookup(ts[d], key);
      if found.Some? {
        Found(C0, out, ts, d, key, found.value, f);
      } else {
        var m := PlcAdd(s.plc, Boundary(cb.value + [cell])).value;
        assert r.value == Building(m.plc, s.cones[cell := m.cell], m.cell);
        assert m.plc.complex.nextId > m.cell.id >= s.plc.complex.nextId;
      }
    }
  }

  /** Every cell the deletion phase is given ends up gone, provided none is
      the full face. */
  lemma {:induction false} DeleteAllGone(C: Complex, cs: seq<Cell>, i: nat)
    requires Graded(C) && i <= |cs|
    requires forall c :: c in cs ==> c.dim <= C.dim
    ensures forall j :: i <= j < |cs| ==> Gone(DeleteAll(C, cs, i), cs[j])
    decreases |cs| - i
  {
    if i < |cs| {
      var C1 := Delete(C, cs[i]);
      var r := DeleteAll(C1, cs, i + 1);
      assert cs[i] in cs;
      DeleteAllGone(C1, cs, i + 1);
      assert DeleteAll(C, cs, i) == r;
      forall j | i <= j < |cs| ensures Gone(r, cs[j]) {
        if j == i {
          GoneShrinks(C1, r, cs[i]);
        }
      }
    }
  }

  /** A gone cell stays gone under removals. */
  lemma GoneShrinks(C: Complex, D: Complex, x: Cell)
    requires Shrinks(C, D) && Gone(C, x)
    ensures Gone(D, x)
  {
  }

  /** After the cleanup a filed face is either gone or has a coface. */
  ghost predicate Settled(C: Complex, v: Cell) {
    Gone(C, v) || Upper(C, v) != []
  }

  /** Deleting a cell without cofaces only detaches and drops it. */
  lemma DeleteLeaf(C: Complex, v: Cell)
    requires Graded(C) && Upper(C, v) == [] && v != FullFace(C)
    ensures Delete(C, v) == Remove(C, v)
  {
    assert DeleteEach(C, v, [], 0) == C;
  }

  /** Deleting a cell without cofaces leaves every cell of its dimension
      or above settled if it was: such a cell cannot have the deleted one
      as a coface. */
  lemma SettledKept(C: Complex, v: Cell, x: Cell)
    requires Graded(C) && Upper(C, v) == [] && v != FullFace(C)
    requires x.dim >= v.dim && Settled(C, x)
    ensures Settled(Delete(C, v), x)
  {
    DeleteLeaf(C, v);
    if !Gone(C, x) {
      var z := Upper(C, x)[0];
      assert z in Upper(C, x);
      assert z.dim == x.dim + 1;
      assert z in Upper(Delete(C, v), x);
    }
  }

  /** Every face of the table is a k-cell, below the full face of an
      n-complex. */
  ghost predicate OneDim(tb: Table, k: int, n: int) {
    forall m :: 0 <= m < |tb| ==> tb[m].face.dim == k && k <= n
  }

  /** The table a cleanup stage works on holds faces of one dimension. */
  lemma StageOneDim(ts: seq<Table>, n: nat, d: nat)
    requires TablesDims(ts, n) && |ts| == n + 1 && d < |ts|
    ensures OneDim(ts[n - d], n - d + 1, n)
  {
    var i := n - d;
    var tb := ts[i];
    forall m | 0 <= m < |tb| ensures tb[m].face.dim == i + 1 && i + 1 <= n {
      assert ts[i][m].face.dim == i + 1 && i + 1 <= n;
    }
    assert OneDim(tb, i + 1, n);
  }

  /** One table's pass keeps settled every cell at or above the table's
      dimension. */
  lemma {:induction false} CleanTableKeeps(C: Complex, tb: Table, j: nat, k: int, x: Cell)
    requires Graded(C) && j <= |tb|
    requires OneDim(tb, k, C.dim)
    requires x.dim >= k && Settled(C, x)
    ensures Settled(CleanTable(C, tb, j), x)
    decreases |tb| - j
  {
    if j < |tb| {
      var v := tb[j].face;
      var C1 := if Upper(C, v) == [] then Delete(C, v) else C;
      if Upper(C, v) == [] {
        SettledKept(C, v, x);
      }
      assert CleanTable(C, tb, j) == CleanTable(C1, tb, j + 1);
      CleanTableKeeps(C1, tb, j + 1, k, x);
    }
  }

  /** One table's pass settles every face it holds from position j on. */
  lemma {:induction false} CleanTableSettles(C: Complex, tb: Table, j: nat, k: int, m: nat)
    requires Graded(C) && j <= m < |tb|
    requires OneDim(tb, k, C.dim)
    ensures Settled(CleanTable(C, tb, j), tb[m].face)
    decreases |tb| - j
  {
    var v := tb[j].face;
    var C1 := if Upper(C, v) == [] then Delete(C, v) else C;
    assert CleanTable(C, tb, j) == CleanTable(C1, tb, j + 1);
    if m == j {
      assert Settled(C1, v);
      CleanTableKeeps(C1, tb, j + 1, k, v);
    } else {
      CleanTableSettles(C1, tb, j + 1, k, m);
    }
  }

  /** What the cleanup lemmas assume: a graded complex and tables of faces
      no higher than its dimension, one per dimension up to one above it. */
  ghost predicate Cleanable(C: Complex, ts: seq<Table>) {
    Graded(C) && |ts| == C.dim + 1 && TablesDims(ts, C.dim)
  }

  /** A stage keeps the complex cleanable. */
  lemma CleanLevelCleanable(C: Complex, ts: seq<Table>, d: nat)
    requires Cleanable(C, ts) && d < |ts|
    ensures Cleanable(CleanLevel(C, ts, d), ts)
  {
  }

  /** Stage d keeps settled every cell above the dimension it works on. */
  lemma CleanLevelKeeps(C: Complex, ts: seq<Table>, d: nat, x: Cell)
    requires Graded(C) && |ts| == C.dim + 1 && d < |ts| && OneDim(ts[C.dim - d], C.dim - d + 1, C.dim)
    requires x.dim >= C.dim - d + 1 && Settled(C, x)
    ensures Settled(CleanLevel(C, ts, d), x)
  {
    var tb, k := ts[C.dim - d], C.dim - d + 1;
    assert CleanLevel(C, ts, d) == CleanTable(C, tb, 0);
    CleanTableKeeps(C, tb, 0, k, x);
  }

  /** Stage d settles every face in its table. */
  lemma CleanLevelSettles(C: Complex, ts: seq<Table>, d: nat, m: nat, v: Cell)
    requires Graded(C) && |ts| == C.dim + 1 && d < |ts| && OneDim(ts[C.dim - d], C.dim - d + 1, C.dim)
    requires m < |ts[C.dim - d]| && v == ts[C.dim - d][m].face
    ensures Settled(CleanLevel(C, ts, d), v)
  {
    CleanTableSettles(C, ts[C.dim - d], 0, C.dim - d + 1, m);
  }

  /** One stage keeps the complex cleanable and every cell above its
      dimension settled. */
  lemma CleanStageKeeps(C: Complex, ts: seq<Table>, d: nat, x: Cell)
    requires Cleanable(C, ts) && d < |ts|
    requires x.dim >= C.dim - d + 1 && Settled(C, x)
    ensures Cleanable(CleanLevel(C, ts, d), ts) && Settled(CleanLevel(C, ts, d), x)
  {
    StageOneDim(ts, C.dim, d);
    CleanLevelKeeps(C, ts, d, x);
    CleanLevelCleanable(C, ts, d);
  }

  /** One stage of the cleanup cleans the table for its dimension. */
  lemma {:induction false} CleanupStep(C: Complex, ts: seq<Table>, d: nat)
    requires Graded(C) && |ts| == C.dim + 1 && d < |ts|
    ensures Cleanup(C, ts, d) == Cleanup(CleanLevel(C, ts, d), ts, d + 1)
  {
  }

  /** The stages from d on keep settled every cell above the dimension
      stage d works on. */
  lemma {:induction false} CleanupKeeps(C: Complex, ts: seq<Table>, d: nat, x: Cell)
    requires Cleanable(C, ts)
    requires x.dim >= C.dim - d + 1 && Settled(C, x)
    ensures Settled(Cleanup(C, ts, d), x)
    decreases |ts| - d
  {
    if d < |ts| {
      var C1 := CleanLevel(C, ts, d);
      CleanStageKeeps(C, ts, d, x);
      CleanupStep(C, ts, d);
      CleanupKeeps(C1, ts, d + 1, x);
    }
  }

  /** The stage for a table's dimension settles its faces for good: later
      stages only work below it. */
  lemma CleanupSettlesAt(C: Complex, ts: seq<Table>, d: nat, m: nat)
    requires Cleanable(C, ts)
    requires d < |ts| && m < |ts[C.dim - d]|
    ensures Settled(Cleanup(C, ts, d), ts[C.dim - d][m].face)
  {
    var C1 := CleanLevel(C, ts, d);
    var v := ts[C.dim - d][m].face;
    StageOneDim(ts, C.dim, d);
    CleanLevelSettles(C, ts, d, m, v);
    CleanLevelCleanable(C, ts, d);
    CleanupKeeps(C1, ts, d + 1, v);
    CleanupStep(C, ts, d);
  }

  /** The cleanup settles every face filed in a table it has yet to pass
      over: tables are cleaned from the highest dimension down, so deleting
      a face can strip the last coface only from cells not yet visited. */
  lemma {:induction false} CleanupSettles(C: Complex, ts: seq<Table>, d: nat, i: nat, m: nat)
    requires Cleanable(C, ts)
    requires i + d <= C.dim && m < |ts[i]|
    ensures Settled(Cleanup(C, ts, d), ts[i][m].face)
    decreases |ts| - d
  {
    if i == C.dim - d {
      CleanupSettlesAt(C, ts, d, m);
    } else {
      var C1 := CleanLevel(C, ts, d);
      CleanLevelCleanable(C, ts, d);
      CleanupSettles(C1, ts, d + 1, i, m);
      CleanupStep(C, ts, d);
    }
  }
}
