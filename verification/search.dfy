/** The private searches behind `CellComplex#tuple`: a descent through the
    first facet of each cell, and a depth-first ascent through coboundary
    lists (lib/cell_complex.rb). */
module Search {
  import opened Wrappers
  import opened Cells
  import opened Complex

  /** The dimensions along `p` count up by one from `d`. */
  ghost predicate DimsFrom(p: seq<Cell>, d: int) {
    forall i :: 0 <= i < |p| ==> p[i].dim == d + i
  }

  /** Each cell of `p` is a facet of the next one. */
  ghost predicate DownChain(C: Complex, p: seq<Cell>) {
    forall i :: 0 <= i < |p| - 1 ==> p[i] in Lower(C, p[i + 1])
  }

  /** Each cell of `p` lists the next one in its coboundary. */
  ghost predicate UpChain(C: Complex, p: seq<Cell>) {
    forall i :: 0 <= i < |p| - 1 ==> p[i + 1] in Upper(C, p[i])
  }

  /** A facet sits one dimension below its cell, so only cells of dimension
      0 or more have facets. */
  lemma FacetBelow(C: Complex, c: Cell, f: Cell)
    requires Graded(C) && f in Lower(C, c)
    ensures f.dim == c.dim - 1 && c.dim >= 0
  {
  }

  /** The empty face has no facets in a graded complex. */
  lemma NoFacetsBelowVertices(C: Complex, s: Cell)
    requires Graded(C) && s.dim < 0
    ensures Lower(C, s) == []
  {
    if Lower(C, s) != [] {
      FacetBelow(C, s, Lower(C, s)[0]);
    }
  }

  /** `falling_path(s)`: a vertex is its own path; otherwise the path through
      the first facet, extended by `s`. When `s` has no facets the Ruby loop
      falls through and returns the (empty) facet list itself, so the result
      is empty rather than `nil`, and the caller above appends itself to
      it. The result, when not empty, descends facet by facet from its first
      cell, one dimension at a time, and ends at `s`. */
  function FallingPath(C: Complex, s: Cell): (r: seq<Cell>)
    requires Graded(C)
    ensures s.dim == 0 ==> r == [s]
    ensures r == [] <==> s.dim != 0 && Lower(C, s) == []
    ensures r != [] ==> r[|r| - 1] == s && DimsFrom(r, r[0].dim) && DownChain(C, r)
    decreases s.dim + 1
  {
    if s.dim == 0 then [s]
    else if Lower(C, s) == [] then []
    else
      if s.dim < 0 then NoFacetsBelowVertices(C, s); assert false; []
      else
        var f := Lower(C, s)[0];
        FacetBelow(C, s, f);
        var p := FallingPath(C, f);
        if p == [] then [s]
        else
          DescendTo(C, s, f, p);
          p + [s]
  }

  /** A descending path ending at the facet `f` of `s`, extended by `s`. */
  lemma DescendTo(C: Complex, s: Cell, f: Cell, p: seq<Cell>)
    requires f in Lower(C, s) && f.dim == s.dim - 1
    requires p != [] && p[|p| - 1] == f && DimsFrom(p, p[0].dim) && DownChain(C, p)
    ensures DimsFrom(p + [s], p[0].dim) && DownChain(C, p + [s])
  {
    var q := p + [s];
    assert forall i :: 0 <= i < |p| ==> q[i] == p[i];
    assert f.dim == p[0].dim + |p| - 1;
  }

  /** `rising_path(s, t)`: the empty path when `s == t`; `nil` when `s` is
      not below `t`; otherwise the first path found by a depth-first search
      through the coboundary lists, in list order. A path found climbs one
      dimension per step along coboundary entries from `s` and ends at `t`. */
  function RisingPath(C: Complex, s: Cell, t: Cell): (r: Option<seq<Cell>>)
    requires Graded(C)
    ensures r.Some? ==> UpChain(C, [s] + r.value) && DimsFrom(r.value, s.dim + 1)
    ensures r.Some? ==> (r.value == [] <==> s == t)
    ensures r.Some? && r.value != [] ==> r.value[|r.value| - 1] == t
    ensures s != t && s.dim >= t.dim ==> r.None?
    decreases t.dim - s.dim, 1
  {
    if s == t then Some([])
    else if s.dim >= t.dim then None
    else RisingEach(C, s, Upper(C, s), t)
  }

  /** The `@upper[s].each` loop of `rising_path`: the first coface in `ups`
      from which `t` can be reached, prefixed to that path. */
  function RisingEach(C: Complex, s: Cell, ups: seq<Cell>, t: Cell): (r: Option<seq<Cell>>)
    requires Graded(C) && s.dim < t.dim
    requires forall u :: u in ups ==> u in Upper(C, s)
    ensures r.None? ==> forall u {:trigger RisingPath(C, u, t)} :: u in ups ==> RisingPath(C, u, t).None?
    ensures r.Some? ==> r.value != [] && r.value[0] in ups && RisingPath(C, r.value[0], t).Some?
    ensures r.Some? ==> r.value[|r.value| - 1] == t
    ensures r.Some? ==> UpChain(C, [s] + r.value) && DimsFrom(r.value, s.dim + 1)
    decreases t.dim - s.dim, 0, |ups|
  {
    if |ups| == 0 then None
    else
      var u := ups[0];
      assert u in Upper(C, s);
      match RisingPath(C, u, t)
      case Some(p) =>
        var q := [u] + p;
        ClimbFrom(C, s, u, p, q, t);
        Some(q)
      case None =>
        var tail := ups[1..];
        assert forall x :: x in tail ==> x in ups;
        var rest := RisingEach(C, s, tail, t);
        assert forall x {:trigger RisingPath(C, x, t)} :: x in ups && x != u ==> x in tail;
        rest
  }

  /** A coface in front of an ascending chain keeps it ascending. */
  lemma UpChainCons(C: Complex, s: Cell, q: seq<Cell>)
    requires q != [] && q[0] in Upper(C, s) && UpChain(C, q)
    ensures UpChain(C, [s] + q)
  {
    var sq := [s] + q;
    forall i | 0 <= i < |sq| - 1 ensures sq[i + 1] in Upper(C, sq[i]) {
      if i > 0 {
        assert sq[i] == q[i - 1] && sq[i + 1] == q[i];
      }
    }
  }

  /** The path found through coface `u` of `s`, seen from `s`. */
  lemma ClimbFrom(C: Complex, s: Cell, u: Cell, p: seq<Cell>, q: seq<Cell>, t: Cell)
    requires q == [u] + p
    requires Graded(C) && u in Upper(C, s)
    requires UpChain(C, [u] + p) && DimsFrom(p, u.dim + 1)
    requires p == [] ==> u == t
    requires p != [] ==> p[|p| - 1] == t
    ensures UpChain(C, [s] + q) && DimsFrom(q, s.dim + 1)
    ensures q != [] && q[0] == u && q[|q| - 1] == t
  {
    UpChainCons(C, s, q);
    forall i | 0 <= i < |q| ensures q[i].dim == s.dim + 1 + i {
      if i > 0 {
        assert q[i] == p[i - 1];
      }
    }
  }

  /** In a graded complex every upward step gains one dimension. */
  lemma {:induction false} ReachDims(C: Complex, a: Cell, b: Cell, k: nat)
    requires Graded(C) && Reaches(C, Upward, a, b, k)
    ensures b.dim == a.dim + k
    decreases k
  {
    if k > 0 {
      var u := ReachFirst(C, a, b, k);
      ReachDims(C, u, b, k - 1);
    }
  }

  /** An ascending chain is a path of the incidence graph. */
  lemma {:induction false} ChainReaches(C: Complex, p: seq<Cell>)
    requires |p| > 0 && UpChain(C, p)
    ensures Reaches(C, Upward, p[0], p[|p| - 1], |p| - 1)
    decreases |p|
  {
    if |p| > 1 {
      var q := p[1..];
      assert UpChain(C, q) by {
        forall i | 0 <= i < |q| - 1 ensures q[i + 1] in Upper(C, q[i]) {
          assert q[i] == p[i + 1] && q[i + 1] == p[i + 2];
        }
      }
      ChainReaches(C, q);
      assert p[1] in Upper(C, p[0]);
      ReachCons(C, p[0], p[1], p[|p| - 1], |p| - 2);
    }
  }

  /** The depth-first search is complete: `rising_path(s, t)` finds a path
      whenever `t` can be reached from `s` through coboundary lists. */
  lemma {:induction false} RisingPathComplete(C: Complex, s: Cell, t: Cell, k: nat)
    requires Graded(C) && Reaches(C, Upward, s, t, k)
    ensures RisingPath(C, s, t).Some?
    decreases k
  {
    if k > 0 {
      ReachDims(C, s, t, k);
      var u := ReachFirst(C, s, t, k);
      RisingPathComplete(C, u, t, k - 1);
      assert u in Upper(C, s);
    }
  }

  /** A path `rising_path` returns is a path of the incidence graph. */
  lemma RisingPathSound(C: Complex, s: Cell, t: Cell)
    requires Graded(C) && RisingPath(C, s, t).Some?
    ensures Reaches(C, Upward, s, t, |RisingPath(C, s, t).value|)
  {
    var p := RisingPath(C, s, t).value;
    var q := [s] + p;
    ChainReaches(C, q);
    assert q[0] == s;
    if p != [] {
      assert q[|q| - 1] == p[|p| - 1];
    }
  }

  /** `t` is reachable from `s` through coboundary lists. */
  ghost predicate Joined(C: Complex, s: Cell, t: Cell) {
    exists k: nat :: Reaches(C, Upward, s, t, k)
  }

  /** `rising_path(s, t)` is not nil exactly when `t` is reachable from `s`
      through coboundary lists. */
  lemma RisingPathIff(C: Complex, s: Cell, t: Cell)
    requires Graded(C)
    ensures RisingPath(C, s, t).Some? <==> Joined(C, s, t)
  {
    if RisingPath(C, s, t).Some? {
      RisingPathSound(C, s, t);
      var n: nat := |RisingPath(C, s, t).value|;
      assert Reaches(C, Upward, s, t, n);
    }
    if exists k: nat :: Reaches(C, Upward, s, t, k) {
      var k: nat :| Reaches(C, Upward, s, t, k);
      RisingPathComplete(C, s, t, k);
    }
  }
}
