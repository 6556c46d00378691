/** The first phase of `SimplicialComplex#flip` (lib/simplicial_complex.rb):
    the vertices around a facet and the search for the top cells to flip
    out, a depth-first walk over tuples driven by `opposite_vertex` and
    `next_facet`. */
module FlipSearch {
  import opened Wrappers
  import opened Lists
  import opened Cells
  import opened Tuples
  import opened Complex
  import opened TupleQuery
  import opened Simplices
  import opened Piecewise

  /** `facet.up.map { |s| s.vertices }`: the vertex list of each cell above
      the facet, in coboundary order. */
  function VertexLists(C: Complex, facet: Cell): (vs: seq<seq<Cell>>)
    ensures |vs| == |Up(C, facet, 1)|
    ensures forall i :: 0 <= i < |vs| ==> vs[i] == Vertices(C, Up(C, facet, 1)[i])
  {
    var ups := Up(C, facet, 1);
    seq(|ups|, i requires 0 <= i < |ups| => Vertices(C, ups[i]))
  }

  /** `facet.up.map { |s| s.vertices }.flatten.uniq`: the vertices of the
      cells above the facet, each once (their order is `AllVerticesOrder`). */
  function AllVertices(C: Complex, facet: Cell): (av: seq<Cell>)
    ensures NoDup(av)
    ensures forall v :: v in av <==> exists s :: s in Up(C, facet, 1) && v in Vertices(C, s)
  {
    var ups := Up(C, facet, 1);
    var vs := VertexLists(C, facet);
    var flat := Flatten(vs);
    forall v ensures v in flat <==> exists s :: s in ups && v in Vertices(C, s) {
      if exists s :: s in ups && v in Vertices(C, s) {
        var s :| s in ups && v in Vertices(C, s);
        var i :| 0 <= i < |ups| && ups[i] == s;
        assert v in vs[i];
      }
    }
    Dedup(flat)
  }

  /** `map { |s| s.vertices }` over the cofaces from position i: only a
      Simplex has `vertices`, so a coface created as a Vertex or a plain
      Cell raises. */
  function VerticesEach(P: Plc, ups: seq<Cell>, i: nat): (r: Result<seq<seq<Cell>>, Error>)
    requires i <= |ups|
    ensures r.Failure? <==> exists k :: i <= k < |ups| && KindOf(P, ups[k]) != SimplexKind
    ensures r.Failure? ==> r.error == NoVertices
    ensures r.Success? ==>
      |r.value| == |ups| - i && forall k :: 0 <= k < |r.value| ==> r.value[k] == Vertices(P.complex, ups[i + k])
    decreases |ups| - i
  {
    if i == |ups| then Success([])
    else if KindOf(P, ups[i]) != SimplexKind then Failure(NoVertices)
    else
      var rest :- VerticesEach(P, ups, i + 1);
      Success([Vertices(P.complex, ups[i])] + rest)
  }

  /** The first line of `flip`: `all_vertices` when every cell above the
      facet is a Simplex, and a raise otherwise. */
  function CofaceVertices(P: Plc, facet: Cell): (r: Result<seq<Cell>, Error>)
    ensures r.Failure? <==> exists s :: s in Up(P.complex, facet, 1) && KindOf(P, s) != SimplexKind
    ensures r.Failure? ==> r.error == NoVertices
    ensures r.Success? ==> r.value == AllVertices(P.complex, facet)
  {
    var ups := Up(P.complex, facet, 1);
    var vs :- VerticesEach(P, ups, 0);
    assert vs == VertexLists(P.complex, facet);
    Success(Dedup(Flatten(vs)))
  }

  /** `all_vertices` is in reading order: the vertices of the first coface
      in that cell's vertex order, then those of the next coface not seen
      yet, and so on. */
  lemma AllVerticesOrder(C: Complex, facet: Cell)
    ensures var av, vs := AllVertices(C, facet), VertexLists(C, facet);
      forall i, j :: 0 <= i < j < |av| ==> Before(vs, av[i], av[j])
  {
    var vs := VertexLists(C, facet);
    var flat := Flatten(vs);
    var av := AllVertices(C, facet);
    assert av == Dedup(flat);
    DedupOrder(flat);
    FlattenOrder(vs);
    forall i, j | 0 <= i < j < |av| ensures Before(vs, av[i], av[j]) {
      assert First(flat, av[i]) < First(flat, av[j]);
    }
  }

  /** `t[@dim-1]`, the cell a visited mark is kept under; for n = 0 Ruby's
      index -1 names the tuple's only cell. */
  function Key(C: Complex, t: CellTuple): Cell
    requires |t.cells| == C.dim + 1
  {
    if C.dim == 0 then t.cells[0] else t.cells[C.dim - 1]
  }

  /** The cells a search starting from `t0` can meet: those of `t0` and the
      partners the switch table holds. */
  function Universe(C: Complex, t0: CellTuple): (u: set<Cell>)
    ensures forall c :: c in t0.cells ==> c in u
    ensures C.switch.Values <= u
  {
    (set c | c in t0.cells) + C.switch.Values
  }

  /** Every cell of `t` is in `univ`. */
  ghost predicate TupleIn(t: CellTuple, univ: set<Cell>) {
    forall c :: c in t.cells ==> c in univ
  }

  /** The stack holds full-length tuples over `univ`. */
  ghost predicate StackIn(C: Complex, q: seq<CellTuple>, univ: set<Cell>) {
    forall j :: 0 <= j < |q| ==> |q[j].cells| == C.dim + 1 && TupleIn(q[j], univ)
  }

  /** Popping the top tuple and pushing `pushed` keeps the stack over
      `univ`. */
  lemma PopPush(C: Complex, q: seq<CellTuple>, pushed: seq<CellTuple>, univ: set<Cell>)
    requires |q| > 0 && StackIn(C, q, univ) && StackIn(C, pushed, univ)
    ensures StackIn(C, q[..|q| - 1], univ) && StackIn(C, q[..|q| - 1] + pushed, univ)
  {
    var rest := q[..|q| - 1];
    forall j | 0 <= j < |rest + pushed|
      ensures |(rest + pushed)[j].cells| == C.dim + 1 && TupleIn((rest + pushed)[j], univ)
    {
      if j < |rest| {
        assert (rest + pushed)[j] == q[j];
      } else {
        assert (rest + pushed)[j] == pushed[j - |rest|];
      }
    }
  }

  /** Switching never leaves a set that holds the tuple's cells and every
      partner in the table. */
  lemma {:induction false} ChainIn(C: Complex, t: CellTuple, ks: seq<int>, univ: set<Cell>)
    requires C.switch.Values <= univ && TupleIn(t, univ)
    ensures var r := SwitchChain(C, Some(t), ks);
      r.Success? && r.value.Some? ==> TupleIn(r.value.value, univ)
    decreases |ks|
  {
    if |ks| > 0 {
      var v := Switch(C, ks[0], t);
      if v.Success? && v.value.Some? {
        var u := v.value.value;
        assert C.switch[SlotOf(C, ks[0], t).value] in C.switch.Values;
        assert TupleIn(u, univ) by {
          forall c | c in u.cells ensures c in univ {
            var i :| 0 <= i < |u.cells| && u.cells[i] == c;
            if i != ks[0] {
              assert t.cells[i] in t.cells;
            }
          }
        }
        ChainIn(C, u, ks[1..], univ);
      }
    }
  }

  /** `t` (a tuple whose top cell is `c`) arose from some tuple `w` by
      `opposite_vertex`, and its vertex is one of `av`. */
  ghost predicate FlippedOut(C: Complex, av: seq<Cell>, c: Cell) {
    exists w: CellTuple, u: CellTuple ::
      && |w.cells| == C.dim + 1 && |u.cells| == C.dim + 1
      && OppositeVertex(C, Some(w)) == Success(Some(u))
      && u.cells[0] in av && u.cells[C.dim] == c
  }

  /** `(@dim + 1).times do t = next_facet(t); q.push t if !visited[t[@dim-1]] end`,
      `count` turns left: the tuples pushed, in order. A `nil` next facet
      raises when its rank n-1 is read. */
  function Turn(C: Complex, t: CellTuple, visited: set<Cell>, count: nat, ghost univ: set<Cell>)
    : (r: Result<seq<CellTuple>, Error>)
    requires |t.cells| == C.dim + 1
    requires C.switch.Values <= univ && TupleIn(t, univ)
    ensures r.Failure? ==> r.error == NoTuple
    ensures r.Success? ==> StackIn(C, r.value, univ)
    ensures r.Success? ==> forall j :: 0 <= j < |r.value| ==>
      Key(C, r.value[j]) !in visited && r.value[j].cells[C.dim] == t.cells[C.dim]
    decreases count
  {
    if count == 0 then Success([])
    else
      var nf := NextFacet(C, Some(t)).value;
      match nf
      case None => Failure(NoTuple)
      case Some(t1) =>
        ChainIn(C, t, Countdown(C.dim - 1, C.dim), univ);
        var rest :- Turn(C, t1, visited, count - 1, univ);
        if Key(C, t1) in visited then Success(rest) else Success([t1] + rest)
  }

  /** The depth of the stale marker: 1 when the tuple on top of the stack
      has already been visited. */
  function Stale(C: Complex, q: seq<CellTuple>, visited: set<Cell>): nat
    requires |q| > 0 ==> |q[|q| - 1].cells| == C.dim + 1
  {
    if |q| > 0 && Key(C, q[|q| - 1]) in visited then 1 else 0
  }

  /** The state one pass of the loop body leaves: the stack, the visited
      marks and the top cell recorded, if any. */
  datatype Popped = Popped(q: seq<CellTuple>, visited: set<Cell>, found: Option<Cell>)

  /** `(a2, b2, c2)` comes lexicographically before `(a1, b1, c1)`. */
  predicate Below(a2: int, b2: int, c2: int, a1: int, b1: int, c1: int) {
    a2 < a1 || (a2 == a1 && (b2 < b1 || (b2 == b1 && c2 < c1)))
  }

  /** One pass of the `while !q.empty?` body: pop a tuple, mark its rank
      n-1 cell visited, move to the opposite vertex, and when that vertex
      is one of `av` record the top cell and push the unvisited tuples
      around it. Every tuple pushed carries a cell not yet visited and
      cells come from the finite `univ`, so the pass makes progress in
      the order of `Below`. */
  function Pop(C: Complex, av: seq<Cell>, q: seq<CellTuple>, visited: set<Cell>, ghost univ: set<Cell>)
    : (r: Result<Popped, Error>)
    requires |q| > 0 && C.switch.Values <= univ && StackIn(C, q, univ)
    ensures r.Failure? ==> r.error == NoTuple
    ensures r.Success? ==> StackIn(C, r.value.q, univ)
    ensures r.Success? ==>
      Below(|univ - r.value.visited|, Stale(C, r.value.q, r.value.visited), |r.value.q|,
            |univ - visited|, Stale(C, q, visited), |q|)
    ensures r.Success? && SwitchDims(C) && AllRanked(q) ==>
      AllRanked(r.value.q) && (r.value.found.Some? ==> r.value.found.value.dim == C.dim)
  {
    var t := q[|q| - 1];
    var rest := q[..|q| - 1];
    var k := Key(C, t);
    assert k in t.cells;
    Mark(univ, visited, k);
    var u := OppositeVertex(C, Some(t)).value;
    if u.Some? && u.value.cells[0] in av then
      ChainIn(C, t, Countdown(C.dim, C.dim + 1), univ);
      PopRankedFound(C, t, u.value, visited + {k}, univ);
      var pushed :- Turn(C, u.value, visited + {k}, C.dim + 1, univ);
      PopPush(C, q, pushed, univ);
      RankedPopPush(q, pushed);
      assert |pushed| > 0 ==> Stale(C, rest + pushed, visited + {k}) == 0 by {
        if |pushed| > 0 {
          assert (rest + pushed)[|rest + pushed| - 1] == pushed[|pushed| - 1];
        }
      }
      Success(Popped(rest + pushed, visited + {k}, Some(u.value.cells[C.dim])))
    else
      PopPush(C, q, [], univ);
      RankedPopPush(q, []);
      assert rest + [] == rest;
      Success(Popped(rest, visited + {k}, None))
  }

  /** The `while !q.empty?` loop, collecting the recorded cells after
      `out`. */
  function Search(C: Complex, av: seq<Cell>, q: seq<CellTuple>, visited: set<Cell>, out: seq<Cell>,
                  ghost univ: set<Cell>)
    : (r: Result<seq<Cell>, Error>)
    requires C.switch.Values <= univ && StackIn(C, q, univ)
    ensures r.Failure? ==> r.error == NoTuple
    decreases |univ - visited|, Stale(C, q, visited), |q|
  {
    if |q| == 0 then Success(out)
    else
      var p :- Pop(C, av, q, visited, univ);
      Search(C, av, p.q, p.visited, Record(out, p.found), univ)
  }

  /** `cells_to_flip_out << t[@dim]` when a cell was recorded. */
  function Record(out: seq<Cell>, found: Option<Cell>): (r: seq<Cell>)
    ensures found.None? ==> r == out
    ensures found.Some? ==> |r| == |out| + 1 && r[..|out|] == out && r[|out|] == found.value
  {
    match found
    case None => out
    case Some(c) => out + [c]
  }

  /** A cell the loop body records is the top cell of a tuple
      `opposite_vertex` reached with a vertex in `av`. */
  lemma PopFound(C: Complex, av: seq<Cell>, q: seq<CellTuple>, visited: set<Cell>, univ: set<Cell>)
    requires |q| > 0 && C.switch.Values <= univ && StackIn(C, q, univ)
    ensures var r := Pop(C, av, q, visited, univ);
      r.Success? && r.value.found.Some? ==> FlippedOut(C, av, r.value.found.value)
  {
    var t := q[|q| - 1];
    var u := OppositeVertex(C, Some(t)).value;
    if u.Some? && u.value.cells[0] in av {
      assert |t.cells| == C.dim + 1 && |u.value.cells| == C.dim + 1;
      assert OppositeVertex(C, Some(t)) == Success(Some(u.value));
    }
  }

  /** Every cell of `s` from position `from` on was flipped out. */
  ghost predicate FlippedFrom(C: Complex, av: seq<Cell>, s: seq<Cell>, from: int) {
    forall j :: 0 <= from <= j < |s| ==> FlippedOut(C, av, s[j])
  }

  /** `r` extends `out` with flipped-out cells only. */
  ghost predicate Extends(C: Complex, av: seq<Cell>, out: seq<Cell>, r: seq<Cell>) {
    |r| >= |out| && r[..|out|] == out && FlippedFrom(C, av, r, |out|)
  }

  lemma ExtendsTrans(C: Complex, av: seq<Cell>, out: seq<Cell>, c: Cell, r: seq<Cell>)
    requires FlippedOut(C, av, c) && Extends(C, av, out + [c], r)
    ensures Extends(C, av, out, r)
  {
    assert r[..|out|] == r[..|out| + 1][..|out|];
    forall j | |out| <= j < |r| ensures FlippedOut(C, av, r[j]) {
      if j == |out| {
        assert r[j] == r[..|out| + 1][j];
      }
    }
  }

  /** Marking the popped tuple's cell: the unvisited part of `univ` shrinks
      unless the cell was visited already. */
  lemma Mark(univ: set<Cell>, visited: set<Cell>, k: Cell)
    requires k in univ
    ensures k !in visited ==> |univ - (visited + {k})| < |univ - visited|
    ensures k in visited ==> visited + {k} == visited
  {
    if k !in visited {
      assert univ - visited == (univ - (visited + {k})) + {k};
    }
  }

  /** The search only appends to `out`, and every cell it appends is the
      top cell of a tuple `opposite_vertex` reached with a vertex in `av`. */
  lemma {:induction false} SearchFacts(C: Complex, av: seq<Cell>, q: seq<CellTuple>, visited: set<Cell>,
                                       out: seq<Cell>, univ: set<Cell>)
    requires C.switch.Values <= univ && StackIn(C, q, univ)
    ensures var r := Search(C, av, q, visited, out, univ);
      r.Success? ==> Extends(C, av, out, r.value)
    decreases |univ - visited|, Stale(C, q, visited), |q|
  {
    if |q| == 0 {
      assert out[..|out|] == out;
    } else {
      var p := Pop(C, av, q, visited, univ);
      if p.Success? {
        var out' := Record(out, p.value.found);
        SearchFacts(C, av, p.value.q, p.value.visited, out', univ);
        PopFound(C, av, q, visited, univ);
        var r := Search(C, av, p.value.q, p.value.visited, out', univ);
        if r.Success? && p.value.found.Some? {
          ExtendsTrans(C, av, out, p.value.found.value, r.value);
        }
      }
    }
  }

  /** The cells `flip` flips out: the top cell of `tuple(facet)` followed by
      those the search finds. A `nil` tuple raises when its top cell is
      read. */
  function CellsToFlipOut(C: Complex, facet: Cell, av: seq<Cell>): (r: Result<seq<Cell>, Error>)
    requires Graded(C)
    ensures r.Success? ==>
      && Tuple(C, [facet]).Success? && Tuple(C, [facet]).value.Some?
      && |r.value| >= 1 && r.value[0] == Tuple(C, [facet]).value.value.cells[C.dim]
    ensures r.Success? ==> FlippedFrom(C, av, r.value, 1)
    ensures Tuple(C, [facet]) == Success(None) ==> r == Failure(NoTuple)
    ensures r.Failure? ==> r.error in {NoVertex, BadTuple, NoTuple}
  {
    var t0 :- Tuple(C, [facet]);
    match t0
    case None => Failure(NoTuple)
    case Some(t) =>
      var univ := Universe(C, t);
      var r := Search(C, av, [t], {}, [t.cells[C.dim]], univ);
      SearchFacts(C, av, [t], {}, [t.cells[C.dim]], univ);
      assert r.Success? ==> r.value[0] == r.value[..1][0];
      r
  }

  /** The switch table pairs cells of one dimension: a partner has the
      dimension of its slot's middle cell. Every table `add` builds from
      uniform boundaries is of this kind. */
  ghost predicate SwitchDims(C: Complex) {
    forall s :: s in C.switch ==> C.switch[s].dim == s.mid.dim
  }

  /** The cell at rank i of the tuple has dimension i. */
  ghost predicate Ranked(t: CellTuple) {
    forall i :: 0 <= i < |t.cells| ==> t.cells[i].dim == i
  }

  /** Every tuple of the stack is ranked. */
  ghost predicate AllRanked(q: seq<CellTuple>) {
    forall j :: 0 <= j < |q| ==> Ranked(q[j])
  }

  lemma RankedPopPush(q: seq<CellTuple>, pushed: seq<CellTuple>)
    requires |q| > 0
    ensures AllRanked(q) && AllRanked(pushed) ==> AllRanked(q[..|q| - 1] + pushed)
  {
    var rest := q[..|q| - 1];
    if AllRanked(q) && AllRanked(pushed) {
      RankedPopPushBoth(q, pushed);
    }
  }

  lemma RankedPopPushBoth(q: seq<CellTuple>, pushed: seq<CellTuple>)
    requires |q| > 0 && AllRanked(q) && AllRanked(pushed)
    ensures AllRanked(q[..|q| - 1] + pushed)
  {
    var rest := q[..|q| - 1];
    forall j | 0 <= j < |rest + pushed| ensures Ranked((rest + pushed)[j]) {
      if j < |rest| {
        assert (rest + pushed)[j] == q[j];
      } else {
        assert (rest + pushed)[j] == pushed[j - |rest|];
      }
    }
  }

  /** Every cell of `s` is top-dimensional. */
  ghost predicate AllTop(C: Complex, s: seq<Cell>) {
    forall j :: 0 <= j < |s| ==> s[j].dim == C.dim
  }

  /** Switching a ranked tuple keeps it ranked when partners keep
      dimensions. */
  lemma {:induction false} ChainRanked(C: Complex, t: CellTuple, ks: seq<int>)
    requires SwitchDims(C) && Ranked(t)
    ensures var r := SwitchChain(C, Some(t), ks);
      r.Success? && r.value.Some? ==> Ranked(r.value.value)
    decreases |ks|
  {
    if |ks| > 0 {
      var v := Switch(C, ks[0], t);
      if v.Success? && v.value.Some? {
        var u := v.value.value;
        var slot := SlotOf(C, ks[0], t).value;
        assert slot in C.switch && slot.mid == t.cells[ks[0]];
        assert Ranked(u);
        ChainRanked(C, u, ks[1..]);
      }
    }
  }

  /** The tuples a turn pushes are ranked. */
  lemma {:induction false} TurnRanked(C: Complex, t: CellTuple, visited: set<Cell>, count: nat, univ: set<Cell>)
    requires |t.cells| == C.dim + 1
    requires C.switch.Values <= univ && TupleIn(t, univ)
    requires SwitchDims(C) && Ranked(t)
    ensures var r := Turn(C, t, visited, count, univ);
      r.Success? ==> AllRanked(r.value)
    decreases count
  {
    if count > 0 {
      var nf := NextFacet(C, Some(t)).value;
      if nf.Some? {
        ChainRanked(C, t, Countdown(C.dim - 1, C.dim));
        ChainIn(C, t, Countdown(C.dim - 1, C.dim), univ);
        TurnRanked(C, nf.value, visited, count - 1, univ);
      }
    }
  }

  /** The tuple `opposite_vertex` reaches from a ranked tuple, and those
      the turn around it pushes, are ranked. */
  lemma PopRankedFound(C: Complex, t: CellTuple, u: CellTuple, visited: set<Cell>, univ: set<Cell>)
    requires |t.cells| == C.dim + 1 && C.switch.Values <= univ && TupleIn(t, univ)
    requires OppositeVertex(C, Some(t)) == Success(Some(u))
    ensures |u.cells| == C.dim + 1 && TupleIn(u, univ)
    ensures SwitchDims(C) && Ranked(t) ==> Ranked(u) && u.cells[C.dim].dim == C.dim
    ensures var r := Turn(C, u, visited, C.dim + 1, univ);
      SwitchDims(C) && Ranked(t) && r.Success? ==> AllRanked(r.value)
  {
    ChainIn(C, t, Countdown(C.dim, C.dim + 1), univ);
    if SwitchDims(C) && Ranked(t) {
      ChainRanked(C, t, Countdown(C.dim, C.dim + 1));
      TurnRanked(C, u, visited, C.dim + 1, univ);
    }
  }

  /** Under a dimension-keeping switch table the search from ranked tuples
      appends top-dimensional cells only. */
  lemma {:induction false} SearchTop(C: Complex, av: seq<Cell>, q: seq<CellTuple>, visited: set<Cell>,
                                     out: seq<Cell>, univ: set<Cell>)
    requires C.switch.Values <= univ && StackIn(C, q, univ)
    requires SwitchDims(C) && AllRanked(q) && AllTop(C, out)
    ensures var r := Search(C, av, q, visited, out, univ);
      r.Success? ==> AllTop(C, r.value)
    decreases |univ - visited|, Stale(C, q, visited), |q|
  {
    if |q| > 0 {
      var p := Pop(C, av, q, visited, univ);
      if p.Success? {
        var out' := Record(out, p.value.found);
        assert AllTop(C, out');
        SearchTop(C, av, p.value.q, p.value.visited, out', univ);
      }
    }
  }

  /** In a sound complex with a dimension-keeping switch table, every cell
      `flip` flips out is top-dimensional. */
  lemma FlipOutTop(C: Complex, facet: Cell, av: seq<Cell>)
    requires Graded(C) && Lower(C, FullFace(C)) == [] && SwitchDims(C)
    ensures var r := CellsToFlipOut(C, facet, av);
      r.Success? ==> AllTop(C, r.value)
  {
    var t0 := Tuple(C, [facet]);
    if t0.Success? && t0.value.Some? {
      var t := t0.value.value;
      TupleShape(C, [facet]);
      assert Ranked(t);
      var univ := Universe(C, t);
      SearchStart(C, t, univ);
      SearchTop(C, av, [t], {}, [t.cells[C.dim]], univ);
    }
  }

  /** The search starts from one ranked tuple and its top cell. */
  lemma SearchStart(C: Complex, t: CellTuple, univ: set<Cell>)
    requires |t.cells| == C.dim + 1 && Ranked(t) && univ == Universe(C, t)
    ensures C.switch.Values <= univ && StackIn(C, [t], univ)
    ensures AllRanked([t]) && AllTop(C, [t.cells[C.dim]])
  {
  }
}
