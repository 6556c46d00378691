/** `CellComplex#add` with its guards: the mod-2 boundary-cycle check and the
    diamond check of `add_switches` (lib/cell_complex.rb). */
module Insertion {
  import opened Wrappers
  import opened Lists
  import opened Cells
  import opened Complex

  /** The boundary cells' own boundaries, concatenated in order. */
  function FlatLowers(C: Complex, b: seq<Cell>): seq<Cell> {
    if |b| == 0 then [] else FlatLowers(C, b[..|b| - 1]) + Lower(C, b[|b| - 1])
  }

  /** The boundary is a mod-2 cycle: every facet of the boundary cells occurs
      an even number of times across their boundaries. */
  predicate IsCycle(C: Complex, b: seq<Cell>) {
    var all := FlatLowers(C, b);
    forall g :: g in all ==> multiset(all)[g] % 2 == 0
  }

  /** `is_boundary?`: counts every facet of every boundary cell in a hash and
      answers whether no count is odd. */
  method CheckBoundary(C: Complex, b: seq<Cell>) returns (ok: bool)
    ensures ok == IsCycle(C, b)
  {
    var h: map<Cell, nat> := map[];
    var order: seq<Cell> := [];
    var i := 0;
    while i < |b|
      invariant 0 <= i <= |b|
      invariant forall g :: g in h <==> g in FlatLowers(C, b[..i])
      invariant forall g :: g in h ==> h[g] == multiset(FlatLowers(C, b[..i]))[g]
      invariant forall g :: g in order <==> g in h
    {
      assert b[..i + 1][..i] == b[..i];
      h, order := Tally(h, order, Lower(C, b[i]), FlatLowers(C, b[..i]));
      i := i + 1;
    }
    assert b[..i] == b;
    ok := NoOddCount(h, order);
  }

  /** The inner loop of `is_boundary?`: `h[g] += 1` for each facet `g`,
      remembering the order in which keys first appear. */
  method Tally(h: map<Cell, nat>, order: seq<Cell>, fs: seq<Cell>, ghost seen: seq<Cell>)
    returns (h': map<Cell, nat>, order': seq<Cell>)
    requires forall g :: g in h <==> g in seen
    requires forall g :: g in h ==> h[g] == multiset(seen)[g]
    requires forall g :: g in order <==> g in h
    ensures forall g :: g in h' <==> g in seen + fs
    ensures forall g :: g in h' ==> h'[g] == multiset(seen + fs)[g]
    ensures forall g :: g in order' <==> g in h'
  {
    h', order' := h, order;
    var j := 0;
    while j < |fs|
      invariant 0 <= j <= |fs|
      invariant forall g :: g in h' <==> g in seen + fs[..j]
      invariant forall g :: g in h' ==> h'[g] == multiset(seen + fs[..j])[g]
      invariant forall g :: g in order' <==> g in h'
    {
      var g := fs[j];
      assert seen + fs[..j + 1] == (seen + fs[..j]) + [g];
      if g in h' {
        h' := h'[g := h'[g] + 1];
      } else {
        h' := h'[g := 1];
        order' := order' + [g];
      }
      j := j + 1;
    }
    assert fs[..j] == fs;
  }

  /** `h.detect { |_, v| v % 2 == 1 }.nil?` over the keys in insertion order. */
  method NoOddCount(h: map<Cell, nat>, order: seq<Cell>) returns (ok: bool)
    requires forall g :: g in order <==> g in h
    ensures ok <==> forall g :: g in h ==> h[g] % 2 == 0
  {
    ok := true;
    var k := 0;
    while k < |order|
      invariant 0 <= k <= |order|
      invariant ok <==> forall m :: 0 <= m < k ==> h[order[m]] % 2 == 0
    {
      if h[order[k]] % 2 == 1 {
        ok := false;
      }
      k := k + 1;
    }
    if ok {
      forall g | g in h ensures h[g] % 2 == 0 {
        var m :| 0 <= m < |order| && order[m] == g;
      }
    }
  }

  /** `add_switches(lower_face, switch_faces, upper_face)`: more than two
      candidates violate the diamond property; exactly two become each
      other's partner in the slot; fewer leave the table alone. */
  function AddSwitches(sw: map<Slot, Cell>, lo: Cell, faces: seq<Cell>, hi: Cell)
    : (r: Result<map<Slot, Cell>, Error>)
    ensures r.Failure? <==> |faces| > 2
    ensures r.Failure? ==> r.error == NonManifold
    ensures |faces| < 2 ==> r == Success(sw)
    ensures |faces| == 2 ==>
      && r.Success?
      && Slot(lo, faces[0], hi) in r.value && r.value[Slot(lo, faces[0], hi)] == faces[1]
      && Slot(lo, faces[1], hi) in r.value && r.value[Slot(lo, faces[1], hi)] == faces[0]
    ensures r.Success? ==> forall s :: s in r.value && s.hi != hi ==> s in sw && r.value[s] == sw[s]
    ensures r.Success? ==> forall s :: s in sw ==> s in r.value
    ensures r.Success? ==> forall s :: s in r.value && (s.lo != lo || s.hi != hi) ==> s in sw && r.value[s] == sw[s]
  {
    if |faces| > 2 then Failure(NonManifold)
    else if |faces| == 2 then
      Success(sw[Slot(lo, faces[0], hi) := faces[1]][Slot(lo, faces[1], hi) := faces[0]])
    else Success(sw)
  }

  /** The diamond half of `add`'s loop body: for each face below a boundary
      facet, that face's cofacets lying in the boundary form the slot
      (face, _, cell). */
  function Diamonds(C: Complex, sw: map<Slot, Cell>, faces: seq<Cell>, bdy: seq<Cell>, cell: Cell)
    : (r: Result<map<Slot, Cell>, Error>)
    ensures r.Failure? ==> r.error == NonManifold
    ensures r.Failure? <==> exists k :: 0 <= k < |faces| && |Intersect(Upper(C, faces[k]), bdy)| > 2
    ensures r.Success? ==> forall s :: s in sw ==> s in r.value
    ensures r.Success? ==> forall s :: s in r.value && s.hi != cell ==> s in sw && r.value[s] == sw[s]
    decreases |faces|
  {
    if |faces| == 0 then Success(sw)
    else
      var sw1 :- AddSwitches(sw, faces[0], Intersect(Upper(C, faces[0]), bdy), cell);
      var r := Diamonds(C, sw1, faces[1..], bdy, cell);
      assert r.Failure? <==> exists k :: 0 <= k < |faces| && |Intersect(Upper(C, faces[k]), bdy)| > 2 by {
        if r.Failure? {
          var k :| 0 <= k < |faces[1..]| && |Intersect(Upper(C, faces[1..][k]), bdy)| > 2;
          assert faces[1..][k] == faces[k + 1];
        } else {
          forall k | 0 <= k < |faces| ensures |Intersect(Upper(C, faces[k]), bdy)| <= 2 {
            if k > 0 {
              assert faces[1..][k - 1] == faces[k];
            }
          }
        }
      }
      r
  }

  /** The loop of `add` over the (reassigned) boundary from position `i`:
      register the new cell in each facet's coboundary, then record the
      switches of the diamonds the new cell closes. */
  function AddIncidences(C: Complex, cell: Cell, bdy: seq<Cell>, i: nat): (r: Result<Complex, Error>)
    requires i <= |bdy|
    requires cell !in bdy
    ensures r.Failure? ==> r.error == NonManifold
    ensures r.Success? ==>
      && r.value.dim == C.dim && r.value.cells == C.cells
      && r.value.lower == C.lower && r.value.nextId == C.nextId
    ensures r.Success? ==> forall c :: c !in bdy[i..] ==> Upper(r.value, c) == Upper(C, c)
    ensures r.Success? ==> forall f, x :: f in bdy[i..] ==> (x in Upper(r.value, f) <==> x in Upper(C, f) || x == cell)
    ensures r.Success? ==> forall s :: s in C.switch ==> s in r.value.switch
    ensures r.Success? ==> forall s :: s in r.value.switch && s.hi != cell && s.hi != FullFace(C) ==>
      s in C.switch && r.value.switch[s] == C.switch[s]
    decreases |bdy| - i
  {
    if i == |bdy| then Success(C)
    else
      var C1 :- AddFacet(C, cell, bdy[i], bdy);
      assert bdy[i..] == [bdy[i]] + bdy[i + 1..];
      AddIncidences(C1, cell, bdy, i + 1)
  }

  /** One pass of `add`'s loop, for the boundary cell `facet`. */
  function AddFacet(C: Complex, cell: Cell, facet: Cell, bdy: seq<Cell>): (r: Result<Complex, Error>)
    ensures r.Failure? ==> r.error == NonManifold
    ensures r.Success? ==>
      && r.value.dim == C.dim && r.value.cells == C.cells
      && r.value.lower == C.lower && r.value.nextId == C.nextId
    ensures r.Success? ==> Upper(r.value, facet) == Upper(C, facet) + [cell]
    ensures r.Success? ==> forall c :: c != facet ==> Upper(r.value, c) == Upper(C, c)
    ensures r.Success? ==> forall s :: s in C.switch ==> s in r.value.switch
    ensures r.Success? ==> forall s :: s in r.value.switch && s.hi != cell && s.hi != FullFace(C) ==>
      s in C.switch && r.value.switch[s] == C.switch[s]
  {
    var up := Upper(C, facet) + [cell];
    var C1 := C.(upper := C.upper[facet := up]);
    var sw1 :- if cell.dim == C.dim then AddSwitches(C1.switch, facet, up, FullFace(C)) else Success(C1.switch);
    var sw2 :- Diamonds(C1, sw1, Lower(C1, facet), bdy, cell);
    Success(C1.(switch := sw2))
  }

  /** The identity key of a new cell: unused by the complex and above every
      boundary cell's key, standing for the fresh Ruby object. */
  function FreshId(C: Complex, b: seq<Cell>): (id: nat)
    ensures id >= C.nextId
    ensures forall c :: c in b ==> c.id < id
  {
    if |b| == 0 then C.nextId
    else
      var rest := FreshId(C, b[1..]);
      assert forall c :: c in b ==> c == b[0] || c in b[1..];
      if b[0].id + 1 > rest then b[0].id + 1 else rest
  }

  /** The new cell's dimension: one above the first boundary cell, or 0. */
  function NewDim(b: seq<Cell>): Dim {
    if |b| == 0 then 0 else b[0].dim + 1
  }

  datatype Added = Added(complex: Complex, cell: Cell)

  /** `add(boundary)`: rejects a boundary that is not a mod-2 cycle; otherwise
      creates a cell one dimension above its boundary (a 0-cell, bounded by
      the empty face, for an empty boundary), appends it to its dimension's
      list, stores its boundary and its coboundary (the full face exactly
      when it is top-dimensional), enters it into each facet's coboundary and
      records the new switches, raising on a diamond with more than two
      middle cells. No rollback is promised on that error. */
  function Add(C: Complex, boundary: seq<Cell>): (r: Result<Added, Error>)
    ensures r == Failure(InvalidBoundary) <==> !IsCycle(C, boundary)
    ensures r == Failure(NoBucket) <==> IsCycle(C, boundary) && NewDim(boundary) !in C.cells
    ensures r.Failure? ==> r.error == InvalidBoundary || r.error == NoBucket || r.error == NonManifold
    ensures r.Success? ==>
      var D, c := r.value.complex, r.value.cell;
      && D.dim == C.dim && D.cells.Keys == C.cells.Keys
      && c.dim == NewDim(boundary) && c.dim in C.cells && C.nextId <= c.id < D.nextId
      && (forall b :: b in boundary ==> b != c)
      && Lower(D, c) == (if c.dim == 0 then [EmptyFace] else boundary)
      && Upper(D, c) == (if c.dim == C.dim then [FullFace(C)] else [])
      && Bucket(D, c.dim) == Bucket(C, c.dim) + [c]
      && (forall d :: d != c.dim ==> Bucket(D, d) == Bucket(C, d))
      && (forall x :: x != c ==> Lower(D, x) == Lower(C, x))
      && (forall f, x :: f in Lower(D, c) ==> (x in Upper(D, f) <==> x in Upper(C, f) || x == c))
      && (forall f :: f !in Lower(D, c) && f != c ==> Upper(D, f) == Upper(C, f))
  {
    if !IsCycle(C, boundary) then Failure(InvalidBoundary)
    else
      var d := NewDim(boundary);
      if d !in C.cells then Failure(NoBucket)
      else
        var id := FreshId(C, boundary);
        var cell := Cell(d, id);
        var bdy := if d == 0 then [EmptyFace] else boundary;
        var D :- Build(C, cell, bdy);
        Success(Added(D, cell))
  }

  /** `add` once the new cell's handle is chosen: allocate it, then run the
      loop over its boundary `bdy`. */
  function Build(C: Complex, cell: Cell, bdy: seq<Cell>): (r: Result<Complex, Error>)
    requires cell.dim in C.cells && cell !in bdy && cell.id >= C.nextId
    ensures r.Failure? ==> r.error == NonManifold
    ensures r.Success? ==>
      var D := r.value;
      && D.dim == C.dim && D.cells.Keys == C.cells.Keys && C.nextId <= cell.id < D.nextId
      && Lower(D, cell) == bdy
      && Upper(D, cell) == (if cell.dim == C.dim then [FullFace(C)] else [])
      && Bucket(D, cell.dim) == Bucket(C, cell.dim) + [cell]
      && (forall d :: d != cell.dim ==> Bucket(D, d) == Bucket(C, d))
      && (forall x :: x != cell ==> Lower(D, x) == Lower(C, x))
      && (forall f, x :: f in bdy ==> (x in Upper(D, f) <==> x in Upper(C, f) || x == cell))
      && (forall f :: f !in bdy && f != cell ==> Upper(D, f) == Upper(C, f))
  {
    var C1 := Allocate(C, cell, bdy);
    var C2 :- AddIncidences(C1, cell, bdy, 0);
    BuildIncidences(C, C1, cell, bdy, C2);
    Success(C2)
  }

  /** How the loop over the boundary leaves the incidence lists of the
      freshly allocated cell's complex `C1`. */
  lemma BuildIncidences(C: Complex, C1: Complex, cell: Cell, bdy: seq<Cell>, C2: Complex)
    requires cell.dim in C.cells && cell !in bdy && C1 == Allocate(C, cell, bdy)
    requires AddIncidences(C1, cell, bdy, 0) == Success(C2)
    ensures C2.cells == C1.cells && C2.dim == C.dim && C2.nextId == C1.nextId
    ensures Upper(C2, cell) == Upper(C1, cell) && Lower(C2, cell) == bdy
    ensures forall x :: x != cell ==> Lower(C2, x) == Lower(C, x)
    ensures forall f, x :: f in bdy ==> (x in Upper(C2, f) <==> x in Upper(C, f) || x == cell)
    ensures forall f :: f !in bdy && f != cell ==> Upper(C2, f) == Upper(C, f)
  {
    assert bdy[0..] == bdy;
    assert C2.lower == C1.lower;
    forall x | x != cell ensures Lower(C2, x) == Lower(C, x) {
      assert Lower(C2, x) == Lower(C1, x);
    }
    forall f, x | f in bdy ensures x in Upper(C2, f) <==> x in Upper(C, f) || x == cell {
      assert f != cell && f in bdy[0..];
      assert Upper(C1, f) == Upper(C, f);
    }
    forall f | f !in bdy && f != cell ensures Upper(C2, f) == Upper(C, f) {
      assert f !in bdy[0..];
      assert Upper(C1, f) == Upper(C, f);
    }
  }

  /** The first half of `add`: store the new cell's boundary and coboundary
      and append it to its dimension's list. */
  function Allocate(C: Complex, cell: Cell, bdy: seq<Cell>): (C1: Complex)
    requires cell.dim in C.cells
    ensures C1.dim == C.dim && C1.nextId == cell.id + 1 && C1.switch == C.switch
    ensures Lower(C1, cell) == bdy
    ensures Upper(C1, cell) == (if cell.dim == C.dim then [FullFace(C)] else [])
    ensures Bucket(C1, cell.dim) == Bucket(C, cell.dim) + [cell]
    ensures forall d :: d != cell.dim ==> Bucket(C1, d) == Bucket(C, d)
    ensures forall x :: x != cell ==> Lower(C1, x) == Lower(C, x) && Upper(C1, x) == Upper(C, x)
    ensures C1.cells.Keys == C.cells.Keys
  {
    C.(
      lower := C.lower[cell := bdy],
      upper := C.upper[cell := if cell.dim == C.dim then [FullFace(C)] else []],
      cells := C.cells[cell.dim := C.cells[cell.dim] + [cell]],
      nextId := cell.id + 1)
  }
}
