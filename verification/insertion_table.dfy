/** Exactly when `add` raises on a diamond, and exactly which switch entries
    it writes (lib/cell_complex.rb, `add` and `add_switches`), stated slot
    by slot against the complex before the call. */
module InsertionTable {
  import opened Wrappers
  import opened Lists
  import opened Cells
  import opened Complex
  import opened Insertion
  import opened InsertionFacts

  /** `@switch[s]`: the partner stored in slot `s`, `nil` when there is none. */
  function Get(sw: map<Slot, Cell>, s: Slot): Option<Cell> {
    if s in sw then Some(sw[s]) else None
  }

  /** The first value when there is one, the second otherwise: a write
      overriding the earlier table. */
  function Or(first: Option<Cell>, otherwise: Option<Cell>): Option<Cell> {
    if first.Some? then first else otherwise
  }

  /** What `add_switches` stores for the middle cell `m` from the candidate
      list `p`: with exactly two candidates each is the other's partner;
      otherwise the slot is not written. */
  function PairEntry(p: seq<Cell>, m: Cell): Option<Cell> {
    if |p| == 2 && m in p then Some(if p[0] == m then p[1] else p[0]) else None
  }

  /** A successful `add_switches` writes the pair into the slots
      (lo, _, hi) and leaves every other slot as it was. */
  lemma AddSwitchesTable(sw: map<Slot, Cell>, lo: Cell, faces: seq<Cell>, hi: Cell, s: Slot)
    requires |faces| <= 2
    ensures AddSwitches(sw, lo, faces, hi).Success?
    ensures Get(AddSwitches(sw, lo, faces, hi).value, s)
      == Or(if s.lo == lo && s.hi == hi then PairEntry(faces, s.mid) else None, Get(sw, s))
  {
  }

  /** The entry the diamond check for the boundary faces `gs` writes in slot
      `s` under the new cell: the pairing of the cofacets of `s.lo` that lie
      in the boundary. */
  function DiamondEntry(C: Complex, gs: seq<Cell>, bdy: seq<Cell>, cell: Cell, s: Slot): Option<Cell> {
    if s.hi == cell && s.lo in gs then PairEntry(Intersect(Upper(C, s.lo), bdy), s.mid) else None
  }

  /** The diamond pass writes, for each listed face, its boundary cofacets'
      pairing under the new cell, and nothing else. */
  lemma {:induction false} DiamondsTable(C: Complex, sw: map<Slot, Cell>, faces: seq<Cell>, bdy: seq<Cell>, cell: Cell, s: Slot)
    ensures Diamonds(C, sw, faces, bdy, cell).Success? ==>
      Get(Diamonds(C, sw, faces, bdy, cell).value, s) == Or(DiamondEntry(C, faces, bdy, cell, s), Get(sw, s))
    decreases |faces|
  {
    if |faces| > 0 && Diamonds(C, sw, faces, bdy, cell).Success? {
      var p := Intersect(Upper(C, faces[0]), bdy);
      var sw1 := AddSwitches(sw, faces[0], p, cell).value;
      AddSwitchesTable(sw, faces[0], p, cell, s);
      DiamondsTable(C, sw1, faces[1..], bdy, cell, s);
      assert s.lo in faces <==> s.lo == faces[0] || s.lo in faces[1..];
    }
  }

  /** The entry a pass writes under the full face when the new cell is
      top-dimensional: the pairing of the facet's cofacets, the new cell
      included. */
  function CoEntry(C: Complex, cell: Cell, facet: Cell, s: Slot): Option<Cell> {
    if cell.dim == C.dim && s.hi == FullFace(C) && s.lo == facet then PairEntry(Upper(C, facet) + [cell], s.mid)
    else None
  }

  /** The pass of `add`'s loop for `facet` raises: the facet already has two
      cofacets and the new cell is top-dimensional, or some face below it
      has more than two cofacets in the boundary. */
  ghost predicate Clash(C: Complex, d: int, facet: Cell, bdy: seq<Cell>) {
    || (d == C.dim && |Upper(C, facet)| >= 2)
    || exists g :: g in Lower(C, facet) && |Intersect(Upper(C, g), bdy)| > 2
  }

  /** One pass of the loop raises exactly on a clash. */
  lemma AddFacetFails(C: Complex, cell: Cell, facet: Cell, bdy: seq<Cell>)
    requires facet !in Lower(C, facet)
    ensures AddFacet(C, cell, facet, bdy).Failure? <==> Clash(C, cell.dim, facet, bdy)
  {
    var C1 := C.(upper := C.upper[facet := Upper(C, facet) + [cell]]);
    assert Lower(C1, facet) == Lower(C, facet);
    assert forall g :: g in Lower(C, facet) ==> Upper(C1, g) == Upper(C, g);
  }

  /** A pass that succeeds writes the full-face pairing and then the diamond
      pairings, and leaves every other slot as it was. */
  lemma AddFacetTable(C: Complex, cell: Cell, facet: Cell, bdy: seq<Cell>, s: Slot)
    requires facet !in Lower(C, facet) && cell.dim <= C.dim
    ensures AddFacet(C, cell, facet, bdy).Success? ==>
      Get(AddFacet(C, cell, facet, bdy).value.switch, s)
        == Or(DiamondEntry(C, Lower(C, facet), bdy, cell, s), Or(CoEntry(C, cell, facet, s), Get(C.switch, s)))
  {
    var r := AddFacet(C, cell, facet, bdy);
    if r.Success? {
      var up := Upper(C, facet) + [cell];
      var C1 := C.(upper := C.upper[facet := up]);
      var gs := Lower(C1, facet);
      var sw1r := if cell.dim == C.dim then AddSwitches(C1.switch, facet, up, FullFace(C)) else Success(C1.switch);
      assert sw1r.Success?;
      var sw1 := sw1r.value;
      var sw2r := Diamonds(C1, sw1, gs, bdy, cell);
      assert sw2r.Success? && r.value.switch == sw2r.value;
      if cell.dim == C.dim {
        AddSwitchesTable(C1.switch, facet, up, FullFace(C), s);
      }
      assert Get(sw1, s) == Or(CoEntry(C, cell, facet, s), Get(C.switch, s));
      DiamondsTable(C1, sw1, gs, bdy, cell, s);
      assert gs == Lower(C, facet);
      if s.lo in gs {
        assert s.lo != facet;
        assert Upper(C1, s.lo) == Upper(C, s.lo);
      }
    }
  }

  /** No face below a boundary cell is itself a boundary cell or the new
      cell: what a graded complex guarantees for a uniform boundary. */
  ghost predicate Apart(C: Complex, cell: Cell, bdy: seq<Cell>) {
    forall f, g :: f in bdy && g in Lower(C, f) ==> g !in bdy && g != cell
  }

  /** The entry `add`'s loop over the boundary cells `fs` writes in slot
      `s`, if any: under the new cell, the pairing of the boundary cofacets
      of a face below some boundary cell; under the full face, the pairing
      of a facet's cofacets with the new cell when it is top-dimensional. */
  ghost function Written(C: Complex, cell: Cell, fs: seq<Cell>, bdy: seq<Cell>, s: Slot): Option<Cell> {
    Or(Under(C, cell, fs, bdy, s), Over(C, cell, fs, s))
  }

  /** The diamond entries of the loop over `fs`, written under the new cell. */
  ghost function Under(C: Complex, cell: Cell, fs: seq<Cell>, bdy: seq<Cell>, s: Slot): Option<Cell> {
    if s.hi == cell && exists f :: f in fs && s.lo in Lower(C, f) then PairEntry(Intersect(Upper(C, s.lo), bdy), s.mid)
    else None
  }

  /** The full-face entries of the loop over `fs`. */
  function Over(C: Complex, cell: Cell, fs: seq<Cell>, s: Slot): Option<Cell> {
    if cell.dim == C.dim && s.hi == FullFace(C) && s.lo in fs then PairEntry(Upper(C, s.lo) + [cell], s.mid)
    else None
  }

  /** A clash depends only on the facet's and its faces' coboundaries. */
  lemma ClashKept(C: Complex, C1: Complex, d: int, facet: Cell, bdy: seq<Cell>)
    requires C1.dim == C.dim && Lower(C1, facet) == Lower(C, facet) && Upper(C1, facet) == Upper(C, facet)
    requires forall g :: g in Lower(C, facet) ==> Upper(C1, g) == Upper(C, g)
    ensures Clash(C1, d, facet, bdy) == Clash(C, d, facet, bdy)
  {
    if Clash(C, d, facet, bdy) && !(d == C.dim && |Upper(C, facet)| >= 2) {
      var g :| g in Lower(C, facet) && |Intersect(Upper(C, g), bdy)| > 2;
      assert g in Lower(C1, facet) && |Intersect(Upper(C1, g), bdy)| > 2;
    }
  }

  /** A later boundary cell is not the current one. */
  lemma LaterDiffers(bdy: seq<Cell>, i: nat, f: Cell)
    requires NoDup(bdy) && i < |bdy| && f in bdy[i + 1..]
    ensures f != bdy[i]
  {
    var k :| 0 <= k < |bdy[i + 1..]| && bdy[i + 1..][k] == f;
    assert bdy[i + k + 1] == f;
  }

  /** A pass changes no clash of the later boundary cells: it touches only
      its own facet's coboundary. */
  lemma LaterClashesKept(C: Complex, C1: Complex, cell: Cell, bdy: seq<Cell>, i: nat)
    requires i < |bdy| && NoDup(bdy) && Apart(C, cell, bdy)
    requires C1.dim == C.dim && C1.lower == C.lower
    requires forall x :: x != bdy[i] ==> Upper(C1, x) == Upper(C, x)
    ensures forall f :: f in bdy[i + 1..] ==> Clash(C1, cell.dim, f, bdy) == Clash(C, cell.dim, f, bdy)
  {
    forall f | f in bdy[i + 1..] ensures Clash(C1, cell.dim, f, bdy) == Clash(C, cell.dim, f, bdy) {
      LaterDiffers(bdy, i, f);
      forall g | g in Lower(C, f) ensures Upper(C1, g) == Upper(C, g) {
        assert g !in bdy;
      }
      ClashKept(C, C1, cell.dim, f, bdy);
    }
  }

  /** A clash among the cells from `i` is at `i` or among those after. */
  lemma ClashSplit(C: Complex, C1: Complex, cell: Cell, bdy: seq<Cell>, i: nat)
    requires i < |bdy|
    requires forall f :: f in bdy[i + 1..] ==> Clash(C1, cell.dim, f, bdy) == Clash(C, cell.dim, f, bdy)
    ensures (exists f :: f in bdy[i..] && Clash(C, cell.dim, f, bdy))
      <==> Clash(C, cell.dim, bdy[i], bdy) || exists f :: f in bdy[i + 1..] && Clash(C1, cell.dim, f, bdy)
  {
    assert bdy[i..] == [bdy[i]] + bdy[i + 1..];
    if f :| f in bdy[i..] && Clash(C, cell.dim, f, bdy) {
      if f != bdy[i] {
        assert f in bdy[i + 1..];
      }
    }
  }

  /** The loop from position `i` raises exactly when one of the remaining
      boundary cells clashes, judged in the complex the loop starts from. */
  lemma {:induction false} AddIncidencesFails(C: Complex, cell: Cell, bdy: seq<Cell>, i: nat)
    requires i <= |bdy| && cell !in bdy && NoDup(bdy) && Apart(C, cell, bdy)
    ensures AddIncidences(C, cell, bdy, i).Failure? <==> exists f :: f in bdy[i..] && Clash(C, cell.dim, f, bdy)
    decreases |bdy| - i
  {
    if i < |bdy| {
      var f0 := bdy[i];
      assert f0 in bdy;
      AddFacetFails(C, cell, f0, bdy);
      var r := AddFacet(C, cell, f0, bdy);
      if r.Failure? {
        assert AddIncidences(C, cell, bdy, i).Failure?;
        assert f0 in bdy[i..];
      } else {
        var C1 := r.value;
        assert AddIncidences(C, cell, bdy, i) == AddIncidences(C1, cell, bdy, i + 1);
        ApartKept(C, C1, cell, bdy);
        AddIncidencesFails(C1, cell, bdy, i + 1);
        LaterClashesKept(C, C1, cell, bdy, i);
        ClashSplit(C, C1, cell, bdy, i);
      }
    }
  }

  /** The loop from position `i` appends the new cell once to each remaining
      boundary cell's coboundary. */
  lemma {:induction false} AddIncidencesUppers(C: Complex, cell: Cell, bdy: seq<Cell>, i: nat)
    requires i <= |bdy| && cell !in bdy && NoDup(bdy)
    ensures AddIncidences(C, cell, bdy, i).Success? ==>
      forall f :: f in bdy[i..] ==> Upper(AddIncidences(C, cell, bdy, i).value, f) == Upper(C, f) + [cell]
    decreases |bdy| - i
  {
    var r := AddIncidences(C, cell, bdy, i);
    if i < |bdy| && r.Success? {
      var f0 := bdy[i];
      var C1 := AddFacet(C, cell, f0, bdy).value;
      AddIncidencesUppers(C1, cell, bdy, i + 1);
      forall f | f in bdy[i..] ensures Upper(r.value, f) == Upper(C, f) + [cell] {
        if f == f0 {
          assert f0 !in bdy[i + 1..] by {
            if f0 in bdy[i + 1..] {
              LaterDiffers(bdy, i, f0);
            }
          }
        } else {
          assert f in bdy[i + 1..];
        }
      }
    }
  }

  /** The full-face entries of the loop from `i`: the pass for `bdy[i]`
      and those of the loop from `i + 1`, read in the complex the pass
      leaves. */
  lemma OverStep(C: Complex, C1: Complex, cell: Cell, bdy: seq<Cell>, i: nat, s: Slot)
    requires i < |bdy| && NoDup(bdy) && C1.dim == C.dim
    requires forall x :: x != bdy[i] ==> Upper(C1, x) == Upper(C, x)
    ensures Or(Over(C1, cell, bdy[i + 1..], s), CoEntry(C, cell, bdy[i], s)) == Over(C, cell, bdy[i..], s)
  {
    assert bdy[i..] == [bdy[i]] + bdy[i + 1..];
    if s.lo in bdy[i + 1..] {
      LaterDiffers(bdy, i, s.lo);
    }
  }

  /** The diamond entries of the loop from `i`: the pass for `bdy[i]` and
      those of the loop from `i + 1`, read in the complex the pass leaves. */
  lemma UnderStep(C: Complex, C1: Complex, cell: Cell, bdy: seq<Cell>, i: nat, s: Slot)
    requires i < |bdy| && Apart(C, cell, bdy) && C1.lower == C.lower
    requires forall x :: x != bdy[i] ==> Upper(C1, x) == Upper(C, x)
    ensures Or(Under(C1, cell, bdy[i + 1..], bdy, s), DiamondEntry(C, Lower(C, bdy[i]), bdy, cell, s))
      == Under(C, cell, bdy[i..], bdy, s)
  {
    var f0, rest := bdy[i], bdy[i + 1..];
    assert bdy[i..] == [f0] + rest;
    if s.hi == cell && exists f :: f in bdy[i..] && s.lo in Lower(C, f) {
      var f :| f in bdy[i..] && s.lo in Lower(C, f);
      assert s.lo !in bdy;
      assert Upper(C1, s.lo) == Upper(C, s.lo);
      if f != f0 {
        assert f in rest && s.lo in Lower(C1, f);
      }
    }
    if s.hi == cell && exists f :: f in rest && s.lo in Lower(C1, f) {
      var f :| f in rest && s.lo in Lower(C1, f);
      assert f in bdy[i..] && s.lo in Lower(C, f);
    }
  }

  /** Regrouping the writes of one pass and of the rest of the loop, when
      the diamond and full-face entries never meet in one slot. */
  lemma Regroup(u1: Option<Cell>, de: Option<Cell>, o1: Option<Cell>, ce: Option<Cell>, old_: Option<Cell>)
    requires (u1.Some? || de.Some?) ==> o1.None? && ce.None?
    ensures Or(Or(u1, o1), Or(de, Or(ce, old_))) == Or(Or(Or(u1, de), Or(o1, ce)), old_)
  {
  }

  /** Diamond entries sit under the new cell, full-face entries under the
      full face, so no slot gets both. */
  lemma Disjoint(C: Complex, C1: Complex, cell: Cell, bdy: seq<Cell>, i: nat, s: Slot)
    requires i < |bdy| && cell.dim <= C.dim && C1.dim == C.dim
    ensures Under(C1, cell, bdy[i + 1..], bdy, s).Some? || DiamondEntry(C, Lower(C, bdy[i]), bdy, cell, s).Some? ==>
      Over(C1, cell, bdy[i + 1..], s).None? && CoEntry(C, cell, bdy[i], s).None?
  {
  }

  /** The pass leaves the boundary lists, so the faces below the boundary
      stay apart from it. */
  lemma ApartKept(C: Complex, C1: Complex, cell: Cell, bdy: seq<Cell>)
    requires Apart(C, cell, bdy) && C1.lower == C.lower
    ensures Apart(C1, cell, bdy)
  {
    forall f, g | f in bdy && g in Lower(C1, f) ensures g !in bdy && g != cell {
      assert g in Lower(C, f);
    }
  }

  /** A successful loop from position `i` leaves each slot holding what the
      remaining passes write, or its old entry when they write nothing. */
  lemma {:induction false} AddIncidencesTable(C: Complex, cell: Cell, bdy: seq<Cell>, i: nat, s: Slot)
    requires i <= |bdy| && cell !in bdy && NoDup(bdy) && Apart(C, cell, bdy) && cell.dim <= C.dim
    ensures AddIncidences(C, cell, bdy, i).Success? ==>
      Get(AddIncidences(C, cell, bdy, i).value.switch, s) == Or(Written(C, cell, bdy[i..], bdy, s), Get(C.switch, s))
    decreases |bdy| - i
  {
    var r := AddIncidences(C, cell, bdy, i);
    if r.Success? && i < |bdy| {
      var f0 := bdy[i];
      var C1 := AddFacet(C, cell, f0, bdy).value;
      assert r == AddIncidences(C1, cell, bdy, i + 1);
      ApartKept(C, C1, cell, bdy);
      AddFacetTable(C, cell, f0, bdy, s);
      AddIncidencesTable(C1, cell, bdy, i + 1, s);
      OverStep(C, C1, cell, bdy, i, s);
      UnderStep(C, C1, cell, bdy, i, s);
      Disjoint(C, C1, cell, bdy, i, s);
      Regroup(Under(C1, cell, bdy[i + 1..], bdy, s), DiamondEntry(C, Lower(C, f0), bdy, cell, s),
        Over(C1, cell, bdy[i + 1..], s), CoEntry(C, cell, f0, s), Get(C.switch, s));
    }
  }

  /** Allocating the new cell changes no clash: neither the boundary cells
      nor the faces below them are the new cell. */
  lemma AllocateClashes(C: Complex, cell: Cell, bdy: seq<Cell>)
    requires cell.dim in C.cells && cell !in bdy && Apart(C, cell, bdy)
    ensures Apart(Allocate(C, cell, bdy), cell, bdy)
    ensures forall f :: f in bdy ==> Clash(Allocate(C, cell, bdy), cell.dim, f, bdy) == Clash(C, cell.dim, f, bdy)
  {
    var C1 := Allocate(C, cell, bdy);
    forall f | f in bdy ensures Clash(C1, cell.dim, f, bdy) == Clash(C, cell.dim, f, bdy) {
      ClashKept(C, C1, cell.dim, f, bdy);
    }
  }

  /** Allocating the new cell changes no entry the loop writes. */
  lemma AllocateWritten(C: Complex, cell: Cell, bdy: seq<Cell>, s: Slot)
    requires cell.dim in C.cells && cell !in bdy && Apart(C, cell, bdy)
    ensures Written(Allocate(C, cell, bdy), cell, bdy, bdy, s) == Written(C, cell, bdy, bdy, s)
  {
    var C1 := Allocate(C, cell, bdy);
    if s.hi == cell && exists f :: f in bdy && s.lo in Lower(C, f) {
      var f :| f in bdy && s.lo in Lower(C, f);
      assert s.lo in Lower(C1, f);
    }
  }

  /** `add` with its handle chosen raises exactly when a boundary cell
      clashes. */
  lemma BuildFails(C: Complex, cell: Cell, bdy: seq<Cell>)
    requires cell.dim in C.cells && cell !in bdy && cell.id >= C.nextId
    requires NoDup(bdy) && Apart(C, cell, bdy)
    ensures Build(C, cell, bdy).Failure? <==> exists f :: f in bdy && Clash(C, cell.dim, f, bdy)
  {
    var C1 := Allocate(C, cell, bdy);
    AllocateClashes(C, cell, bdy);
    AddIncidencesFails(C1, cell, bdy, 0);
    assert bdy[0..] == bdy;
  }

  /** A successful `add` with its handle chosen leaves each slot holding
      what the loop writes, or its old entry. */
  lemma BuildTable(C: Complex, cell: Cell, bdy: seq<Cell>, s: Slot)
    requires cell.dim in C.cells && cell !in bdy && cell.id >= C.nextId
    requires NoDup(bdy) && Apart(C, cell, bdy) && cell.dim <= C.dim
    ensures Build(C, cell, bdy).Success? ==>
      Get(Build(C, cell, bdy).value.switch, s) == Or(Written(C, cell, bdy, bdy, s), Get(C.switch, s))
  {
    var C1 := Allocate(C, cell, bdy);
    AllocateClashes(C, cell, bdy);
    AllocateWritten(C, cell, bdy, s);
    AddIncidencesTable(C1, cell, bdy, 0, s);
    assert bdy[0..] == bdy;
  }

  /** The boundary list `add` iterates over: the given one, or the empty
      face for a vertex. */
  function Reassigned(boundary: seq<Cell>): seq<Cell> {
    if NewDim(boundary) == 0 then [EmptyFace] else boundary
  }

  /** In a graded complex a uniform boundary's cells are one dimension below
      the new cell and their faces two below, so the loop's preconditions
      hold. */
  lemma Prepared(C: Complex, boundary: seq<Cell>)
    requires Graded(C) && Uniform(boundary) && NoDup(boundary) && NewDim(boundary) in C.cells
    ensures var cell := Cell(NewDim(boundary), FreshId(C, boundary)); var bdy := Reassigned(boundary);
      && cell !in bdy && NoDup(bdy) && Apart(C, cell, bdy) && cell.dim <= C.dim
  {
    var cell := Cell(NewDim(boundary), FreshId(C, boundary));
    var bdy := Reassigned(boundary);
    assert forall f :: f in bdy ==> f.dim == cell.dim - 1;
  }

  /** `add` raises `NonManifold` exactly when the boundary is a cycle with a
      list for its dimension and some cell of the (reassigned) boundary
      clashes. */
  lemma AddFails(C: Complex, boundary: seq<Cell>)
    requires Graded(C) && Uniform(boundary) && NoDup(boundary)
    ensures Add(C, boundary) == Failure(NonManifold) <==>
      && IsCycle(C, boundary) && NewDim(boundary) in C.cells
      && exists f :: f in Reassigned(boundary) && Clash(C, NewDim(boundary), f, Reassigned(boundary))
  {
    if IsCycle(C, boundary) && NewDim(boundary) in C.cells {
      Prepared(C, boundary);
      BuildFails(C, Cell(NewDim(boundary), FreshId(C, boundary)), Reassigned(boundary));
    }
  }

  /** A successful `add` leaves each slot holding what its loop writes for
      the new cell, or its old entry. */
  lemma AddTable(C: Complex, boundary: seq<Cell>, s: Slot)
    requires Graded(C) && Uniform(boundary) && NoDup(boundary)
    ensures Add(C, boundary).Success? ==>
      Get(Add(C, boundary).value.complex.switch, s)
        == Or(Written(C, Add(C, boundary).value.cell, Reassigned(boundary), Reassigned(boundary), s), Get(C.switch, s))
  {
    if Add(C, boundary).Success? {
      Prepared(C, boundary);
      BuildTable(C, Cell(NewDim(boundary), FreshId(C, boundary)), Reassigned(boundary), s);
    }
  }

  /** A successful `add` appends the new cell exactly once to each
      boundary cell's coboundary. */
  lemma AddUppers(C: Complex, boundary: seq<Cell>)
    requires Graded(C) && Uniform(boundary) && NoDup(boundary)
    ensures Add(C, boundary).Success? ==>
      forall f :: f in Reassigned(boundary) ==>
        Upper(Add(C, boundary).value.complex, f) == Upper(C, f) + [Add(C, boundary).value.cell]
  {
    if Add(C, boundary).Success? {
      Prepared(C, boundary);
      var cell, bdy := Cell(NewDim(boundary), FreshId(C, boundary)), Reassigned(boundary);
      var C1 := Allocate(C, cell, bdy);
      AddIncidencesUppers(C1, cell, bdy, 0);
      assert bdy[0..] == bdy;
    }
  }
}
