/** The switch table of a complex built by `CellComplex.new` and `add` pairs
    its entries both ways, so `switch` is an involution on it
    (lib/cell_complex.rb). */
module Involution {
  import opened Wrappers
  import opened Lists
  import opened Cells
  import opened Complex
  import opened Insertion
  import opened InsertionFacts
  import opened InsertionTable
  import opened Switching

  /** Every key the incidence lists and the switch table mention lies below
      `nextId`, which is past both sentinels: the handles a new cell gets are
      unseen. */
  ghost predicate KeysBelow(C: Complex) {
    && C.nextId >= 2
    && (forall x, y :: y in Lower(C, x) ==> y.id < C.nextId)
    && (forall x, y :: y in Upper(C, x) ==> y.id < C.nextId)
    && (forall s :: s in C.switch ==>
          s.lo.id < C.nextId && s.mid.id < C.nextId && s.hi.id < C.nextId && C.switch[s].id < C.nextId)
  }

  /** Every entry under the full face sits on a facet with two cofacets or
      more, as `add_switches` left it. */
  ghost predicate Backed(C: Complex) {
    forall s :: s in C.switch && s.hi == FullFace(C) ==> |Upper(C, s.lo)| >= 2
  }

  /** What `add` keeps of a complex so that its switch table stays
      involutive. */
  ghost predicate Paired(C: Complex) {
    && Graded(C) && Lower(C, FullFace(C)) == []
    && KeysBelow(C) && Backed(C) && Involutive(C.switch)
  }

  /** A fresh complex has no switches at all. */
  lemma InitPaired(n: nat)
    ensures Paired(Init(n))
  {
    InitGraded(n);
  }

  /** A pairing entry names two cells of its candidate list, and the
      partner's entry names the first one back. */
  lemma PairEntryBack(p: seq<Cell>, m: Cell)
    requires PairEntry(p, m).Some?
    ensures m in p && PairEntry(p, m).value in p
    ensures PairEntry(p, PairEntry(p, m).value) == Some(m)
  {
  }

  /** The cell `add` creates, named by the key it draws. */
  lemma AddedCell(C: Complex, boundary: seq<Cell>)
    requires Add(C, boundary).Success?
    ensures Add(C, boundary).value.cell == Cell(NewDim(boundary), FreshId(C, boundary))
  {
  }

  /** A table written by the loop over `bdy` names only keys below `n`
      when the old table, the boundary, the faces below it and the new cell
      do. */
  lemma EntryKeys(C: Complex, c: Cell, bdy: seq<Cell>, sw: map<Slot, Cell>, s: Slot, n: nat)
    requires KeysBelow(C) && C.nextId <= n && c.id < n
    requires forall f :: f in bdy ==> f.id < n
    requires s in sw && Get(sw, s) == Or(Written(C, c, bdy, bdy, s), Get(C.switch, s))
    ensures s.lo.id < n && s.mid.id < n && s.hi.id < n && sw[s].id < n
  {
    if Under(C, c, bdy, bdy, s).Some? {
      var f :| f in bdy && s.lo in Lower(C, f);
      PairEntryBack(Intersect(Upper(C, s.lo), bdy), s.mid);
    } else if Over(C, c, bdy, s).Some? {
      PairEntryBack(Upper(C, s.lo) + [c], s.mid);
    } else {
      assert s in C.switch;
    }
  }

  /** The incidence lists a successful `add` leaves name keys below the
      new `nextId`. */
  lemma AddListKeys(C: Complex, boundary: seq<Cell>)
    requires KeysBelow(C) && Add(C, boundary).Success?
    ensures var D := Add(C, boundary).value.complex;
      && (forall x, y :: y in Lower(D, x) ==> y.id < D.nextId)
      && (forall x, y :: y in Upper(D, x) ==> y.id < D.nextId)
  {
    var D, c := Add(C, boundary).value.complex, Add(C, boundary).value.cell;
    var bdy := Reassigned(boundary);
    AddedCell(C, boundary);
    assert forall f :: f in bdy ==> f.id < c.id;
    forall x, y | y in Lower(D, x) ensures y.id < D.nextId {
      if x != c {
        assert y in Lower(C, x);
      }
    }
    forall x, y | y in Upper(D, x) ensures y.id < D.nextId {
      if x != c && x !in bdy {
        assert y in Upper(C, x);
      }
    }
  }

  /** Every entry a successful `add` leaves names keys below the new
      `nextId`. */
  lemma AddKeys(C: Complex, boundary: seq<Cell>)
    requires Paired(C) && Uniform(boundary) && NoDup(boundary)
    requires Add(C, boundary).Success?
    ensures KeysBelow(Add(C, boundary).value.complex)
  {
    var D, c := Add(C, boundary).value.complex, Add(C, boundary).value.cell;
    var bdy := Reassigned(boundary);
    AddListKeys(C, boundary);
    AddedCell(C, boundary);
    assert forall f :: f in bdy ==> f.id < c.id;
    forall s | s in D.switch
      ensures s.lo.id < D.nextId && s.mid.id < D.nextId && s.hi.id < D.nextId && D.switch[s].id < D.nextId
    {
      AddTable(C, boundary, s);
      EntryKeys(C, c, bdy, D.switch, s, D.nextId);
    }
  }

  /** A full-face entry of a table written by the loop over `bdy` sits on a
      facet with two cofacets or more once the loop has entered the new
      cell above each boundary cell. */
  lemma EntryBacked(C: Complex, D: Complex, c: Cell, bdy: seq<Cell>, s: Slot)
    requires Backed(C) && c != FullFace(C) && D.dim == C.dim
    requires forall t :: t in C.switch ==> t.lo.id < c.id
    requires forall f :: f in bdy ==> Upper(D, f) == Upper(C, f) + [c]
    requires forall f :: f !in bdy && f != c ==> Upper(D, f) == Upper(C, f)
    requires s in D.switch && s.hi == FullFace(D)
    requires Get(D.switch, s) == Or(Written(C, c, bdy, bdy, s), Get(C.switch, s))
    ensures |Upper(D, s.lo)| >= 2
  {
    if Written(C, c, bdy, bdy, s).None? {
      assert s in C.switch;
      if s.lo in bdy {
        assert Upper(D, s.lo) == Upper(C, s.lo) + [c];
      } else {
        assert s.lo != c;
      }
    }
  }

  /** Every full-face entry a successful `add` leaves sits on a facet with
      two cofacets or more. */
  lemma AddBacked(C: Complex, boundary: seq<Cell>)
    requires Paired(C) && Uniform(boundary) && NoDup(boundary)
    requires Add(C, boundary).Success?
    ensures Backed(Add(C, boundary).value.complex)
  {
    var D, c := Add(C, boundary).value.complex, Add(C, boundary).value.cell;
    var bdy := Reassigned(boundary);
    AddedCell(C, boundary);
    AddUppers(C, boundary);
    forall s | s in D.switch && s.hi == FullFace(D) ensures |Upper(D, s.lo)| >= 2 {
      AddTable(C, boundary, s);
      EntryBacked(C, D, c, bdy, s);
    }
  }

  /** In a table written by the loop over `bdy` for a fresh cell, every
      entry's partner slot holds the entry's middle cell: a new entry's
      partner is written from the same pairing, and an old entry's partner
      is never overwritten. */
  lemma EntryInvolutive(C: Complex, c: Cell, bdy: seq<Cell>, sw: map<Slot, Cell>, s: Slot)
    requires Involutive(C.switch) && Backed(C) && c != FullFace(C)
    requires forall t :: t in C.switch ==> t.hi.id < c.id
    requires forall t :: Get(sw, t) == Or(Written(C, c, bdy, bdy, t), Get(C.switch, t))
    requires s in sw
    ensures Slot(s.lo, sw[s], s.hi) in sw && sw[Slot(s.lo, sw[s], s.hi)] == s.mid
  {
    var p := Slot(s.lo, sw[s], s.hi);
    assert Get(sw, s) == Or(Written(C, c, bdy, bdy, s), Get(C.switch, s));
    assert Get(sw, p) == Or(Written(C, c, bdy, bdy, p), Get(C.switch, p));
    if Under(C, c, bdy, bdy, s).Some? {
      PairEntryBack(Intersect(Upper(C, s.lo), bdy), s.mid);
    } else if Over(C, c, bdy, s).Some? {
      PairEntryBack(Upper(C, s.lo) + [c], s.mid);
    } else {
      assert s in C.switch && p in C.switch;
      assert Under(C, c, bdy, bdy, p).None?;
      assert Over(C, c, bdy, p).None?;
    }
  }

  /** A successful `add` keeps the switch table involutive. */
  lemma AddInvolutive(C: Complex, boundary: seq<Cell>)
    requires Paired(C) && Uniform(boundary) && NoDup(boundary)
    requires Add(C, boundary).Success?
    ensures Involutive(Add(C, boundary).value.complex.switch)
  {
    var D, c := Add(C, boundary).value.complex, Add(C, boundary).value.cell;
    var bdy := Reassigned(boundary);
    AddedCell(C, boundary);
    forall t ensures Get(D.switch, t) == Or(Written(C, c, bdy, bdy, t), Get(C.switch, t)) {
      AddTable(C, boundary, t);
    }
    forall s | s in D.switch ensures Slot(s.lo, D.switch[s], s.hi) in D.switch && D.switch[Slot(s.lo, D.switch[s], s.hi)] == s.mid {
      EntryInvolutive(C, c, bdy, D.switch, s);
    }
  }

  /** `add` on a uniform, repetition-free boundary keeps everything the
      involution rests on, so every complex built from `new` by such calls
      has an involutive switch table. */
  lemma AddPaired(C: Complex, boundary: seq<Cell>)
    requires Paired(C) && Uniform(boundary) && NoDup(boundary)
    ensures Add(C, boundary).Success? ==> Paired(Add(C, boundary).value.complex)
  {
    if Add(C, boundary).Success? {
      AddGraded(C, boundary);
      AddKeys(C, boundary);
      AddBacked(C, boundary);
      AddInvolutive(C, boundary);
    }
  }
}
