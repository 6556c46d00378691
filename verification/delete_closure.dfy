/** What `CellComplex#delete` removes, stated against the complex before the
    call: every cell reachable upward from the deleted cell is gone, and the
    only cells and coboundary entries that disappear are ones above it
    (lib/cell_complex.rb). */
module DeleteClosure {
  import opened Cells
  import opened Complex
  import opened Deletion

  /** `x` lies above `a`: reachable through coboundary lists, and not the
      full face, which `delete` never removes. */
  ghost predicate Above(C: Complex, a: Cell, x: Cell) {
    x != FullFace(C) && exists k: nat :: Reaches(C, Upward, a, x, k)
  }

  ghost predicate AboveSome(C: Complex, R: seq<Cell>, x: Cell) {
    exists a :: a in R && Above(C, a, x)
  }

  /** Every coboundary entry of `C` missing from `D` points above `R`. */
  ghost predicate EdgesCut(C: Complex, D: Complex, R: seq<Cell>) {
    forall y, z :: z in Upper(C, y) && z !in Upper(D, y) ==> AboveSome(C, R, z)
  }

  /** Every cell of `C` missing from `D` lies above `R`. */
  ghost predicate CellsCut(C: Complex, D: Complex, R: seq<Cell>) {
    forall d, x :: x in Bucket(C, d) && x !in Bucket(D, d) ==> AboveSome(C, R, x)
  }

  /** Every cell of `C` above `R` is gone from `D`. */
  ghost predicate AllGone(C: Complex, D: Complex, R: seq<Cell>) {
    forall a, x :: a in R && Above(C, a, x) ==> Gone(D, x)
  }

  /** Every cell of `C` above `R` is detached in `D` from each of its
      facets: no facet lists it as a coface, and no switch entry keyed on it
      over a facet is left. */
  ghost predicate AllDetached(C: Complex, D: Complex, R: seq<Cell>) {
    forall a, x :: a in R && Above(C, a, x) ==> Detached(D, x)
  }

  /** Paths compose. */
  lemma {:induction false} ReachTrans(C: Complex, a: Cell, b: Cell, x: Cell, k1: nat, k2: nat)
    requires Reaches(C, Upward, a, b, k1) && Reaches(C, Upward, b, x, k2)
    ensures Reaches(C, Upward, a, x, k1 + k2)
    decreases k1
  {
    if k1 > 0 {
      var u := ReachFirst(C, a, b, k1);
      ReachTrans(C, u, b, x, k1 - 1, k2);
      ReachCons(C, a, u, x, k1 - 1 + k2);
    }
  }

  /** A path of a shrunken complex is a path of the original. */
  lemma {:induction false} ReachMono(C: Complex, D: Complex, a: Cell, x: Cell, k: nat)
    requires Shrinks(C, D) && Reaches(D, Upward, a, x, k)
    ensures Reaches(C, Upward, a, x, k)
    decreases k
  {
    if k > 0 {
      var u := ReachFirst(D, a, x, k);
      ReachMono(C, D, u, x, k - 1);
      ReachCons(C, a, u, x, k - 1);
    }
  }

  /** In a graded complex a path upward of at least one step rises in
      dimension and ends at most at the top dimension, or at the full
      face. */
  lemma {:induction false} ReachDims(C: Complex, a: Cell, x: Cell, k: nat)
    requires Graded(C) && k > 0 && Reaches(C, Upward, a, x, k)
    ensures x.dim > a.dim && (x.dim <= C.dim || x == FullFace(C))
    decreases k
  {
    var u := ReachFirst(C, a, x, k);
    if k > 1 {
      ReachDims(C, u, x, k - 1);
    }
  }

  /** Every cell the recursion of `delete` reaches from a cell whose list
      exists has a list too: Ruby's `@cells[cell.dim]` is never nil for
      it. */
  lemma AboveInArray(C: Complex, c: Cell, x: Cell)
    requires Graded(C) && HasBucket(C, c.dim) && Above(C, c, x)
    ensures HasBucket(C, x.dim)
  {
    var k: nat :| Reaches(C, Upward, c, x, k);
    if k > 0 {
      ReachDims(C, c, x, k);
    }
  }

  /** Nothing lies above the full face of a graded complex. */
  lemma NothingAboveFull(C: Complex, x: Cell)
    requires Graded(C)
    ensures !Above(C, FullFace(C), x)
  {
    // Grading gives the full face no cofaces at all.
  }

  /** `delete(full_face)` returns at once, and nothing lies above the full
      face, so doing nothing removes everything above it. */
  lemma FullRemovesNothing(C: Complex)
    requires Graded(C)
    ensures RemovesAbove(C, C, [FullFace(C)])
  {
    forall x ensures !Above(C, FullFace(C), x) {
      NothingAboveFull(C, x);
    }
  }

  /** A cell above a coface of `c` is above `c`. */
  lemma AboveCoface(C: Complex, c: Cell, u: Cell, x: Cell)
    requires u in Upper(C, c) && Above(C, u, x)
    ensures Above(C, c, x)
  {
    var k: nat :| Reaches(C, Upward, u, x, k);
    ReachCons(C, c, u, x, k);
  }

  /** A path of `C` survives into `D` unless it ends above `R`, provided
      every entry cut on the way to `D` points above `R`. */
  lemma {:induction false} Transfer(C: Complex, D: Complex, R: seq<Cell>, a: Cell, x: Cell, k: nat)
    requires Shrinks(C, D) && EdgesCut(C, D, R)
    requires Reaches(C, Upward, a, x, k) && x != FullFace(C)
    ensures Reaches(D, Upward, a, x, k) || AboveSome(C, R, x)
    decreases k
  {
    if k > 0 {
      var u := ReachFirst(C, a, x, k);
      if u in Upper(D, a) {
        Transfer(C, D, R, u, x, k - 1);
        if Reaches(D, Upward, u, x, k - 1) {
          ReachCons(D, a, u, x, k - 1);
        }
      } else {
        assert AboveSome(C, R, u);
        var b :| b in R && Above(C, b, u);
        var j: nat :| Reaches(C, Upward, b, u, j);
        ReachTrans(C, b, u, x, j, k - 1);
        assert Above(C, b, x);
      }
    }
  }

  /** Two rounds of removals cut only what either round cut. */
  lemma CutCompose(C: Complex, C1: Complex, D: Complex, R1: seq<Cell>, R2: seq<Cell>)
    requires Shrinks(C, C1) && Shrinks(C1, D)
    requires EdgesCut(C, C1, R1) && CellsCut(C, C1, R1)
    requires EdgesCut(C1, D, R2) && CellsCut(C1, D, R2)
    ensures EdgesCut(C, D, R1 + R2) && CellsCut(C, D, R1 + R2)
  {
    forall R, x | AboveSome(C1, R, x) ensures AboveSome(C, R, x) {
      var a :| a in R && Above(C1, a, x);
      var k: nat :| Reaches(C1, Upward, a, x, k);
      ReachMono(C, C1, a, x, k);
      assert Above(C, a, x);
    }
    forall R, x | AboveSome(C, R, x) && (R == R1 || R == R2) ensures AboveSome(C, R1 + R2, x) {
      var a :| a in R && Above(C, a, x);
      assert a in R1 + R2;
    }
    forall y, z | z in Upper(C, y) && z !in Upper(D, y) ensures AboveSome(C, R1 + R2, z) {
      if z in Upper(C1, y) {
        assert AboveSome(C1, R2, z);
      } else {
        assert AboveSome(C, R1, z);
      }
    }
    forall d, x | x in Bucket(C, d) && x !in Bucket(D, d) ensures AboveSome(C, R1 + R2, x) {
      if x in Bucket(C1, d) {
        assert AboveSome(C1, R2, x);
      } else {
        assert AboveSome(C, R1, x);
      }
    }
  }

  /** What a first round removed above `R` stays removed. */
  lemma GoneLater(C: Complex, C1: Complex, D: Complex, R: seq<Cell>)
    requires AllGone(C, C1, R) && Shrinks(C1, D)
    ensures AllGone(C, D, R)
  {
  }

  /** If the second round removes everything above `R2` as it stands
      then, everything above `R2` as it stood before the first round is
      gone too: a path the first round cut ends above `R1`, which the first
      round removed. */
  lemma GoneThrough(C: Complex, C1: Complex, D: Complex, R1: seq<Cell>, R2: seq<Cell>)
    requires Shrinks(C, C1) && Shrinks(C1, D)
    requires EdgesCut(C, C1, R1) && AllGone(C, C1, R1) && AllGone(C1, D, R2)
    ensures AllGone(C, D, R2)
  {
    forall a, x | a in R2 && Above(C, a, x) ensures Gone(D, x) {
      var k: nat :| Reaches(C, Upward, a, x, k);
      Transfer(C, C1, R1, a, x, k);
    }
  }

  /** Everything above `R` is removed and detached, and nothing else: the
      four facts together. */
  ghost predicate RemovesAbove(C: Complex, D: Complex, R: seq<Cell>) {
    AllGone(C, D, R) && CellsCut(C, D, R) && EdgesCut(C, D, R) && AllDetached(C, D, R)
  }

  /** A detached cell stays detached under removals. */
  lemma DetachedShrinks(C: Complex, D: Complex, x: Cell)
    requires Shrinks(C, D) && Detached(C, x)
    ensures Detached(D, x)
  {
    forall f | f in Lower(D, x) ensures DetachedFrom(D, x, f) {
      DetachedFromShrinks(C, D, x, f);
    }
  }

  /** What a first round detached above `R` stays detached. */
  lemma DetachLater(C: Complex, C1: Complex, D: Complex, R: seq<Cell>)
    requires AllDetached(C, C1, R) && Shrinks(C1, D)
    ensures AllDetached(C, D, R)
  {
    forall a, x | a in R && Above(C, a, x) ensures Detached(D, x) {
      DetachedShrinks(C1, D, x);
    }
  }

  /** The counterpart of `GoneThrough` for detachment: a path the first
      round cut ends above `R1`, whose cells the first round detached. */
  lemma DetachThrough(C: Complex, C1: Complex, D: Complex, R1: seq<Cell>, R2: seq<Cell>)
    requires Shrinks(C, C1) && Shrinks(C1, D)
    requires EdgesCut(C, C1, R1) && AllDetached(C, C1, R1) && AllDetached(C1, D, R2)
    ensures AllDetached(C, D, R2)
  {
    forall a, x | a in R2 && Above(C, a, x) ensures Detached(D, x) {
      var k: nat :| Reaches(C, Upward, a, x, k);
      Transfer(C, C1, R1, a, x, k);
      if !Reaches(C1, Upward, a, x, k) {
        DetachedShrinks(C1, D, x);
      }
    }
  }

  /** The last step of `delete(c)`: after the coboundary snapshot `kids` is
      handled, removing `c` itself completes the removal of all above it. */
  lemma DeleteStep(C: Complex, C1: Complex, D: Complex, c: Cell)
    requires c != FullFace(C) && Shrinks(C, C1) && Shrinks(C1, D)
    requires RemovesAbove(C, C1, Upper(C, c))
    requires Gone(D, c) && Detached(D, c)
    requires forall y, z :: z in Upper(C1, y) && z !in Upper(D, y) ==> z == c
    requires forall d, x :: x in Bucket(C1, d) && x !in Bucket(D, d) ==> x == c
    ensures RemovesAbove(C, D, [c])
  {
    var kids := Upper(C, c);
    assert Above(C1, c, c) by { assert Reaches(C1, Upward, c, c, 0); }
    assert EdgesCut(C1, D, [c]) && CellsCut(C1, D, [c]);
    CutCompose(C, C1, D, kids, [c]);
    forall x | AboveSome(C, kids + [c], x) ensures AboveSome(C, [c], x) {
      var a :| a in kids + [c] && Above(C, a, x);
      if a != c {
        AboveCoface(C, c, a, x);
      }
    }
    GoneLater(C, C1, D, kids);
    forall x | Above(C, c, x) ensures Gone(D, x) && Detached(D, x) {
      var k: nat :| Reaches(C, Upward, c, x, k);
      if k > 0 {
        var u := ReachFirst(C, c, x, k);
        assert Above(C, u, x);
        DetachedShrinks(C1, D, x);
      }
    }
  }

  /** One pass of the coboundary loop: deleting `kids[i]` and then the rest
      removes what lies above `kids[i..]`. */
  lemma EachStep(C: Complex, C1: Complex, D: Complex, kids: seq<Cell>, i: nat)
    requires i < |kids| && Shrinks(C, C1) && Shrinks(C1, D)
    requires RemovesAbove(C, C1, [kids[i]]) && RemovesAbove(C1, D, kids[i + 1..])
    ensures RemovesAbove(C, D, kids[i..])
  {
    CutCompose(C, C1, D, [kids[i]], kids[i + 1..]);
    assert [kids[i]] + kids[i + 1..] == kids[i..];
    GoneLater(C, C1, D, [kids[i]]);
    GoneThrough(C, C1, D, [kids[i]], kids[i + 1..]);
    DetachLater(C, C1, D, [kids[i]]);
    DetachThrough(C, C1, D, [kids[i]], kids[i + 1..]);
    assert forall a :: a in kids[i..] ==> a == kids[i] || a in kids[i + 1..];
  }

  /** `delete(c)` removes exactly the cells above `c` (including `c`),
      every coboundary entry it removes points to one of them, and each of
      them is detached from all its facets. */
  lemma {:induction false} DeleteFacts(C: Complex, c: Cell)
    requires Graded(C) && c != FullFace(C)
    ensures RemovesAbove(C, Delete(C, c), [c])
    decreases C.dim + 1 - c.dim, 1
  {
    var kids := Upper(C, c);
    var C1 := DeleteEach(C, c, kids, 0);
    assert Delete(C, c) == Remove(C1, c);
    DeleteEachFacts(C, c, kids, 0);
    assert kids[0..] == kids;
    DeleteStep(C, C1, Remove(C1, c), c);
  }

  /** The loop over the coboundary snapshot removes exactly what lies above
      the snapshot's remaining entries. */
  lemma {:induction false} DeleteEachFacts(C: Complex, parent: Cell, kids: seq<Cell>, i: nat)
    requires Graded(C) && i <= |kids|
    requires forall k :: k in kids ==> k.dim == parent.dim + 1 && k.dim <= C.dim + 1
    ensures RemovesAbove(C, DeleteEach(C, parent, kids, i), kids[i..])
    decreases C.dim + 1 - parent.dim, 0, |kids| - i, 2
  {
    if i == |kids| {
      assert kids[i..] == [];
    } else {
      EachStepAt(C, parent, kids, i);
    }
  }

  /** One pass of the loop: `delete(kids[i])`, then the rest of the loop. */
  lemma EachStepAt(C: Complex, parent: Cell, kids: seq<Cell>, i: nat)
    requires Graded(C) && i < |kids|
    requires forall k :: k in kids ==> k.dim == parent.dim + 1 && k.dim <= C.dim + 1
    ensures RemovesAbove(C, DeleteEach(C, parent, kids, i), kids[i..])
    decreases C.dim + 1 - parent.dim, 0, |kids| - i, 1
  {
    assert kids[i] in kids;
    DeleteOneFacts(C, kids[i]);
    DeleteEachRest(C, parent, kids, i);
    var C1 := Delete(C, kids[i]);
    var D := DeleteEach(C1, parent, kids, i + 1);
    assert DeleteEach(C, parent, kids, i) == D;
    EachStep(C, C1, D, kids, i);
  }

  /** The rest of the loop, run on the complex `delete(kids[i])` left. */
  lemma DeleteEachRest(C: Complex, parent: Cell, kids: seq<Cell>, i: nat)
    requires Graded(C) && i < |kids|
    requires forall k :: k in kids ==> k.dim == parent.dim + 1 && k.dim <= C.dim + 1
    ensures RemovesAbove(Delete(C, kids[i]), DeleteEach(Delete(C, kids[i]), parent, kids, i + 1), kids[i + 1..])
    decreases C.dim + 1 - parent.dim, 0, |kids| - i, 0
  {
    var C1 := Delete(C, kids[i]);
    assert Graded(C1) && C1.dim == C.dim;
    DeleteEachFacts(C1, parent, kids, i + 1);
  }

  /** `delete(k)` for one coboundary entry, the full face included. */
  lemma DeleteOneFacts(C: Complex, k: Cell)
    requires Graded(C) && k.dim <= C.dim + 1
    ensures RemovesAbove(C, Delete(C, k), [k])
    decreases C.dim + 1 - k.dim, 2
  {
    if k == FullFace(C) {
      FullRemovesNothing(C);
    } else {
      DeleteFacts(C, k);
    }
  }
}
