/** `down` and `up` against their reference meaning: the cells reached in
    exactly `offset` steps of the incidence lists (lib/cell_complex.rb). */
module Queries {
  import opened Lists
  import opened Cells
  import opened Complex

  /** The concatenation holds exactly the cells of the individual walks. */
  lemma {:induction false} WalkEachMember(C: Complex, dir: Direction, fs: seq<Cell>, k: int, x: Cell)
    requires k >= 1
    ensures x in WalkEach(C, dir, fs, k) <==> exists i :: 0 <= i < |fs| && x in Walk(C, dir, fs[i], k)
    decreases |fs|
  {
    if |fs| > 0 {
      WalkEachMember(C, dir, fs[1..], k, x);
      if x in WalkEach(C, dir, fs[1..], k) {
        var j :| 0 <= j < |fs[1..]| && x in Walk(C, dir, fs[1..][j], k);
        assert fs[1..][j] == fs[j + 1];
      }
      if exists i :: 0 <= i < |fs| && x in Walk(C, dir, fs[i], k) {
        var i :| 0 <= i < |fs| && x in Walk(C, dir, fs[i], k);
        if i > 0 {
          assert fs[1..][i - 1] == fs[i];
        }
      }
    }
  }

  /** One step then a path of k-1 steps is a path of k steps. */
  lemma StepThen(C: Complex, dir: Direction, c: Cell, u: Cell, x: Cell, k: nat)
    requires k >= 1 && u in Step(C, dir, c) && Reaches(C, dir, u, x, k - 1)
    ensures Reaches(C, dir, c, x, k)
  {
  }

  /** Everything `down(c, k)` / `up(c, k)` lists is `k` steps away. */
  lemma {:induction false} WalkSound(C: Complex, dir: Direction, c: Cell, k: int, x: Cell)
    requires k >= 1 && x in Walk(C, dir, c, k)
    ensures Reaches(C, dir, c, x, k)
    decreases k
  {
    if k == 1 {
      WalkOne(C, dir, c, x);
    } else {
      var u := WalkVia(C, dir, c, k, x);
      WalkSound(C, dir, u, k - 1, x);
      StepThen(C, dir, c, u, x, k);
    }
  }

  /** `down(c, 1)` / `up(c, 1)` lists the stored neighbours. */
  lemma WalkOne(C: Complex, dir: Direction, c: Cell, x: Cell)
    requires x in Walk(C, dir, c, 1)
    ensures Reaches(C, dir, c, x, 1)
  {
    assert x in Step(C, dir, c);
    assert Reaches(C, dir, x, x, 0);
  }

  /** A cell of a longer walk comes through some stored neighbour. */
  lemma WalkVia(C: Complex, dir: Direction, c: Cell, k: int, x: Cell) returns (u: Cell)
    requires k >= 2 && x in Walk(C, dir, c, k)
    ensures u in Step(C, dir, c) && x in Walk(C, dir, u, k - 1)
  {
    var st := Step(C, dir, c);
    assert Walk(C, dir, c, k) == Dedup(WalkEach(C, dir, st, k - 1));
    WalkEachMember(C, dir, st, k - 1, x);
    var i :| 0 <= i < |st| && x in Walk(C, dir, st[i], k - 1);
    u := st[i];
  }

  /** Everything `k` steps away is listed by `down(c, k)` / `up(c, k)`. */
  lemma {:induction false} WalkComplete(C: Complex, dir: Direction, c: Cell, k: int, x: Cell)
    requires k >= 1 && Reaches(C, dir, c, x, k)
    ensures x in Walk(C, dir, c, k)
    decreases k
  {
    var u :| u in Step(C, dir, c) && Reaches(C, dir, u, x, k - 1);
    if k == 1 {
      assert u == x;
    } else {
      WalkComplete(C, dir, u, k - 1, x);
      WalkThrough(C, dir, c, k, u, x);
    }
  }

  /** A cell of the walk from a stored neighbour is on the longer walk. */
  lemma WalkThrough(C: Complex, dir: Direction, c: Cell, k: int, u: Cell, x: Cell)
    requires k >= 2 && u in Step(C, dir, c) && x in Walk(C, dir, u, k - 1)
    ensures x in Walk(C, dir, c, k)
  {
    var st := Step(C, dir, c);
    var i :| 0 <= i < |st| && st[i] == u;
    WalkEachMember(C, dir, st, k - 1, x);
    assert Walk(C, dir, c, k) == Dedup(WalkEach(C, dir, st, k - 1));
  }

  /** `down(c, k)` / `up(c, k)` for k >= 1 lists exactly the cells `k` steps
      away, each once. */
  lemma WalkReaches(C: Complex, dir: Direction, c: Cell, k: int, x: Cell)
    requires k >= 1
    ensures x in Walk(C, dir, c, k) <==> Reaches(C, dir, c, x, k)
    ensures NoDup(Walk(C, dir, c, k))
  {
    if x in Walk(C, dir, c, k) {
      WalkSound(C, dir, c, k, x);
    }
    if Reaches(C, dir, c, x, k) {
      WalkComplete(C, dir, c, k, x);
    }
  }
}
