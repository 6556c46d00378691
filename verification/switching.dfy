/** The switch operator is an involution wherever the table pairs its
    entries both ways, and `add_switches` keeps it so
    (lib/cell_complex.rb). */
module Switching {
  import opened Wrappers
  import opened Cells
  import opened Tuples
  import opened Complex
  import opened Insertion

  /** Every entry's partner points back: the slot of the partner cell maps
      to the original middle cell. */
  ghost predicate Involutive(sw: map<Slot, Cell>) {
    forall s :: s in sw ==> Slot(s.lo, sw[s], s.hi) in sw && sw[Slot(s.lo, sw[s], s.hi)] == s.mid
  }

  /** The slot of the switched tuple is the partner slot. */
  lemma SlotAfterSwitch(C: Complex, k: int, t: CellTuple, t2: CellTuple)
    requires 0 <= k < |t.cells| && |t2.cells| == |t.cells|
    requires forall i :: 0 <= i < |t.cells| && i != k ==> t2.cells[i] == t.cells[i]
    requires SlotOf(C, k, t).Some?
    ensures SlotOf(C, k, t2) == Some(Slot(SlotOf(C, k, t).value.lo, t2.cells[k], SlotOf(C, k, t).value.hi))
  {
    if k > 0 {
      assert At(t2, k - 1) == At(t, k - 1);
    }
    if k < C.dim {
      if k + 1 < |t.cells| {
        assert At(t2, k + 1) == At(t, k + 1);
      }
    }
  }

  /** Switching twice at the same rank returns the original tuple when the
      table is involutive. */
  lemma SwitchTwice(C: Complex, k: int, t: CellTuple)
    requires Involutive(C.switch)
    requires Switch(C, k, t).Success? && Switch(C, k, t).value.Some?
    ensures var t2 := Switch(C, k, t).value.value;
      Switch(C, k, t2) == Success(Some(t))
  {
    var t2 := Switch(C, k, t).value.value;
    var s := SlotOf(C, k, t).value;
    SlotAfterSwitch(C, k, t, t2);
    assert SlotOf(C, k, t2) == Some(Slot(s.lo, C.switch[s], s.hi));
    var t3 := Switch(C, k, t2).value.value;
    assert t3.cells == t.cells;
  }

  /** `add_switches` keeps the table involutive, provided the slot holds no
      entry for either candidate that disagrees with the new pairing. Ruby
      overwrites such an entry regardless, as after a `delete` that left a
      partner's entry behind; that case is outside this lemma. */
  lemma AddSwitchesInvolutive(sw: map<Slot, Cell>, lo: Cell, faces: seq<Cell>, hi: Cell)
    requires Involutive(sw) && |faces| <= 2
    requires |faces| == 2 ==>
      && (Slot(lo, faces[0], hi) in sw ==> sw[Slot(lo, faces[0], hi)] == faces[1])
      && (Slot(lo, faces[1], hi) in sw ==> sw[Slot(lo, faces[1], hi)] == faces[0])
    ensures AddSwitches(sw, lo, faces, hi).Success?
    ensures Involutive(AddSwitches(sw, lo, faces, hi).value)
  {
    if |faces| == 2 {
      var a, b := Slot(lo, faces[0], hi), Slot(lo, faces[1], hi);
      var r := AddSwitches(sw, lo, faces, hi).value;
      assert r == sw[a := faces[1]][b := faces[0]];
      forall s | s in r ensures Slot(s.lo, r[s], s.hi) in r && r[Slot(s.lo, r[s], s.hi)] == s.mid {
        if s != a && s != b {
          var p := Slot(s.lo, sw[s], s.hi);
          assert p in sw && sw[p] == s.mid;
        }
      }
    }
  }
}
