/** `existing_faces` in `SimplicialComplex#flip` (lib/simplicial_complex.rb):
    one Ruby hash per dimension from a face's sorted boundary to the face,
    filled from the faces of the cells being flipped out. A hash is an
    association list in insertion order. */
module FaceIndex {
  import opened Wrappers
  import opened Lists
  import opened Cells
  import opened Complex
  import opened Queries
  import opened Simplices

  /** One `key => face` pair. */
  datatype Entry = Entry(key: seq<Cell>, face: Cell)

  /** A hash from sorted boundaries to faces, oldest key first. */
  type Table = seq<Entry>

  /** No key is stored twice. */
  ghost predicate KeysDistinct(tb: Table) {
    forall i, j :: 0 <= i < j < |tb| ==> tb[i].key != tb[j].key
  }

  /** `table[key]`: the face stored under `key`, `nil` if there is none. */
  function Lookup(tb: Table, key: seq<Cell>): (r: Option<Cell>)
    ensures r.None? <==> forall j :: 0 <= j < |tb| ==> tb[j].key != key
    ensures r.Some? ==> exists j :: 0 <= j < |tb| && tb[j] == Entry(key, r.value)
  {
    if |tb| == 0 then None
    else if tb[0].key == key then Some(tb[0].face)
    else
      var r := Lookup(tb[1..], key);
      assert r.Some? ==> exists j :: 1 <= j < |tb| && tb[j] == Entry(key, r.value) by {
        if r.Some? {
          var j :| 0 <= j < |tb[1..]| && tb[1..][j] == Entry(key, r.value);
          assert tb[j + 1] == Entry(key, r.value);
        }
      }
      r
  }

  /** `table[key] = face`: a key already present keeps its place and takes
      the new face; a new key is appended (see `AssignFacts`). */
  function Assign(tb: Table, key: seq<Cell>, face: Cell): Table {
    if |tb| == 0 then [Entry(key, face)]
    else if tb[0].key == key then [Entry(key, face)] + tb[1..]
    else [tb[0]] + Assign(tb[1..], key, face)
  }

  /** Hash order under assignment: keys keep their places, a new key goes
      last, and nothing but the new pair enters. */
  lemma AssignFacts(tb: Table, key: seq<Cell>, face: Cell)
    ensures var r := Assign(tb, key, face);
      && |r| == (if Lookup(tb, key).Some? then |tb| else |tb| + 1)
      && (forall j :: 0 <= j < |tb| ==> r[j].key == tb[j].key)
      && (Lookup(tb, key).None? ==> r[|tb|] == Entry(key, face))
      && (forall j :: 0 <= j < |r| ==> r[j] == Entry(key, face) || r[j] in tb)
  {
    var r := Assign(tb, key, face);
    AssignKeys(tb, key, face);
    AssignFrom(tb, key, face);
    forall j | 0 <= j < |r| ensures r[j] == Entry(key, face) || r[j] in tb {
      assert r[j] in r;
    }
  }

  lemma {:induction false} AssignKeys(tb: Table, key: seq<Cell>, face: Cell)
    ensures var r := Assign(tb, key, face);
      && |r| == (if Lookup(tb, key).Some? then |tb| else |tb| + 1)
      && (forall j :: 0 <= j < |tb| ==> r[j].key == tb[j].key)
      && (Lookup(tb, key).None? ==> r[|tb|] == Entry(key, face))
  {
    if |tb| > 0 && tb[0].key != key {
      AssignKeys(tb[1..], key, face);
      assert Lookup(tb, key) == Lookup(tb[1..], key);
    }
  }

  lemma {:induction false} AssignFrom(tb: Table, key: seq<Cell>, face: Cell)
    ensures forall x :: x in Assign(tb, key, face) ==> x == Entry(key, face) || x in tb
  {
    if |tb| > 0 && tb[0].key != key {
      AssignFrom(tb[1..], key, face);
      assert Assign(tb, key, face) == [tb[0]] + Assign(tb[1..], key, face);
    } else if |tb| > 0 {
      assert Assign(tb, key, face) == [Entry(key, face)] + tb[1..];
    }
  }

  /** Assignment never repeats a key. */
  lemma AssignDistinct(tb: Table, key: seq<Cell>, face: Cell)
    requires KeysDistinct(tb)
    ensures KeysDistinct(Assign(tb, key, face))
  {
    AssignFacts(tb, key, face);
    var r := Assign(tb, key, face);
    forall i, j | 0 <= i < j < |r| ensures r[i].key != r[j].key {
      if j == |tb| {
        assert Lookup(tb, key).None?;
        assert tb[i].key != key;
      }
    }
  }

  /** Reading back an assignment: the key now yields the new face, every
      other key what it yielded before. */
  lemma {:induction false} AssignLookup(tb: Table, key: seq<Cell>, face: Cell, k: seq<Cell>)
    ensures Lookup(Assign(tb, key, face), k) == if k == key then Some(face) else Lookup(tb, k)
  {
    if |tb| > 0 && tb[0].key != key {
      AssignLookup(tb[1..], key, face, k);
      assert ([tb[0]] + Assign(tb[1..], key, face))[1..] == Assign(tb[1..], key, face);
    } else if |tb| > 0 {
      assert ([Entry(key, face)] + tb[1..])[1..] == tb[1..];
    }
  }

  /** `Array.new(@dim+1) { |i| {} }`. */
  function EmptyTables(n: nat): (ts: seq<Table>)
    ensures |ts| == n + 1 && forall i :: 0 <= i < |ts| ==> ts[i] == []
  {
    seq(n + 1, i => [])
  }

  /** Which faces of a flipped-out cell `flip` files at level d. As
      written, `c.down(d)`, which is empty at d == 0; as evidently intended
      (the comment on `down` allows offset 0), the cell itself at level 0.
      See the Findings of the README. */
  datatype Filing = AsWritten | Intended

  function LevelFaces(C: Complex, c: Cell, d: int, f: Filing): (es: seq<Cell>) {
    if d == 0 && f == Intended then [c] else Down(C, c, d)
  }

  /** `e` is one of the cells filed at level d for some cell of `out`: at
      level 0 as intended, a cell of `out` itself; otherwise a cell d levels
      below one. */
  ghost predicate FaceOf(C: Complex, out: seq<Cell>, e: Cell, d: int, f: Filing) {
    || (d == 0 && f == Intended && e in out)
    || exists c {:trigger Down(C, c, d)} :: c in out && e in Down(C, c, d)
  }

  /** Whatever a flipped-out cell files at a level is a face of that level. */
  lemma Filed(C: Complex, out: seq<Cell>, c: Cell, d: int, f: Filing, e: Cell)
    requires c in out && e in LevelFaces(C, c, d, f)
    ensures FaceOf(C, out, e, d, f)
  {
    if !(d == 0 && f == Intended) {
      assert e in Down(C, c, d);
    }
  }

  /** The table at index i is keyed by its faces' sorted boundaries, holds
      faces n-1-i levels below a cell of `out`, and repeats no key. */
  ghost predicate TableIndexed(C: Complex, out: seq<Cell>, tb: Table, i: int, f: Filing) {
    && KeysDistinct(tb)
    && forall j :: 0 <= j < |tb| ==>
         tb[j].key == Sort(Down(C, tb[j].face, 1)) && FaceOf(C, out, tb[j].face, C.dim - 1 - i, f)
  }

  /** One table per index 0..n, each indexed. */
  ghost predicate Indexed(C: Complex, out: seq<Cell>, ts: seq<Table>, f: Filing) {
    |ts| == C.dim + 1 && forall i :: 0 <= i < |ts| ==> TableIndexed(C, out, ts[i], i, f)
  }

  /** `r` keeps every key of `ts` in its place: tables only gain keys at
      the end. */
  ghost predicate Grows(ts: seq<Table>, r: seq<Table>) {
    |r| == |ts| && forall i :: 0 <= i < |ts| ==> KeyPrefix(ts[i], r[i])
  }

  ghost predicate KeyPrefix(tb: Table, r: Table) {
    |tb| <= |r| && forall j :: 0 <= j < |tb| ==> r[j].key == tb[j].key
  }

  /** A key found before is found after the table grows. */
  lemma PrefixLookup(tb: Table, r: Table, k: seq<Cell>)
    requires KeyPrefix(tb, r) && Lookup(tb, k).Some?
    ensures Lookup(r, k).Some?
  {
    var j :| 0 <= j < |tb| && tb[j] == Entry(k, Lookup(tb, k).value);
    assert r[j].key == k;
  }

  /** Every face filed at level d for a cell of `cs` (0 <= d < n) can be
      found under its sorted boundary in the table at index n-1-d. */
  ghost predicate Covers(C: Complex, cs: seq<Cell>, ts: seq<Table>, f: Filing)
    requires |ts| == C.dim + 1
  {
    forall c, d, e :: c in cs && 0 <= d < C.dim && e in LevelFaces(C, c, d, f) ==>
      Lookup(ts[C.dim - 1 - d], Sort(Down(C, e, 1))).Some?
  }

  /** One assignment into the table at `slot` loses no key and files the
      face under its key. */
  lemma AssignGrows(ts: seq<Table>, slot: nat, key: seq<Cell>, e: Cell)
    requires slot < |ts|
    ensures var r := ts[slot := Assign(ts[slot], key, e)];
      Grows(ts, r) && Lookup(r[slot], key).Some?
  {
    AssignFacts(ts[slot], key, e);
    var r := ts[slot := Assign(ts[slot], key, e)];
    assert KeyPrefix(ts[slot], r[slot]);
    forall i | 0 <= i < |ts| ensures KeyPrefix(ts[i], r[i]) {
      if i != slot {
        assert r[i] == ts[i];
      }
    }
    AssignLookup(ts[slot], key, e, key);
  }

  /** One assignment into the table at `slot` of a face that belongs there
      keeps the tables indexed. */
  lemma AssignSlotIndexed(C: Complex, out: seq<Cell>, ts: seq<Table>, slot: int, e: Cell, key: seq<Cell>, f: Filing)
    requires Indexed(C, out, ts, f) && 0 <= slot < |ts| && FaceOf(C, out, e, C.dim - 1 - slot, f)
    requires key == Sort(Down(C, e, 1))
    ensures Indexed(C, out, ts[slot := Assign(ts[slot], key, e)], f)
  {
    assert TableIndexed(C, out, ts[slot], slot, f);
    AssignTableIndexed(C, out, ts[slot], slot, e, key, f);
    var r := ts[slot := Assign(ts[slot], key, e)];
    forall i | 0 <= i < |r| ensures TableIndexed(C, out, r[i], i, f) {
      if i != slot {
        assert r[i] == ts[i];
      }
    }
  }

  lemma AssignTableIndexed(C: Complex, out: seq<Cell>, tb: Table, slot: int, e: Cell, key: seq<Cell>, f: Filing)
    requires TableIndexed(C, out, tb, slot, f) && FaceOf(C, out, e, C.dim - 1 - slot, f)
    requires key == Sort(Down(C, e, 1))
    ensures TableIndexed(C, out, Assign(tb, key, e), slot, f)
  {
    var r := Assign(tb, key, e);
    AssignFacts(tb, key, e);
    AssignDistinct(tb, key, e);
    forall j | 0 <= j < |r|
      ensures r[j].key == Sort(Down(C, r[j].face, 1)) && FaceOf(C, out, r[j].face, C.dim - 1 - slot, f)
    {
      if r[j] != Entry(key, e) {
        var m :| 0 <= m < |tb| && tb[m] == r[j];
      }
    }
  }

  /** `c.down(d)` as `e.down.sort => e` pairs. */
  function Entries(C: Complex, es: seq<Cell>): (ks: seq<Entry>)
    ensures |ks| == |es|
  {
    seq(|es|, j requires 0 <= j < |es| => Entry(Sort(Down(C, es[j], 1)), es[j]))
  }

  /** `c.down(d).each { |e| existing_faces[@dim-1-d][e.down.sort] = e }`
      from position j, over the pairs `ks`. */
  function IndexFaces(ts: seq<Table>, slot: nat, ks: seq<Entry>, j: nat): (r: seq<Table>)
    requires slot < |ts| && j <= |ks|
    ensures |r| == |ts|
    decreases |ks| - j
  {
    if j == |ks| then ts
    else IndexFaces(ts[slot := Assign(ts[slot], ks[j].key, ks[j].face)], slot, ks, j + 1)
  }

  /** The pairs of the faces filed at level d, for each d in `0...@dim`. */
  function Levels(C: Complex, c: Cell, f: Filing): (ls: seq<seq<Entry>>)
    ensures |ls| == C.dim
  {
    seq(C.dim, d => Entries(C, LevelFaces(C, c, d, f)))
  }

  /** `(0...@dim).each { |d| ... }` over the levels `ls`, from d; level d
      goes to the table at n-1-d. */
  function IndexLevels(C: Complex, ts: seq<Table>, ls: seq<seq<Entry>>, d: nat): (r: seq<Table>)
    requires |ts| == C.dim + 1 && |ls| <= C.dim
    ensures |r| == |ts|
    decreases |ls| - d
  {
    if d >= |ls| then ts
    else IndexLevels(C, IndexFaces(ts, C.dim - 1 - d, ls[d], 0), ls, d + 1)
  }

  /** Indexing the faces of one cell, level by level. */
  function IndexCell(C: Complex, ts: seq<Table>, c: Cell, f: Filing): (r: seq<Table>)
    requires |ts| == C.dim + 1
    ensures |r| == |ts|
  {
    IndexLevels(C, ts, Levels(C, c, f), 0)
  }

  /** `cells_to_flip_out.each do |c| ... end` from position i. */
  function IndexAll(C: Complex, ts: seq<Table>, out: seq<Cell>, i: nat, f: Filing): (r: seq<Table>)
    requires |ts| == C.dim + 1 && i <= |out|
    ensures |r| == |ts|
    decreases |out| - i
  {
    if i == |out| then ts else IndexAll(C, IndexCell(C, ts, out[i], f), out, i + 1, f)
  }

  /** The tables `flip` builds for the cells it flips out. */
  function Index(C: Complex, out: seq<Cell>, f: Filing): (r: seq<Table>)
    ensures |r| == C.dim + 1
  {
    IndexAll(C, EmptyTables(C.dim), out, 0, f)
  }

  lemma GrowsTrans(a: seq<Table>, b: seq<Table>, c: seq<Table>)
    requires Grows(a, b) && Grows(b, c)
    ensures Grows(a, c)
  {
    forall i | 0 <= i < |a| ensures KeyPrefix(a[i], c[i]) {
      assert KeyPrefix(a[i], b[i]) && KeyPrefix(b[i], c[i]);
    }
  }

  /** Every pair of `ks` is keyed by its face's sorted boundary, and the
      face lies d levels below a flipped-out cell. */
  ghost predicate Keyed(C: Complex, out: seq<Cell>, ks: seq<Entry>, d: int, f: Filing) {
    forall k :: 0 <= k < |ks| ==> ks[k].key == Sort(Down(C, ks[k].face, 1)) && FaceOf(C, out, ks[k].face, d, f)
  }

  /** Every level d of `ls` is keyed and filed at level d. */
  ghost predicate LevelsKeyed(C: Complex, out: seq<Cell>, ls: seq<seq<Entry>>, f: Filing) {
    forall d :: 0 <= d < |ls| ==> Keyed(C, out, ls[d], d, f)
  }

  /** Indexing pairs of faces n-1-slot levels below a flipped-out cell into
      the table at `slot` keeps the tables indexed. */
  lemma {:induction false} IndexFacesKeeps(C: Complex, out: seq<Cell>, ts: seq<Table>, slot: nat, ks: seq<Entry>, j: nat, lvl: int, f: Filing)
    requires Indexed(C, out, ts, f) && slot < |ts| && j <= |ks| && slot == C.dim - 1 - lvl && Keyed(C, out, ks, lvl, f)
    ensures Indexed(C, out, IndexFaces(ts, slot, ks, j), f)
    decreases |ks| - j
  {
    if j < |ks| {
      var e := ks[j].face;
      assert ks[j].key == Sort(Down(C, e, 1)) && FaceOf(C, out, e, lvl, f);
      assert lvl == C.dim - 1 - slot;
      AssignSlotIndexed(C, out, ts, slot, e, ks[j].key, f);
      IndexFacesKeeps(C, out, ts[slot := Assign(ts[slot], ks[j].key, e)], slot, ks, j + 1, lvl, f);
    }
  }

  /** Indexing pairs loses no key. */
  lemma {:induction false} IndexFacesGrows(ts: seq<Table>, slot: nat, ks: seq<Entry>, j: nat)
    requires slot < |ts| && j <= |ks|
    ensures Grows(ts, IndexFaces(ts, slot, ks, j))
    decreases |ks| - j
  {
    if j < |ks| {
      var ts1 := ts[slot := Assign(ts[slot], ks[j].key, ks[j].face)];
      AssignGrows(ts, slot, ks[j].key, ks[j].face);
      IndexFacesGrows(ts1, slot, ks, j + 1);
      GrowsTrans(ts, ts1, IndexFaces(ts1, slot, ks, j + 1));
    } else {
      assert Grows(ts, ts);
    }
  }

  /** Indexing pairs from j on files the key of the m-th. */
  lemma {:induction false} IndexFacesFiled(ts: seq<Table>, slot: nat, ks: seq<Entry>, j: nat, m: nat)
    requires slot < |ts| && j <= m < |ks|
    ensures Lookup(IndexFaces(ts, slot, ks, j)[slot], ks[m].key).Some?
    decreases |ks| - j
  {
    var ts1 := ts[slot := Assign(ts[slot], ks[j].key, ks[j].face)];
    assert IndexFaces(ts, slot, ks, j) == IndexFaces(ts1, slot, ks, j + 1);
    if m == j {
      AssignGrows(ts, slot, ks[j].key, ks[j].face);
      IndexFacesGrows(ts1, slot, ks, j + 1);
      var r := IndexFaces(ts1, slot, ks, j + 1);
      assert KeyPrefix(ts1[slot], r[slot]);
      PrefixLookup(ts1[slot], r[slot], ks[j].key);
    } else {
      IndexFacesFiled(ts1, slot, ks, j + 1, m);
    }
  }

  /** Indexing keyed levels, each level d at n-1-d, keeps the tables
      indexed. */
  lemma {:induction false} LevelsKeeps(C: Complex, out: seq<Cell>, ts: seq<Table>, ls: seq<seq<Entry>>, d: nat, f: Filing)
    requires Indexed(C, out, ts, f) && |ls| <= C.dim && LevelsKeyed(C, out, ls, f)
    ensures Indexed(C, out, IndexLevels(C, ts, ls, d), f)
    decreases |ls| - d
  {
    if d < |ls| {
      var ts1 := IndexFaces(ts, C.dim - 1 - d, ls[d], 0);
      assert IndexLevels(C, ts, ls, d) == IndexLevels(C, ts1, ls, d + 1);
      LevelKeeps(C, out, ts, ls, d, f);
      LevelsKeeps(C, out, ts1, ls, d + 1, f);
    } else {
      assert IndexLevels(C, ts, ls, d) == ts;
    }
  }

  /** ... one level of them. */
  lemma LevelKeeps(C: Complex, out: seq<Cell>, ts: seq<Table>, ls: seq<seq<Entry>>, d: nat, f: Filing)
    requires Indexed(C, out, ts, f) && d < |ls| <= C.dim && LevelsKeyed(C, out, ls, f)
    ensures Indexed(C, out, IndexFaces(ts, C.dim - 1 - d, ls[d], 0), f)
  {
    assert Keyed(C, out, ls[d], d, f);
    IndexFacesKeeps(C, out, ts, C.dim - 1 - d, ls[d], 0, d, f);
  }

  /** Indexing levels loses no key. */
  lemma {:induction false} LevelsGrow(C: Complex, ts: seq<Table>, ls: seq<seq<Entry>>, d: nat)
    requires |ts| == C.dim + 1 && |ls| <= C.dim
    ensures Grows(ts, IndexLevels(C, ts, ls, d))
    decreases |ls| - d
  {
    if d < |ls| {
      var ts1 := IndexFaces(ts, C.dim - 1 - d, ls[d], 0);
      IndexFacesGrows(ts, C.dim - 1 - d, ls[d], 0);
      LevelsGrow(C, ts1, ls, d + 1);
      GrowsTrans(ts, ts1, IndexLevels(C, ts1, ls, d + 1));
    } else {
      assert Grows(ts, ts);
    }
  }

  /** Indexing levels from d on files the k-th key of level d0 >= d at
      n-1-d0. */
  lemma {:induction false} LevelFiled(C: Complex, ts: seq<Table>, ls: seq<seq<Entry>>, d: nat, d0: nat, k: nat)
    requires |ts| == C.dim + 1 && |ls| <= C.dim && d <= d0 < |ls| && k < |ls[d0]|
    ensures Lookup(IndexLevels(C, ts, ls, d)[C.dim - 1 - d0], ls[d0][k].key).Some?
    decreases |ls| - d
  {
    var slot := C.dim - 1 - d;
    var ts1 := IndexFaces(ts, slot, ls[d], 0);
    assert IndexLevels(C, ts, ls, d) == IndexLevels(C, ts1, ls, d + 1);
    if d == d0 {
      IndexFacesFiled(ts, slot, ls[d], 0, k);
      LevelsGrow(C, ts1, ls, d + 1);
      var r := IndexLevels(C, ts1, ls, d + 1);
      assert KeyPrefix(ts1[slot], r[slot]);
      PrefixLookup(ts1[slot], r[slot], ls[d][k].key);
    } else {
      LevelFiled(C, ts1, ls, d + 1, d0, k);
    }
  }

  /** Indexing a flipped-out cell keeps the tables indexed, loses no key and
      files every face of each level d in 0..n-1 at n-1-d. */
  lemma IndexCellFacts(C: Complex, out: seq<Cell>, ts: seq<Table>, c: Cell, f: Filing)
    requires Indexed(C, out, ts, f) && c in out
    ensures Indexed(C, out, IndexCell(C, ts, c, f), f) && Grows(ts, IndexCell(C, ts, c, f))
    ensures forall d, e :: 0 <= d < C.dim && e in LevelFaces(C, c, d, f) ==>
      Lookup(IndexCell(C, ts, c, f)[C.dim - 1 - d], Sort(Down(C, e, 1))).Some?
  {
    var ls := Levels(C, c, f);
    forall d | 0 <= d < |ls| ensures Keyed(C, out, ls[d], d, f) {
      forall k | 0 <= k < |ls[d]|
        ensures ls[d][k].key == Sort(Down(C, ls[d][k].face, 1)) && FaceOf(C, out, ls[d][k].face, d, f)
      {
        Filed(C, out, c, d, f, ls[d][k].face);
      }
    }
    LevelsKeeps(C, out, ts, ls, 0, f);
    LevelsGrow(C, ts, ls, 0);
    forall d, e | 0 <= d < C.dim && e in LevelFaces(C, c, d, f)
      ensures Lookup(IndexCell(C, ts, c, f)[C.dim - 1 - d], Sort(Down(C, e, 1))).Some?
    {
      var k :| 0 <= k < |LevelFaces(C, c, d, f)| && LevelFaces(C, c, d, f)[k] == e;
      assert ls[d][k].key == Sort(Down(C, e, 1));
      LevelFiled(C, ts, ls, 0, d, k);
    }
  }

  /** Indexing the cells of `out` from position i on, after the first i
      have been indexed, covers all of them. */
  lemma {:induction false} IndexAllFacts(C: Complex, out: seq<Cell>, ts: seq<Table>, i: nat, f: Filing)
    requires Indexed(C, out, ts, f) && i <= |out| && Covers(C, out[..i], ts, f)
    ensures var r := IndexAll(C, ts, out, i, f);
      Indexed(C, out, r, f) && Covers(C, out, r, f)
    decreases |out| - i
  {
    if i == |out| {
      assert out[..i] == out;
    } else {
      var c := out[i];
      var ts1 := IndexCell(C, ts, c, f);
      IndexCellFacts(C, out, ts, c, f);
      forall x, d, e | x in out[..i + 1] && 0 <= d < C.dim && e in LevelFaces(C, x, d, f)
        ensures Lookup(ts1[C.dim - 1 - d], Sort(Down(C, e, 1))).Some?
      {
        if x != c {
          assert x in out[..i];
          assert Lookup(ts[C.dim - 1 - d], Sort(Down(C, e, 1))).Some?;
          assert KeyPrefix(ts[C.dim - 1 - d], ts1[C.dim - 1 - d]);
          PrefixLookup(ts[C.dim - 1 - d], ts1[C.dim - 1 - d], Sort(Down(C, e, 1)));
        }
      }
      IndexAllFacts(C, out, ts1, i + 1, f);
    }
  }

  /** The tables `flip` builds are indexed over the cells it flips out and
      file every face of every level under its sorted boundary: the faces
      1..n-1 levels below each flipped-out cell, and, as intended, the cell
      itself. */
  lemma IndexFacts(C: Complex, out: seq<Cell>, f: Filing)
    ensures Indexed(C, out, Index(C, out, f), f) && Covers(C, out, Index(C, out, f), f)
  {
    var ts := EmptyTables(C.dim);
    assert Indexed(C, out, ts, f);
    IndexAllFacts(C, out, ts, 0, f);
  }

  /** A face found in the tables is the face whose sorted boundary is the
      key asked for, and is filed at level n-1-i for a flipped-out cell. */
  lemma Found(C: Complex, out: seq<Cell>, ts: seq<Table>, i: int, key: seq<Cell>, e: Cell, f: Filing)
    requires Indexed(C, out, ts, f) && 0 <= i < |ts| && Lookup(ts[i], key) == Some(e)
    ensures key == Sort(Down(C, e, 1)) && FaceOf(C, out, e, C.dim - 1 - i, f)
  {
    var j :| 0 <= j < |ts[i]| && ts[i][j] == Entry(key, e);
    assert TableIndexed(C, out, ts[i], i, f);
  }

  /** In a graded complex whose flipped-out cells are top-dimensional, a
      face filed at level n-1-i for one of them has dimension i+1, and no
      face is filed above level 0. */
  lemma FaceOfDim(C: Complex, out: seq<Cell>, e: Cell, i: int, f: Filing)
    requires Graded(C) && 0 <= i <= C.dim && FaceOf(C, out, e, C.dim - 1 - i, f)
    requires forall c :: c in out ==> c.dim == C.dim
    ensures e.dim == i + 1 && i + 1 <= C.dim
  {
    var k := C.dim - 1 - i;
    if !(k == 0 && f == Intended && e in out) {
      var c :| c in out && e in Down(C, c, k);
      if k >= 1 {
        WalkReaches(C, Downward, c, k, e);
        DescentDims(C, c, e, k);
      }
    }
  }

  /** As written, nothing is filed at level 0, so the table the top
      dimension's cones are looked up in stays empty. */
  lemma TopTableEmpty(C: Complex, out: seq<Cell>)
    requires C.dim >= 1
    ensures Index(C, out, AsWritten)[C.dim - 1] == []
  {
    var ts := Index(C, out, AsWritten);
    IndexFacts(C, out, AsWritten);
    NothingAtLevelZero(C, out);
    HeadFiled(C, out, ts[C.dim - 1], C.dim - 1, AsWritten);
  }

  /** The first face of an indexed table is filed at its table's level. */
  lemma HeadFiled(C: Complex, out: seq<Cell>, tb: Table, i: int, f: Filing)
    requires TableIndexed(C, out, tb, i, f)
    ensures |tb| > 0 ==> FaceOf(C, out, tb[0].face, C.dim - 1 - i, f)
  {
  }

  /** As written, level 0 files nothing: `c.down(0)` is empty. */
  lemma NothingAtLevelZero(C: Complex, out: seq<Cell>)
    ensures forall e, d :: d == 0 ==> !FaceOf(C, out, e, d, AsWritten)
  {
    forall c | c in out ensures Down(C, c, 0) == [] {
    }
  }

  /** As intended, every flipped-out cell is filed in that table under its
      own sorted boundary, and every cell found there is a flipped-out
      cell. */
  lemma TopTableFilesOut(C: Complex, out: seq<Cell>, c: Cell, key: seq<Cell>, e: Cell)
    requires C.dim >= 1
    ensures c in out ==> Lookup(Index(C, out, Intended)[C.dim - 1], Sort(Down(C, c, 1))).Some?
    ensures Lookup(Index(C, out, Intended)[C.dim - 1], key) == Some(e) ==>
      e in out && key == Sort(Down(C, e, 1))
  {
    var ts := Index(C, out, Intended);
    IndexFacts(C, out, Intended);
    if c in out {
      assert c in LevelFaces(C, c, 0, Intended);
    }
    if Lookup(ts[C.dim - 1], key) == Some(e) {
      Found(C, out, ts, C.dim - 1, key, e, Intended);
    }
  }
}
