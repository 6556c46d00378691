# Cell complexes, simplicial complexes and bistellar flips

This project models the combinatorial core of `ruby-compgeom` in Dafny. It covers three layers.

1. **The `CellComplex` incidence and switch engine.** A complex of dimension `n` has:
   - the empty face, of dimension -1, and the full face, of dimension `n+1`;
   - one bucket of cells per dimension `0..n`;
   - a `lower` list (boundary) and an `upper` list (coboundary) for every cell;
   - a switch table. For each slot `(lower face, cell, upper face)` the table names the other cell of that diamond.

   The operations are `add`, `delete`, `down`, `up`, `tuple` and `switch`, together with their private helpers: the mod-2 boundary test, the falling and rising path searches, and `add_switches`.
2. **The `PiecewiseLinearComplex` layer.** Vertices carry coordinates. `add` takes either coordinates or a boundary. A cell's `head` and `tail` are the first two cells below it.
3. **The `SimplicialComplex` layer.**
   - The vertices of a simplex.
   - A containment test written against an abstract orientation sign `orient`.
   - Point location by linear scan.
   - Stellar subdivision (`add_star`).
   - The orbit walks `opposite_vertex` and `next_facet`.
   - The bistellar `flip`.

**How the model represents the system:**
- The complex is an immutable record of maps, `Complex.Complex`.
- Ruby object identity is replaced by integer handles `Cell(dim, id)`. Ids 0 and 1 are the two sentinels, and every new cell gets a fresh id.
- Every mutating method is a function from the old complex to the new one.
- Ruby exceptions and `nil` dereferences become the values of `Complex.Error`, returned in `Result`.
- Ruby `nil` results that callers test for are `Option.None`.

**The invariant most proofs rest on** is `Graded` (module `Complex`):
- bucket `d` holds only cells of dimension `d`;
- every cell below `c` has dimension `c.dim - 1`;
- every cell above `c` has dimension `c.dim + 1`, and is either at most of dimension `n` or is the full face.

`StarFacts.Sound` adds one more condition: the full face has no lower list. `Graded` is what makes the recursions of `delete`, `falling_path` and `rising_path` terminate on a dimension measure. `add` preserves `Graded` when all boundary cells share one dimension; `delete` preserves it always.

**Incidence symmetry** is `Complex.Sym`: a live cell `y` is in the upper list of `x` exactly when `x` is in the lower list of `y`. The full face is never live, so its empty lower list is no exception. A new complex has it, `add` keeps it (`Symmetry.AddSym`), and `delete` keeps it (`Symmetry.DeleteSym`). After `delete`, no surviving cell lists a removed cell as a face or a coface (`Symmetry.DeleteNoDangling`).

**Two things the source leaves open are taken as assumptions:**
- `orient` is an uninterpreted parameter (`Simplices.Orient`).
- `faces(i)` is called by `add_star` and `flip`, but no file defines it. It is taken to be the `i`-dimensional faces of a cell, with the cell itself when `i` equals its dimension (`Star.Faces`).

**Where the documented behaviour and the code differ, the model follows the code:**
- `flip` never checks that the facet has exactly two cofaces. Its first line calls `vertices` on every cell above the facet, and only a Simplex (a top cell of a simplicial complex) has that method, so any other coface makes `flip` raise.
- `add_star`, `locate` and `flip` exist only on a simplicial complex. On a piecewise-linear one the model returns the error Ruby's missing method would raise.
- `switch` bounds `k` by the tuple's own dimension, not by the complex's.
- The falling path of `tuple` follows only the first cell of each lower list. When that search fails, Ruby's `each` returns the list it iterated. The model follows the same first-cell walk.
- `delete` clears only the switch entries keyed on the deleted cell and its facets. A partner's entry still names the deleted cell.
- One exception: `flip` files faces with `c.down(d)` from `d = 0`, and `down(c, 0)` is empty, so the flipped-out cells themselves are never filed. The model's `flip` takes the filing as a parameter: `AsWritten` is the code as written, `Intended` files each flipped-out cell at level 0. What each filing does is proved (see Findings).

## Model

| member | source | states |
|---|---|---|
| Cells.Compare | lib/cell_complex.rb:19-22 | Every cell is greater than `nil`. Cells of different dimensions are ordered by dimension. The comparison is 0 exactly for the same cell. The result is always -1, 0 or 1. |
| Cells.CompareAntisymmetric | lib/cell_complex.rb:19-22 | Swapping the two cells negates the comparison. |
| Cells.LeTotalOrder | lib/cell_complex.rb:17-22 | The induced order is reflexive, antisymmetric, transitive and total: an arbitrary but consistent order. |
| Cells.LeRespectsDimension | lib/cell_complex.rb:17-21 | A cell of lower dimension always comes first. Cells in order never decrease in dimension. |
| Cells.Sort | lib/cell_complex.rb:195 | `sort!` yields a sorted permutation of the cells: the same multiset, in order. |
| Cells.Insert | lib/cell_complex.rb:195 | Inserting into a sorted list keeps it sorted and adds exactly one copy of the cell. |
| Tuples.Make | lib/cell_complex.rb:41-50 | A tuple is built exactly when the list is non-empty and has `n+1` cells. It then holds those cells and has dimension `n`. An empty list is rejected as "not cells". |
| Tuples.At | lib/cell_complex.rb:60-62 | An index inside the tuple returns that cell. Negative indices count from the end. An index outside the tuple in either direction gives `nil`. |
| Tuples.Set | lib/cell_complex.rb:64-66 | An index above the tuple's dimension leaves the tuple unchanged. An index in range replaces exactly that position; a negative one counts from the end. An index before the start is an error. The length never changes. |
| Complex.Init | lib/cell_complex.rb:85-96 | A new complex of dimension `n` has empty buckets for exactly the dimensions `0..n`, no incidences and no switch entries. Fresh ids start after the two sentinels. Incidence symmetry holds from the start. |
| Complex.FullFace | lib/cell_complex.rb:95 | The full face has dimension `n+1` and is not the empty face. |
| Complex.Walk | lib/cell_complex.rb:177-187 | `down` and `up` never return a cell twice. |
| Queries.WalkReaches | lib/cell_complex.rb:177-187 | `down(c, k)` (`up(c, k)`) for `k >= 1` contains a cell exactly when a chain of `k` lower (upper) incidences leads from `c` to it, and never repeats a cell. |
| Queries.WalkSound | lib/cell_complex.rb:177-187 | Every cell `down`/`up` returns lies `k` incidence steps from `c`. |
| Queries.WalkComplete | lib/cell_complex.rb:177-187 | Every cell `k` incidence steps from `c` is returned by `down`/`up` at offset `k`. |
| Queries.WalkEachMember | lib/cell_complex.rb:178 | The flattened, de-duplicated map over the neighbours holds exactly the cells found from some neighbour. |
| Complex.Switch | lib/cell_complex.rb:137-149 | Raises exactly when `k < 0` or `k > tuple.dim`. Returns a tuple exactly when the table has an entry for the slot. The slot's lower face is the empty face at `k = 0`; its upper face is the full face at `k = n`. The returned tuple equals the input except at position `k`, which holds the table's entry. |
| Switching.SwitchTwice | lib/cell_complex.rb:137-149 | When the table is an involution, switching twice at the same `k` returns the original tuple. Every complex built by `new` and `add` has such a table (Involution.AddPaired). |
| Switching.AddSwitchesInvolutive | lib/cell_complex.rb:240-246 | Writing a consistent pair of entries into an involutive table leaves it involutive. Overwriting an entry that disagrees, as `add` may after a `delete`, is outside this lemma. |
| Insertion.CheckBoundary | lib/cell_complex.rb:209-215 | Accepts exactly when every facet occurs an even number of times among the boundary cells' own lower lists. |
| Insertion.Tally | lib/cell_complex.rb:210-213 | The hash counts every facet with its exact multiplicity over the lists seen so far, and has no other keys. |
| Insertion.NoOddCount | lib/cell_complex.rb:214 | Is true exactly when no count in the hash is odd. |
| Insertion.AddSwitches | lib/cell_complex.rb:240-246 | Fails as a diamond violation exactly when there are more than two candidates. With exactly two it maps each to the other. With fewer it changes nothing. Entries for any other lower or upper face are never touched. |
| Insertion.Diamonds | lib/cell_complex.rb:127-130 | Fails exactly when, for some face below the facet, more than two of its cofaces lie in the boundary. Otherwise it only writes entries whose upper face is the new cell, and keeps all old entries. |
| Insertion.AddIncidences | lib/cell_complex.rb:119-131 | The new cell joins the upper list of every boundary facet, and no other upper list changes. Buckets and lower lists are untouched. Switch entries for other upper cells are kept. When the loop raises, and which entries it writes, are stated by InsertionTable.AddIncidencesFails and InsertionTable.AddIncidencesTable. |
| Insertion.AddFacet | lib/cell_complex.rb:121-130 | One facet gets the new cell appended to its upper list. No other upper list changes. Old switch entries survive. When it raises, and which entries it writes, are stated by InsertionTable.AddFacetFails and InsertionTable.AddFacetTable. |
| Insertion.FreshId | lib/cell_complex.rb:112 | The new handle differs from every handle allocated before and from every boundary cell. |
| Insertion.Allocate | lib/cell_complex.rb:112-116 | The new cell gets the boundary as its lower list. Its upper list is `[full_face]` exactly when it is top-dimensional. It is appended to its own bucket, and no other bucket changes. |
| Insertion.Build | lib/cell_complex.rb:112-131 | Registration of a cell with a boundary: the incidence effects of `Allocate` plus the cell in every facet's upper list, or a diamond violation. When it raises, and which entries it writes, are stated by InsertionTable.BuildFails and InsertionTable.BuildTable. |
| Insertion.Add | lib/cell_complex.rb:101-135 | `add` raises "not a valid boundary" exactly when the boundary is not a mod-2 cycle. Its only other failures are a missing bucket and a diamond violation (exactly when, see InsertionTable.AddFails). On success: the cell is fresh, and its dimension is the boundary's plus one (0 for an empty boundary). Its lower list is `[empty_face]` for a 0-cell and the boundary otherwise. Its upper list is `[full_face]` exactly when it is top-dimensional. It is appended to its bucket. It joins each facet's upper list. No other bucket, lower list or upper list changes. |
| InsertionTable.AddSwitchesTable | lib/cell_complex.rb:240-246 | After `add_switches` with at most two candidates, a slot with the given lower and upper faces whose middle cell is one of exactly two candidates reads the other one. Every other slot reads what it read before. |
| InsertionTable.DiamondsTable | lib/cell_complex.rb:127-130 | After the loop over the faces below a facet, a slot under the new cell over one of those faces reads the partner of its middle cell among the boundary cells above that face, when there are exactly two. Every other slot keeps its entry. |
| InsertionTable.AddFacetFails | lib/cell_complex.rb:121-130 | Processing one facet raises a diamond violation exactly when the new cell is top-dimensional and the facet already has two cofaces, or some face below the facet has more than two cofaces in the boundary. |
| InsertionTable.AddFacetTable | lib/cell_complex.rb:121-130 | After one facet: a slot under the new cell over a face of the facet reads the partner among the boundary cells above that face. For a top-dimensional cell, a full-face slot over the facet reads the partner among the facet's cofaces, the new cell included. Every other slot keeps its entry. |
| InsertionTable.AddIncidencesFails | lib/cell_complex.rb:119-131 | For a repetition-free boundary whose cells' faces are neither boundary cells nor the new cell, the loop raises a diamond violation exactly when some remaining boundary cell clashes as in AddFacetFails, judged against the complex before the loop. |
| InsertionTable.AddIncidencesUppers | lib/cell_complex.rb:121 | After the loop, each remaining boundary cell's upper list is its old one with the new cell appended. |
| InsertionTable.AddIncidencesTable | lib/cell_complex.rb:119-131 | After the loop, every slot reads the entry the loop writes for it (the partner within a diamond under the new cell, or the partner among a facet's cofaces over the full face), and otherwise its old entry. |
| InsertionTable.BuildFails | lib/cell_complex.rb:112-131 | Registering a fresh cell raises a diamond violation exactly when some boundary cell clashes. |
| InsertionTable.BuildTable | lib/cell_complex.rb:112-131 | After registering a fresh cell, the switch table holds the entries the facet loop writes and the old ones elsewhere. |
| InsertionTable.AddFails | lib/cell_complex.rb:101-135 | In a graded complex, with a boundary of one dimension and no repetition, `add` raises a diamond violation exactly when the boundary is a cycle, its cell dimension has a bucket, and some cell of the boundary (`[empty_face]` for a vertex) clashes. |
| InsertionTable.AddTable | lib/cell_complex.rb:101-135 | After a successful `add`, every slot reads the entry the facet loop writes for it, over the boundary as used (`[empty_face]` for a vertex), and otherwise its old entry. |
| InsertionTable.AddUppers | lib/cell_complex.rb:119-121 | After a successful `add`, each boundary cell's upper list is its old one with the new cell appended. |
| Involution.InitPaired | lib/cell_complex.rb:85-96 | A new complex has an involutive switch table, and every fact the involution rests on holds. |
| Involution.AddKeys | lib/cell_complex.rb:101-135 | After a successful `add`, every cell the lists and the switch table mention is older than the next fresh handle. |
| Involution.AddBacked | lib/cell_complex.rb:123-125 | After a successful `add`, every full-face entry sits on a facet with at least two cofaces. |
| Involution.AddInvolutive | lib/cell_complex.rb:119-131 | A successful `add` of a boundary of one dimension without repetition keeps `switch` an involution: every entry's partner slot names the entry's cell back. |
| Involution.AddPaired | lib/cell_complex.rb:101-135 | `add` keeps the whole invariant, so every complex built by `new` and such `add` calls has an involutive switch table. |
| InsertionFacts.InitGraded | lib/cell_complex.rb:85-96 | A new complex satisfies the grading invariant, and its full face has no lower list. |
| InsertionFacts.AddGraded | lib/cell_complex.rb:101-135 | Adding a boundary whose cells share one dimension preserves the grading invariant. |
| InsertionFacts.AddVertex | lib/cell_complex.rb:105-116 | `add` with no boundary succeeds, unless the diamond over the empty face would exceed two. It creates a 0-cell whose lower list is exactly `[empty_face]`. |
| Deletion.DeleteCell | lib/cell_complex.rb:155-171 | `delete` of the full face changes nothing. For any other cell it raises (`NoBucket`) exactly when `@cells[cell.dim]` is nil, that is, when the index lies past either end of the array of `n+1` lists (line 89). Otherwise it is the deletion below, and the cell is gone and detached from its facets. |
| Deletion.Delete | lib/cell_complex.rb:155-171 | The deletion once the cell's list exists. `delete` of the full face changes nothing. Any other cell leaves its bucket. It is removed from every facet's upper list, and the switch entries keyed on it and its facets are cleared. The complex only shrinks and stays graded. |
| DeleteClosure.DeleteFacts | lib/cell_complex.rb:155-171 | Deleting `c` removes from the buckets every cell reachable upward from `c` (its transitive coboundary, except the full face). Every cell it removes from a bucket, and every cell it drops from an upper list, lies in that coboundary. Every cell of that coboundary leaves the upper lists of all its facets, and the switch entries keyed on it over them are cleared. |
| DeleteClosure.DeleteEachFacts | lib/cell_complex.rb:160 | Deleting the cofaces one after another removes, with the same precision, everything above any of them. |
| DeleteClosure.FullRemovesNothing | lib/cell_complex.rb:157 | Nothing lies above the full face, so deleting it removes nothing. |
| Deletion.Remove | lib/cell_complex.rb:162-170 | Once its cofaces are gone, the cell itself is dropped from its bucket and detached from its facets. Nothing else leaves a bucket or an upper list. |
| Deletion.Detach | lib/cell_complex.rb:163-167 | For every listed facet: the cell leaves the facet's upper list, and the switch entries for the slot over the facet and the slots below it are cleared. Buckets are untouched. |
| Deletion.Unlist | lib/cell_complex.rb:170 | For an index `0..n`, `@cells[cell.dim].delete(cell)` removes every copy of the cell from its bucket and leaves the other buckets alone. |
| Deletion.UnlistFromBack | lib/cell_complex.rb:170 | A negative index counts from the back of the array of lists made at line 89. The list it names holds only cells of a non-negative dimension, so deleting the cell from it changes nothing. |
| DeleteClosure.AboveInArray | lib/cell_complex.rb:160-170 | Every cell the recursion reaches from a cell whose list exists has a list too. So only the cell passed to `delete` can make line 170 raise. |
| Symmetry.AddSym | lib/cell_complex.rb:113-121 | `add` keeps incidence symmetry. It stores the new cell's lower list and appends the cell to the upper list of each of those cells. |
| Symmetry.DeleteSym | lib/cell_complex.rb:155-171 | `delete` keeps incidence symmetry. |
| Symmetry.DeleteNoDangling | lib/cell_complex.rb:155-171 | After `delete`, a surviving cell's lower and upper lists name no cell the deletion removed. |
| Lists.Dedup | lib/cell_complex.rb:178 | `uniq` keeps exactly the elements of the list, without repetition. Their order, that of first occurrence, is stated by Lists.DedupOrder. |
| Lists.DedupOrder | lib/cell_complex.rb:178 | `uniq` lists the elements in the order of their first occurrences. |
| Lists.DedupOfDistinct | lib/cell_complex.rb:178 | `uniq` of a repetition-free list is the list itself. |
| Lists.Intersect | lib/cell_complex.rb:128 | `a & b` holds exactly the elements common to both lists, without repetition. |
| Lists.RemoveAll | lib/cell_complex.rb:166 | `Array#delete` removes every occurrence of the element and nothing else. |
| Lists.Flatten | lib/simplicial_complex.rb:80 | `flatten` holds exactly the elements of the inner lists. Their order is stated by Lists.FlattenOrder. |
| Lists.FlattenOrder | lib/simplicial_complex.rb:80 | One element first occurs before another in the flattened list exactly when it first appears in an earlier inner list, or earlier in the same one. |
| Search.FallingPath | lib/cell_complex.rb:217-224 | A 0-cell's path is itself. The path is empty exactly when the cell is not a vertex and has nothing below it. Otherwise it is a chain of lower incidences, rising one dimension per step and ending at the cell. |
| Search.RisingPath | lib/cell_complex.rb:226-238 | A path found is an upward chain of incidences from `s`, one dimension per step, ending at `t`. It is empty exactly when `s == t`. There is no path when `s != t` and `s` is not of lower dimension than `t`. |
| Search.RisingEach | lib/cell_complex.rb:232-237 | The depth-first loop fails only when the search fails from every coface. Otherwise the path starts at the first coface from which the search succeeds. |
| Search.RisingPathIff | lib/cell_complex.rb:226-238 | `rising_path(s, t)` succeeds exactly when `t` is reachable from `s` by upward incidences. |
| Search.RisingPathComplete | lib/cell_complex.rb:226-238 | Whenever `t` is reachable upward from `s`, the depth-first search finds a path. |
| Search.RisingPathSound | lib/cell_complex.rb:226-238 | A found path is an upward chain of exactly its own length from `s` to `t`. |
| TupleQuery.Start | lib/cell_complex.rb:193 | With no cells given, `tuple` starts from the first vertex. There is no start only when nothing is given and there is no vertex. |
| TupleQuery.Arrange | lib/cell_complex.rb:194-195 | The sorted list holds exactly the given cells and the full face. |
| TupleQuery.Connect | lib/cell_complex.rb:196-202 | Finds no path exactly when some consecutive pair is not connected by a rising path. Otherwise the path threads all the cells in order. |
| TupleQuery.Tuple | lib/cell_complex.rb:192-205 | Fails for want of a vertex exactly when there is no start cell. Returns `nil` exactly when the sorted cells are not connected by rising paths. Any tuple it returns has `n+1` cells. When the length check fails instead, and when a tuple is returned, is stated by TupleQuery.TupleBadIff. |
| TupleQuery.TupleShape | lib/cell_complex.rb:192-205 | In a sound complex a returned tuple has one cell of each dimension `0..n`, in order, and consecutive cells are incident. |
| TupleQuery.TupleHoldsStart | lib/cell_complex.rb:192-205 | Every given cell of dimension `0..n` sits at the index of its own dimension. |
| TupleQuery.TupleNilIff | lib/cell_complex.rb:197-199 | `tuple` is `nil` exactly when some consecutive pair of the sorted cells is not joined by upward incidences. |
| TupleQuery.TupleSameDimension | spec/cell_complex_spec.rb:200-201 | Two distinct given cells of the same dimension always make `tuple` return `nil`. |
| TupleQuery.TupleFromFirstVertex | lib/cell_complex.rb:193 | With no cells given, the tuple's vertex is the first vertex of the complex. |
| TupleQuery.AssembledLength | lib/cell_complex.rb:204 | The assembled cells number `n+1` exactly when the falling path from the lowest start cell reaches a vertex one cell per dimension. |
| TupleQuery.TupleBadIff | lib/cell_complex.rb:192-205 | In a sound complex, `tuple` fails its length check exactly when the sorted cells are joined but the lowest one does not fall to a vertex one cell per dimension. When it does, a tuple is returned. |
| TupleQuery.TupleOfFirstVertex | lib/cell_complex.rb:193-205 | In a sound complex, `tuple()` returns a tuple whenever the first vertex is joined upward to the full face. |
| Piecewise.NewCellKind | lib/simplicial_complex.rb:33-39 | Dimension 0 makes a Vertex. The top dimension makes a Simplex in a simplicial complex. Every other dimension makes a plain Cell. A piecewise-linear complex never makes a Simplex. |
| Piecewise.PlcInit | lib/cell_complex.rb:85-96 | A new complex of either flavour has no coordinates yet. |
| Piecewise.PlcAdd | lib/piecewise_linear_complex.rb:39-45 | `add` fails exactly when the underlying `add` fails, with the same error. Coordinates create a Vertex whose coordinates are a copy of the list. A boundary creates a cell one dimension above it, and no coordinates change. |
| Piecewise.EmptyArgumentsAgree | lib/piecewise_linear_complex.rb:41-43 | An empty argument list behaves exactly like an empty boundary: a 0-cell with empty coordinates. |
| Piecewise.CoordinatesMakeVertex | lib/piecewise_linear_complex.rb:39-45 | Adding coordinates always succeeds in a complex with room for a vertex. The result is a Vertex below which lies only the empty face, carrying exactly those coordinates. Every other vertex keeps its coordinates. |
| Piecewise.Coordinate | lib/piecewise_linear_complex.rb:18-20 | `vertex[k]` reads coordinate `k`. It is `nil` outside the coordinate list, and a vertex without coordinates is an error. |
| Piecewise.Head | lib/piecewise_linear_complex.rb:24-26 | `head` is the first cell of `down` and exists exactly when the lower list is non-empty. |
| Piecewise.Tail | lib/piecewise_linear_complex.rb:28-30 | `tail` is the second distinct cell of `down`. It exists exactly when the lower list holds two different cells. |
| Piecewise.EdgeEnds | lib/piecewise_linear_complex.rb:24-30 | An edge with lower list `[a, b]` has head `a` and tail `b`. |
| Simplices.Vertices | lib/simplicial_complex.rb:12-14 | `vertices` holds exactly the cells `dim` lower incidences below the simplex, without repetition. |
| Simplices.VerticesAreVertices | lib/simplicial_complex.rb:12-14 | In a graded complex every cell in `vertices` is a 0-cell. |
| Simplices.Orientation | lib/simplicial_complex.rb:19 | The orientation exists exactly when every vertex has coordinates, and is then `orient` of those points. |
| Simplices.Contains | lib/simplicial_complex.rb:16-27 | `contains?` fails only for want of coordinates, and always when some vertex lacks them. With more than `dim` points it fails exactly when some vertex or the query point lacks coordinates. With fewer than `dim` points it never answers true. |
| Simplices.ContainsIff | lib/simplicial_complex.rb:16-27 | `contains?` is false exactly when substituting the point for one of the vertices `0..dim` gives exactly the negated baseline orientation. |
| Simplices.ZeroNeverExcludes | lib/simplicial_complex.rb:21-26 | With a non-degenerate baseline, substitutions that give 0 or the baseline sign never exclude the point. |
| Simplices.DegenerateExcludes | lib/simplicial_complex.rb:19-23 | With a degenerate baseline (orientation 0), any substitution that also gives 0 excludes the point. |
| Simplices.PointsOf | lib/simplicial_complex.rb:17 | Position `j` holds the coordinates of the simplex's `j`-th vertex, or `nil`. |
| Simplices.SimplexContains | lib/simplicial_complex.rb:16-20 | The query fails only for want of coordinates, and always when a vertex of the simplex lacks them. When the simplex has more than `dim` vertices it fails exactly when some vertex or the query point lacks coordinates. With fewer than `dim` vertices it never answers true. |
| Simplices.Locate | lib/simplicial_complex.rb:41-44 | A piecewise-linear complex has no `locate`: it fails exactly then. In a simplicial complex, `locate` returns the first top cell, in bucket order, whose containment test holds, after every earlier one was rejected. It returns `nil` exactly when every top cell rejects the point. It fails only when the first undecided test fails. In a 0-dimensional complex the top cells are vertices, which have no `contains?`: it fails exactly when there is one, and returns `nil` otherwise. |
| Simplices.ScanFacts | lib/simplicial_complex.rb:42-43 | The same first-match property for a scan from any position of the bucket. A failing scan fails with the error of the first undecided test. |
| Simplices.SwitchChain | lib/simplicial_complex.rb:63-77 | A sequence of switches propagates `nil` once a switch is absent. It cannot fail when every rank is in range. A tuple it returns differs from the input only at the switched ranks. |
| Simplices.ChainAppend | lib/simplicial_complex.rb:63-77 | Switching along `a + b` is switching along `a` and then along `b`. |
| Simplices.ChainReverse | lib/simplicial_complex.rb:63-69 | With an involutive table, switching along the reversed ranks undoes a switch chain. |
| Simplices.OppositeVertex | lib/simplicial_complex.rb:63-69 | `opposite_vertex` maps `nil` to `nil`, and on a full-length tuple it never raises. |
| Simplices.OppositeVertexUndone | lib/simplicial_complex.rb:63-69 | With an involutive table, switching back at ranks `0, 1, …, n` returns the tuple `opposite_vertex` started from. |
| Simplices.NextFacet | lib/simplicial_complex.rb:71-77 | `next_facet` maps `nil` to `nil`, never raises on a full-length tuple, and keeps the top cell of the tuple. |
| Star.FaceLists | lib/simplicial_complex.rb:48 | There is one list per dimension `0..simplex.dim`, and list `i` is `faces(i)`. |
| Star.ConeBoundary | lib/simplicial_complex.rb:57 | The cone boundary exists exactly when every facet already has a cone cell. It then lists those cone cells in facet order. |
| Star.AddStar | lib/simplicial_complex.rb:46-61 | A piecewise-linear complex has no `add_star`: it fails exactly then. Otherwise `add_star` fails only through a missing cone, an invalid boundary, a missing bucket or a diamond violation. It never changes coordinates or the flavour. |
| Star.ConeOne | lib/simplicial_complex.rb:57-58 | Coning one face records exactly that face in the hash `h`. |
| StarFacts.StarCounts | lib/simplicial_complex.rb:46-61 | `add_star` keeps the complex sound. On a top simplex, the top count loses the simplex and gains one cell per facet. On a lower simplex, every dimension `d+1` gains one cell per `d`-face, and exactly one new cell has dimension `simplex.dim + 1`. |
| StarFacts.StarCountsTop | lib/simplicial_complex.rb:49-51 | On a top-dimensional simplex the number of top cells drops by the deleted simplex and grows by one per facet. |
| StarFacts.StarCountsLow | lib/simplicial_complex.rb:52-54 | On a lower-dimensional simplex nothing is deleted, and exactly one new cell of dimension `simplex.dim + 1` appears. |
| StarFacts.DeleteTop | lib/simplicial_complex.rb:51 | Deleting a top cell of a sound complex keeps it sound, removes just that cell from the top bucket and leaves the other buckets alone. |
| StarFacts.ConeLevelsFacts | lib/simplicial_complex.rb:55-60 | Each round of the loop adds one cell of dimension `d+1` per face of dimension `d`, and nothing else. |
| StarFacts.ConeOneFacts | lib/simplicial_complex.rb:57-58 | Coning one face keeps the complex sound, appends one cell one dimension up, and records it as the face's cone. |
| FlipSearch.AllVertices | lib/simplicial_complex.rb:80 | `all_vertices` holds exactly the vertices of the cofaces of the facet, without repetition. Their order is stated by FlipSearch.AllVerticesOrder. When Ruby gets this far is stated by FlipSearch.CofaceVertices. |
| FlipSearch.AllVerticesOrder | lib/simplicial_complex.rb:80 | `all_vertices` lists the vertices in reading order of the cofaces' vertex lists: coface by coface, and within a coface in the order of its vertices. |
| FlipSearch.VerticesEach | lib/simplicial_complex.rb:80 | Mapping `vertices` over the cofaces raises exactly when one of them is not a Simplex (only Simplex defines `vertices`, lines 12-14). Otherwise it gives each coface's vertex list, in coface order. |
| FlipSearch.CofaceVertices | lib/simplicial_complex.rb:80 | The first line of `flip` fails exactly when some cell above the facet is not a Simplex. Otherwise it yields `all_vertices`. |
| Flipping.AllVerticesDims | lib/simplicial_complex.rb:80 | Every cell in `all_vertices` is a 0-cell. |
| FlipSearch.Turn | lib/simplicial_complex.rb:93-96 | The tuples pushed while turning around a flipped-out cell all keep its top cell, and were not visited before. |
| FlipSearch.Pop | lib/simplicial_complex.rb:88-97 | One pass of the `while` loop strictly decreases the search measure: unvisited keys, then stale stack entries, then stack size. A cell it records comes from a ranked tuple and is top-dimensional. |
| FlipSearch.PopFound | lib/simplicial_complex.rb:88-92 | A cell the loop records is the top cell of an `opposite_vertex` result whose vertex lies in `all_vertices`. |
| FlipSearch.SearchFacts | lib/simplicial_complex.rb:87-98 | The search only ever appends cells reached through `opposite_vertex` at a vertex of `all_vertices`. |
| FlipSearch.CellsToFlipOut | lib/simplicial_complex.rb:81-98 | The search starts from the top cell of `tuple(facet)`. Every later cell is reached through `opposite_vertex` at a vertex of `all_vertices`. A `nil` tuple is an error. |
| FlipSearch.FlipOutTop | lib/simplicial_complex.rb:81-98 | Every cell chosen to flip out is top-dimensional. |
| FaceIndex.Lookup | lib/simplicial_complex.rb:121 | `existing_faces[d][key]` finds a face exactly when an entry with that key exists, and returns that entry's face. |
| FaceIndex.AssignLookup | lib/simplicial_complex.rb:102 | After `existing_faces[i][key] = e`, the key finds `e`, and every other key finds what it found before. |
| FaceIndex.AssignDistinct | lib/simplicial_complex.rb:102 | Assignment keeps the keys of a table distinct. |
| FaceIndex.Index | lib/simplicial_complex.rb:100-103 | There is one table per dimension `0..n`, under either filing: as written, or with each flipped-out cell filed at level 0 as intended. |
| FaceIndex.IndexFacts | lib/simplicial_complex.rb:100-103 | Under either filing, every entry is keyed by the sorted boundary of its face, a face filed for some flipped-out cell. Every face `d` levels down, and as intended the cell itself at level 0, can be found under its key in table `n-1-d`. |
| FaceIndex.Found | lib/simplicial_complex.rb:121 | A face found in the index has exactly the looked-up key as its sorted boundary. |
| Flipping.IndexDims | lib/simplicial_complex.rb:100-103 | Under either filing, table `i` holds only faces of dimension `i+1`, never above the top dimension. |
| FaceIndex.FaceOfDim | lib/simplicial_complex.rb:102 | A face filed for table `i` has dimension `i+1`, at most the top dimension. |
| FaceIndex.TopTableEmpty | lib/simplicial_complex.rb:100-103 | As written, table `n-1`, where the top cones are looked up, stays empty. |
| FaceIndex.TopTableFilesOut | lib/simplicial_complex.rb:100-103 | As intended, every flipped-out cell is found in table `n-1` under its sorted boundary, and every cell found there is a flipped-out cell with that sorted boundary. |
| Flipping.TopConesAddedAsWritten | lib/simplicial_complex.rb:119-123 | As written, every top-dimensional cone the rebuild makes is added as a fresh cell, even one with the boundary of a flipped-out cell. |
| Flipping.TopConesReusedIntended | lib/simplicial_complex.rb:119-123 | As intended, a top-dimensional cone with the sorted boundary of a flipped-out cell takes that cell and leaves the complex unchanged. |
| FlipSteps.DeleteAll | lib/simplicial_complex.rb:105-106 | Deleting the flipped-out cells one by one only shrinks the complex and keeps it graded. |
| FlipFacts.DeleteAllGone | lib/simplicial_complex.rb:105-106 | After the deletions no flipped-out cell is left in its bucket. |
| FlipSteps.FlipOne | lib/simplicial_complex.rb:119-123 | Rebuilding one face fails only through a missing cone or a failing `add`, and leaves coordinates and flavour unchanged. |
| FlipFacts.FlipOneReuses | lib/simplicial_complex.rb:120-122 | The complex is left unchanged exactly when the sorted cone boundary is found among the existing faces. The face reused then has that sorted boundary and was filed from a flipped-out cell. Otherwise a fresh cell is added with the cone boundary as its lower list. |
| FlipSteps.AddCone | lib/simplicial_complex.rb:121 | A face that is not found is added through `add`, whose failures it passes on. |
| FlipFacts.FlipRoundsValid | lib/simplicial_complex.rb:108-125 | Every rebuild round keeps the complex sound, of the same dimension, with every cone one dimension above its face. |
| FlipSteps.StartCones | lib/simplicial_complex.rb:113-115 | Round `i`'s hash has only the empty face as a key. It maps it to `all_vertices[i+1]` when that vertex exists, and is empty otherwise. |
| FlipSteps.RoundTop | lib/simplicial_complex.rb:117 | A round never cones faces above the simplex's dimension or at the top dimension. |
| FlipSteps.Cleanup | lib/simplicial_complex.rb:127-130 | The cleanup keeps the complex graded, of the same dimension, with its lower lists untouched. |
| FlipFacts.CleanupSettles | lib/simplicial_complex.rb:127-130 | After the cleanup every filed face is either deleted or has a coface. |
| FlipFacts.SettledKept | lib/simplicial_complex.rb:129 | Deleting a face with an empty upper list keeps every cell of at least its dimension that was deleted or had a coface in that state. |
| FlipFacts.DeleteLeaf | lib/simplicial_complex.rb:129 | Deleting a face with an empty upper list removes only that face. |
| Flipping.Rounds | lib/simplicial_complex.rb:108-125 | The rebuild from `new_simplex = all_vertices[0]`, after the deletions and under either filing, leaves a sound complex of the same dimension, or fails with an `add`/missing-cone error. |
| Flipping.CleanupSound | lib/simplicial_complex.rb:127-130 | The cleanup keeps a sound complex sound and of the same dimension. |
| Flipping.Rebuild | lib/simplicial_complex.rb:100-130 | Under either filing, indexing, deleting, rebuilding and cleaning up yield a sound complex of the same dimension with the same coordinates. With no vertex to start from, the rebuild fails. |
| Flipping.RebuildSettles | lib/simplicial_complex.rb:127-130 | Under either filing, after a successful rebuild every indexed face is either deleted or has a coface. |
| Flipping.Flip | lib/simplicial_complex.rb:79-132 | A piecewise-linear complex has no `flip`: it fails exactly then. In a simplicial complex, `flip` fails for want of vertices exactly when some cell above the facet is not a Simplex. When all are, it fails when `tuple(facet)` is `nil`. Its only other failures are those of the search and the rebuild. Under either filing, a successful flip leaves a sound simplicial complex of the same dimension and coordinates. |
| Flipping.FlipWith | lib/simplicial_complex.rb:81-131 | Once `all_vertices` is known, the flip fails when `tuple(facet)` is `nil`, and otherwise only through the search and the rebuild. A success is sound, of the same dimension, flavour and coordinates. |
| Flipping.FlipSettles | lib/simplicial_complex.rb:79-132 | Under either filing, after a successful flip no face that `flip` indexed remains in the complex with an empty coboundary. |

## Left out

- `orient` (lib/predicates.rb) is an uninterpreted parameter. The determinant arithmetic is not modelled, and nothing is claimed about the geometric truth of containment.
- The rendering files lib/plc_drawing.rb and lib/drawing_a_plc.rb, the stale top-level piecewise_linear_complex.rb, and the orientation tests are not part of this model.
- `CellTuple#each` and `CellTuple#to_s` are left out: the first yields no argument and the second only formats text.
- `CellTuple#clone` is the identity, because tuples are immutable values.
- The complex a `CellTuple` remembers is not modelled. A tuple from another complex is just a tuple whose slots the table does not know.
- Ruby object identity is replaced by integer ids, and `Hash` default blocks by lookups that default to the empty list. The argument-type checks of `switch` and of the `CellTuple` constructor (`nil`, a non-tuple, a non-cell) cannot fail on typed values, so they are not modelled.
- `add` leaves its partial mutations in place when it raises a diamond violation. The model returns only the error, with no rollback and no partial state.
- Deletion.Delete: does not state that the switch table is fully cleaned up. Ruby clears only the entries keyed on the deleted cell, so a partner's entry can still name it.
- `PiecewiseLinearComplex#add` with a mixed list (an integer first, cells after it) is not modelled. The argument is either coordinates or a boundary.
- Star.AddStar: does not state that every new top cell has the inserted vertex on its boundary. Only the counts are proved (StarFacts.StarCounts).
- The concrete counts 1→4→7 of two successive stars in a tetrahedron are not derived. They would need `faces(n-1)` of a simplex to have exactly `n+1` members, which the unspecified `faces` does not promise.
- Flipping.Flip: the counts 2/7/9 → 3/9/10 (tetrahedra/triangles/edges) that a flip of two tetrahedra glued on a triangle should give, and the restoring flip back, are not proved. Under the intended filing a deleted tetrahedron is not put back, as it is by the code as written (see Findings); deriving the counts would further need the concrete orbit walk and `faces`, which no file defines.
- Flipping.Flip: does not state that the flipped-out cells are absent from the result. The rebuild may re-add a cell with the same vertices, and only their deletion is proved (FlipFacts.DeleteAllGone).
- Flipping.Flip: requires every switch-table entry to map a cell to one of the same dimension (`SwitchDims`). `add` only ever writes such entries, but the model does not prove that `add` preserves this.
- Ruby's `flip` mutates the complex step by step. When a step fails part-way, the model returns only the error, not the partial state.
- InsertionFacts.AddVertex: excludes the 0-dimensional complex that already holds two vertices. Ruby raises a diamond violation there for the third vertex, and the model returns the same error from `Insertion.Add`.
- Ruby's negative array indices are modelled where the core's operations take an index (Tuples.At, Tuples.Set, Piecewise.Coordinate). `@cells[-1]` is not modelled: only the empty face has dimension -1, and it is never in a bucket.
- Insertion.AddIncidences: its own contract states the incidence effects and only the kind of error. When it raises and which switch entries it writes are proved separately (InsertionTable.AddIncidencesFails, InsertionTable.AddIncidencesTable), for a boundary without repetition whose cells' faces are neither boundary cells nor the new cell.
- Insertion.AddFacet: its own contract states only the kind of error. The exact condition and the entries written are InsertionTable.AddFacetFails and InsertionTable.AddFacetTable, for a facet that is not below itself.
- Insertion.Build: its own contract states only the kind of error. The exact condition and the entries written are InsertionTable.BuildFails and InsertionTable.BuildTable.
- Insertion.Add: its own contract does not give the switch table or the exact diamond-violation condition. Both are proved in InsertionTable.AddFails and InsertionTable.AddTable for a graded complex and a boundary of one dimension without repetition. A boundary listing a cell twice passes Ruby's mod-2 test; what `add` then writes is not characterized.
- Lists.Dedup: its own contract gives membership and no repetition; the first-occurrence order is Lists.DedupOrder.
- Lists.Flatten: its own contract gives membership; the order is Lists.FlattenOrder.
- FlipSearch.AllVertices: its own contract gives membership and no repetition; the order is FlipSearch.AllVerticesOrder.
- Switching.SwitchTwice: the table is proved involutive for every complex built by `new` and `add` of boundaries of one dimension without repetition (Involution.AddPaired). `delete` can break this, because it clears only the entries keyed on the deleted cell and its facets, and a partner's entry survives (lib/cell_complex.rb:162-167). After a `delete`, and so after a `flip`, the involution is not established.
- Simplices.ChainReverse: rests on the involution, with the same reach as Switching.SwitchTwice.
- Simplices.OppositeVertexUndone: rests on the involution, with the same reach as Switching.SwitchTwice.
- TupleQuery.Tuple: Ruby appends with `<<` to the array `falling_path` returns (lib/cell_complex.rb:204). For the empty face, and for the full face, that array is the stored lower list itself, because `each` returns its receiver (lines 219-223). So `tuple(empty_face)` makes `down(v, 2)` non-empty and makes a second such call raise, and `tuple(full_face)` gives the full face a lower list. The model is pure: `tuple` never changes the complex.
- Piecewise.PlcAdd: Ruby chooses the branch by `first.kind_of?(Fixnum)` (lib/piecewise_linear_complex.rb:41). The model's argument is coordinates or a boundary, so Float coordinates, or a Bignum first coordinate before Ruby 2.4, which Ruby takes for a boundary and then fails on, are not modelled.
- Deletion.DeleteCell: on the error, Ruby has already deleted the cell's coboundary before line 170 raises. The error result does not keep that partial work.
- Deletion.Delete: requires the complex to be graded, which Ruby does not check. The grading gives the recursion over the coboundary its termination measure.
- Search.FallingPath: requires the complex to be graded, for the same termination measure.
- Search.RisingPath: requires the complex to be graded, for the same termination measure.

## Findings

| source | as written | input that shows it | evidently intended | confidence | as-written member | corrected member |
|---|---|---|---|---|---|---|
| lib/simplicial_complex.rb:100-103 | `c.down(0)` is `[]` (lib/cell_complex.rb:177-179), so the loop files nothing at level 0: table `n-1`, where the top-dimensional cones are looked up at line 121, stays empty, and every top cone is added anew | `flip` of the triangle shared by two tetrahedra: the rebuild puts a deleted tetrahedron back as a fresh cell, so the result has more than the 3 tetrahedra the repository's own test expects | level 0 files each flipped-out cell itself, so a top cone with that cell's boundary reuses it; `Flipping.Flip` takes either filing | not executed | FaceIndex.TopTableEmpty, Flipping.TopConesAddedAsWritten | FaceIndex.TopTableFilesOut, Flipping.TopConesReusedIntended |
