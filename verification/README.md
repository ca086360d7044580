# Johnson simplex and heightfield indexing

This project is a Dafny model of two parts of the ncollide collision library.

**The Johnson simplex** (`src/narrow/algorithm/johnson_simplex.rs`) is the simplex that GJK uses. It projects the origin onto a simplex of up to `dim + 1` points with the Johnson sub-algorithm. The model has four parts.

- **The recursion template.** `make_permutation_list(k)` precomputes a flat index structure for simplices of up to `k + 1` points. It removes one vertex at a time from the full simplex, memoises every sub-simplex so that each gets exactly one determinant slot, and reads the result back to front. `RecursionTemplate::new(dim)` builds one template per dimension `0..dim`. The model proves:
  - every template it builds is well formed: the regions have the right sizes, every point index is at most `k`, every slot lies below `num_determinants`, and every block reads only slots of the region below it;
  - it has exactly one slot per key over `0..k`;
  - it has no leaves left over.
  - A key is a sub-simplex together with the vertex whose removal led to it.
- **The simplex record.** This covers `JohnsonSimplex::new` and the point-set operations of the `Simplex` interface: `reset`, `dimension`, `max_sq_len`, `contains_point`, `add_point` and `translate_by`. Each is modelled together with the invariant they all keep.
- **`do_project_origin`.** The model has:
  - the empty-simplex failure and the one-point shortcut;
  - the first pass, which fills the determinant buffer region by region;
  - the second pass, which searches the groups back to front and marks the first child of every positive block with the `Bounded::max_value()` sentinel;
  - the weighted barycentre of the selected group;
  - with `reduce`, the swap that keeps only that group's vertices.

  The model proves the selection rule. The search stops at the first group, from the last region down, whose determinants are all strictly positive and unmarked, and every group it checks before that fails. The first pass stores only into the slots its blocks name. Each of its blocks reads only cells that the region before it has filled, and together the regions fill every cell below the one-point cells. So the first pass does not depend on what the buffer held, and a second `project_origin` gives back what the first one gave. The answer is zero when no group qualifies, and otherwise a convex combination of the simplex's points. It also proves that reducing leaves a non-empty subset of the old points.
- **Scalars and vectors.** Scalars are exact reals. A vector is a sequence of reals of the simplex's dimension.

**The heightfield** (`src/shape/heightfield3.rs`) is modelled in its integer indexing only. This covers:
- the cell status flags;
- construction, and the cell and triangle counts;
- the numbering of triangles and faces;
- the two triangles of a cell under either diagonal split;
- the conversion of triangle-local feature ids (vertex, edge, face) into heightfield-global ids.

The conversions are checked against independent reference numberings of grid vertices and grid edges.

Modules:
- **Johnson simplex:**
  - `SubsimplexKeys` (keys and sub-lists);
  - `TemplateBuilder` (the children loop);
  - `TemplateLevels` (one level);
  - `PermutationLists` (the outer loop);
  - `TemplateReadBack` (the read-back and its well-formedness);
  - `KeyCounts` (slot counting);
  - `TemplateTables` (`make_permutation_list` and `RecursionTemplate::new`);
  - `RecursionTemplates` (the template record and its well-formedness);
  - `JohnsonSimplices` (the simplex record and its operations);
  - `JohnsonProjection` (`do_project_origin`);
  - `JohnsonRecompute` (what the first pass reads and writes, and projecting twice);
  - `Vectors`.
- **Heightfield:** `HeightFields`.
- **Shared helpers:** `Sequences` and `Wrappers`.

## Model

| member | source | states |
|---|---|---|
| TemplateTables.MakePermutationList | src/narrow/algorithm/johnson_simplex.rs:69-192 | The template for `k + 1` points is well formed. Its offsets run from `0`, then `k + 1`, up to the array length, and each region holds whole groups of blocks. Point indices are at most `k`, and every sub-determinant index is below `num_determinants`. Each block reads only the slots of the region below it. There is exactly one slot per key over `0..k`, and `num_leaves` is zero. |
| TemplateTables.NewTemplates | src/narrow/algorithm/johnson_simplex.rs:46-54 | The table has one template per dimension `0..dim`. Entry `d` is well formed for `d + 1` points and has one slot per key over `0..d`. |
| TemplateTables.TableSlotsGrow | src/narrow/algorithm/johnson_simplex.rs:204-246 | A template of lower dimension needs no more slots than one of higher dimension. So a buffer sized for the vector dimension covers the template chosen for the current number of points. |
| TemplateTables.RunLevels | src/narrow/algorithm/johnson_simplex.rs:86-161 | After the `k + 1` levels, the keys made are laid out level by level, every key of length two or more is memoised, and one sub-determinant block has been logged per key walked. |
| TemplateTables.PushLeaves | src/narrow/algorithm/johnson_simplex.rs:163-166 | The leaf lookups append the slot of the one-vertex key `[k - u]` at place `u`. The last entry is the slot of `[0]`. |
| TemplateTables.Assemble | src/narrow/algorithm/johnson_simplex.rs:168-191 | The template holds the points and sub-determinant indices back to front, without the full simplex. Its offsets are the forward offsets measured from the end, and `num_determinants` is one more than the last slot pushed. |
| TemplateTables.BackOffsets | src/narrow/algorithm/johnson_simplex.rs:169-171 | Putting `0` in front, reversing and dropping the last entry gives the forward offsets in reverse order. |
| TemplateTables.Finish | src/narrow/algorithm/johnson_simplex.rs:163-191 | The arrays read back from the finished forward arrays form a well-formed template, with one slot per key and no leaves. |
| TemplateReadBack.ReadBackWellFormed | src/narrow/algorithm/johnson_simplex.rs:168-191 | Reversing the forward arrays turns level `j` into region `k - j`. A block's own slot comes first and its children's slots follow, all in the region below. This gives every conjunct of well-formedness. |
| TemplateReadBack.SlotsPerKey | src/narrow/algorithm/johnson_simplex.rs:122-150 | The memoised keys are pairwise distinct and are exactly all the keys over `0..k`, so the number of slots handed out equals the number of keys. |
| TemplateReadBack.LastLeaf | src/narrow/algorithm/johnson_simplex.rs:164-188 | The key `[0]` gets the last slot handed out. So the first sub-determinant index of the template is its largest one. |
| TemplateBuilder.Sublist | src/narrow/algorithm/johnson_simplex.rs:109-120 | The sub-list drops the `j`-th vertex of the block and records it last. |
| TemplateBuilder.AddChild | src/narrow/algorithm/johnson_simplex.rs:122-133 | A memoised sub-list reuses its slot and leaves keys and memo unchanged. A new one is appended to the points and takes the next slot. The memo stays the inverse of the slot order. |
| TemplateBuilder.AddChildren | src/narrow/algorithm/johnson_simplex.rs:107-134 | When every sub-list of a block was seen, the keys are unchanged. When none was, exactly the block's sub-lists are appended, in removal order. The slots pushed name the block's sub-lists. |
| TemplateLevels.AllOrNone | src/narrow/algorithm/johnson_simplex.rs:122-133 | The sub-lists of a block are either all memoised or all new. A seen sub-list determines the vertex list it came from. |
| TemplateLevels.BlockStep | src/narrow/algorithm/johnson_simplex.rs:105-153 | One block: its children are looked up, then the block itself. The cursor moves past the block's `lnp + 1` entries, and the level's invariant is kept. |
| TemplateLevels.ProcessLevel | src/narrow/algorithm/johnson_simplex.rs:102-154 | After a level, the keys it added come in whole groups of the level's length. Every key of that length is memoised, keys with vertex 0 keep the later slots, and one sub-determinant block is logged per block walked. |
| TemplateLevels.LevelComplete | src/narrow/algorithm/johnson_simplex.rs:105-154 | Once every block is walked, every key of the level's length is in the memo. |
| PermutationLists.LevelNext | src/narrow/algorithm/johnson_simplex.rs:156-160 | Pushing the new end onto the offsets and dropping one point moves the outer loop's invariant on by one level. |
| SubsimplexKeys.SubKeyIsKey | src/narrow/algorithm/johnson_simplex.rs:109-120 | A sub-list of an increasing list over `0..k` is a key over `0..k`. It has the same length and the same vertices as the list. |
| SubsimplexKeys.SubKeyDeterminesList | src/narrow/algorithm/johnson_simplex.rs:122-123 | Equal sub-lists come from the same vertex list, so a memo hit always belongs to the same sub-simplex. |
| SubsimplexKeys.FullKey | src/narrow/algorithm/johnson_simplex.rs:90-95 | The keys over all `k + 1` vertices are exactly the sub-lists of the full vertex list. |
| KeyCounts.AllKeysGrow | src/narrow/algorithm/johnson_simplex.rs:46-54 | The keys over `0..k` are keys over `0..k'` for any `k' >= k`, so the slot count grows with the dimension. |
| JohnsonSimplices.New | src/narrow/algorithm/johnson_simplex.rs:198-206 | It fails exactly when the table has no template for the vector dimension. Otherwise it gives no points, no spare points and a zeroed buffer with one cell per slot of that template. |
| JohnsonSimplices.NewValid | src/narrow/algorithm/johnson_simplex.rs:46-54 | A simplex made over a table from `RecursionTemplate::new(top)`, for a dimension up to `top`, satisfies the invariant. |
| JohnsonSimplices.Reset | src/narrow/algorithm/johnson_simplex.rs:380-383 | The point list becomes `[pt]`, and nothing else changes. |
| JohnsonSimplices.Dimension | src/narrow/algorithm/johnson_simplex.rs:386-388 | One less than the number of points, so adding one to it gives the point count. On an empty simplex it is the largest 64-bit `uint`. |
| JohnsonSimplices.MaxSqLen | src/narrow/algorithm/johnson_simplex.rs:391-393 | It fails exactly on an empty simplex. Otherwise the result is the squared length of some point, and no point is longer. |
| JohnsonSimplices.MaxOf | src/narrow/algorithm/johnson_simplex.rs:392 | It is none exactly for an empty sequence. Otherwise it is a member of the sequence and no member exceeds it. |
| JohnsonSimplices.ContainsPoint | src/narrow/algorithm/johnson_simplex.rs:396-398 | True exactly when `pt` is one of the points. |
| JohnsonSimplices.AnyEqual | src/narrow/algorithm/johnson_simplex.rs:397 | True exactly when some member of the list equals `pt`. |
| JohnsonSimplices.AddPoint | src/narrow/algorithm/johnson_simplex.rs:401-404 | It fails exactly when the simplex would hold more than `dim + 1` points. Otherwise `pt` is appended and nothing else changes. |
| JohnsonSimplices.TranslateBy | src/narrow/algorithm/johnson_simplex.rs:417-421 | Every point, in place, is moved by `v`. The count and the dimension of the points are kept, and nothing else changes. |
| JohnsonSimplices.OperationsKeepValid | src/narrow/algorithm/johnson_simplex.rs:380-421 | `reset`, a successful `add_point` and `translate_by` each keep the simplex invariant. |
| JohnsonSimplices.ResetThenAdd | src/narrow/algorithm/johnson_simplex.rs:380-404 | After `reset(pt)` the dimension is 0 and only `pt` is held. Adding `q` succeeds, raises the dimension to 1 and makes `q` held. |
| JohnsonSimplices.TranslateInverse | src/narrow/algorithm/johnson_simplex.rs:396-421 | Translating by `v` and then by `-v` restores the simplex. `pt + v` is held after translating exactly when `pt` was held before. |
| JohnsonSimplices.MaxSqLenAfterAdd | src/narrow/algorithm/johnson_simplex.rs:391-404 | After adding a point, the largest squared length is at least that point's and at least the previous largest. |
| JohnsonProjection.DoProjectOrigin | src/narrow/algorithm/johnson_simplex.rs:232-374 | It fails exactly on an empty simplex. A one-point simplex returns its point and is unchanged. Otherwise it runs both passes over the template for the current point count and answers from the group they select. The invariant, the dimension and the table are kept. |
| JohnsonProjection.ProjectOrigin | src/narrow/algorithm/johnson_simplex.rs:412-414 | It fails exactly on an empty simplex. Otherwise the point list is left as it was and the invariant is kept. |
| JohnsonProjection.ProjectOriginAndReduce | src/narrow/algorithm/johnson_simplex.rs:407-409 | It fails exactly on an empty simplex. Otherwise the new point list is non-empty, no longer than the old one, and made only of old points. |
| JohnsonProjection.ReducedPoints | src/narrow/algorithm/johnson_simplex.rs:350-361 | After the reduce swap, the points are the selected group's vertices: between one and the old count of them, all old points. |
| JohnsonProjection.ProjectionIsConvex | src/narrow/algorithm/johnson_simplex.rs:331-373 | On two or more points the answer is one of two things. It is zero when no group of the searched buffer qualifies. Otherwise it is a convex combination of the points: positive weights summing to one. |
| JohnsonProjection.Answer | src/narrow/algorithm/johnson_simplex.rs:331-373 | With a group found, the answer is the normalised weighted sum of the group's vertices, its weights form a convex combination, and with `reduce` the points become the spare list followed by the group's vertices. With no group, it is the zero vector and the points are unchanged. |
| JohnsonProjection.AnswerValid | src/narrow/algorithm/johnson_simplex.rs:350-361 | The answer keeps the invariant: the group has at most as many vertices as the simplex had points. |
| JohnsonProjection.FirstPass | src/narrow/algorithm/johnson_simplex.rs:246-289 | Every cell that some region of the first pass stores a determinant in holds a value. Every other cell is one from `num_determinants - n` on and keeps its old value below that. |
| JohnsonProjection.Passes | src/narrow/algorithm/johnson_simplex.rs:241-371 | The search changes the first pass's buffer only by marks: cells that compare greater than zero become the sentinel. A group it stops at lies in one of the regions and qualifies: every determinant of it is strictly positive and not the sentinel. Every group it checked before, from the last region down, has a determinant that is not. |
| JohnsonProjection.ComputeRegions | src/narrow/algorithm/johnson_simplex.rs:263-289 | The first pass walks the regions in order, one more child per block each time, and leaves the cursor at the end of the template and the block size at the point count. A cell that one of the walked regions stores into holds a value, and every other cell is kept. |
| JohnsonProjection.ComputeRegion | src/narrow/algorithm/johnson_simplex.rs:265-286 | Each block stores only into the slot its first entry names, so those slots hold values and every other cell is kept. |
| JohnsonRecompute.TermsAgree | src/narrow/algorithm/johnson_simplex.rs:273-280 | The determinant sum of a block reads only the cells its entries name: two buffers that agree on those cells give the same sum. |
| JohnsonRecompute.RegionAgree | src/narrow/algorithm/johnson_simplex.rs:265-286 | When every block of a region stores below a limit and reads its children from the limit up, two buffers that agree from the limit up come out agreeing from the limit up and on every cell the region stores into. |
| JohnsonRecompute.RegionStepAgree | src/narrow/algorithm/johnson_simplex.rs:263-289 | A region that stores into every cell between the next region's slot limit and its own turns buffers that agree from its own limit up into buffers that agree from the next limit up. |
| JohnsonRecompute.RegionsAgree | src/narrow/algorithm/johnson_simplex.rs:263-289 | Walking the regions in order, two buffers that agree on what the first region reads come out equal down to the last region's slot limit. |
| JohnsonRecompute.LayoutWalkBelow | src/narrow/algorithm/johnson_simplex.rs:265-286 | Every block of a laid-out region `m` stores below `SlotLimit(m)` and reads all of its children from there up, so no block reads a cell its own region writes. |
| JohnsonRecompute.LayoutCovers | src/narrow/algorithm/johnson_simplex.rs:265-286 | Region `m` stores into every cell from `SlotLimit(m + 1)` up to `SlotLimit(m)`: block `b` fills `SlotLimit(m) - 1 - b`. |
| JohnsonRecompute.TemplateFeeds | src/narrow/algorithm/johnson_simplex.rs:263-289 | In a well-formed template for `k + 1` points every region from the second on reads only cells the region before fills, and fills its whole slot range; the slot ranges run from `num_determinants - (k + 1)` down to zero. |
| JohnsonRecompute.FeedsCover | src/narrow/algorithm/johnson_simplex.rs:246-289 | Every cell below the one-point cells is stored into by one of the regions from two points up. |
| JohnsonRecompute.FirstPassCovers | src/narrow/algorithm/johnson_simplex.rs:246-289 | For a simplex keeping the invariant, every cell below `num_determinants - n` is stored into by some region `1 .. n - 1`, so after the first pass every cell of the buffer holds a value. |
| JohnsonRecompute.FirstPassFresh | src/narrow/algorithm/johnson_simplex.rs:246-289 | The first pass does not depend on what the buffer held: over any buffer of the same size it leaves the same buffer. |
| JohnsonRecompute.PassesFresh | src/narrow/algorithm/johnson_simplex.rs:241-371 | Nor do both passes: the buffer they leave and the group they select are the same over any buffer of the same size. |
| JohnsonRecompute.ProjectOriginIdempotent | src/narrow/algorithm/johnson_simplex.rs:412-414 | Calling `project_origin` a second time on the simplex the first call left gives the same point and the same simplex, with the point list unchanged. |
| JohnsonProjection.CheckGroup | src/narrow/algorithm/johnson_simplex.rs:299-329 | The checks only mark: a cell that changes compared greater than zero and becomes the sentinel. The group's own cells are untouched. `foundit` stays true exactly when it was true and every determinant checked is strictly positive and not the sentinel. |
| JohnsonProjection.CheckGroupMarks | src/narrow/algorithm/johnson_simplex.rs:308-316 | A cell becomes the sentinel exactly when it is the first child of a checked block whose own determinant compares greater than zero, and it compared greater than zero itself. Every other cell is kept. |
| JohnsonProjection.GroupVerdict | src/narrow/algorithm/johnson_simplex.rs:299-331 | A group whose checks leave `foundit` true qualifies in the buffer they leave. One whose checks fail already failed before them. |
| JohnsonProjection.SearchRegion | src/narrow/algorithm/johnson_simplex.rs:298-368 | The search only marks. A group it finds is one of the region's groups, has the region's block size and qualifies. Every group of the region above it fails, and when none is found every group of the region fails. |
| JohnsonProjection.SearchRegions | src/narrow/algorithm/johnson_simplex.rs:294-371 | The second pass goes from the last region down to the first and only marks. A group it returns qualifies and has no more blocks than it started with. Every group it checks before that fails. |
| JohnsonProjection.SearchOutcome | src/narrow/algorithm/johnson_simplex.rs:294-373 | The search finds no group exactly when no group of the buffer it leaves qualifies. |
| JohnsonProjection.TemplateGroupsApart | src/narrow/algorithm/johnson_simplex.rs:305-316 | In a well-formed template, the first child a block marks never holds one of its group's own determinants, because children lie in the region below. |
| JohnsonProjection.SetOnes | src/narrow/algorithm/johnson_simplex.rs:246-248 | The cells from `num_determinants - n` on become one, and the cells before them are kept. |
| JohnsonProjection.GroupIds | src/narrow/algorithm/johnson_simplex.rs:338-357 | The group has one vertex per block, and each one names a point of the simplex. |
| JohnsonProjection.GroupWeights | src/narrow/algorithm/johnson_simplex.rs:338-344 | The weights of a selected group are all strictly positive. |
| JohnsonProjection.DetId | src/narrow/algorithm/johnson_simplex.rs:305 | Block `i` of the group ending at `curr` starts `(i + 1) * cnp` entries before it, so it never underflows. |
| JohnsonProjection.ValidReady | src/narrow/algorithm/johnson_simplex.rs:241-246 | With two or more points, the template for the point count indexes only existing points and existing buffer cells, and has the regions both passes walk. |
| JohnsonProjection.Evaluable | src/narrow/algorithm/johnson_simplex.rs:263-371 | A well-formed template whose slots fit the buffer can be walked by both passes. |
| Vectors.Convex | src/narrow/algorithm/johnson_simplex.rs:334-364 | Positive weights divided by their sum are positive and sum to one. The weighted sum divided by the total equals the combination with the normalised weights. |
| HeightFields.CellRemovedIsBothTriangles | src/shape/heightfield3.rs:8-15 | `CELL_REMOVED` is 6, and a status holds it exactly when it holds both triangle flags. |
| HeightFields.New | src/shape/heightfield3.rs:28-43 | A heightfield is built exactly when the height matrix has at least two rows and two columns. It has `2 * nrows * ncols` triangles and every cell status is empty. |
| HeightFields.ColumnsIsProduct | src/shape/heightfield3.rs:37 | The column-major count behind every size and id, `j` columns of `w` entries, equals the product `j * w` that the triangle count, the triangle ids and the edge shifts are written with. |
| HeightFields.NRows | src/shape/heightfield3.rs:45-47 | The number of cell rows is at least one, equals the number of status rows, and fixes the triangle count. |
| HeightFields.NCols | src/shape/heightfield3.rs:49-51 | The number of cell columns is at least one, equals the length of every status row, and fixes the triangle count. |
| HeightFields.TriangleId | src/shape/heightfield3.rs:53-60 | For an existing cell, the id tells the side back: it is below `n/2` exactly when the triangle is the left one. |
| HeightFields.FaceId | src/shape/heightfield3.rs:62-69 | For an existing cell, the id tells the side of the face back: it is below `n` exactly when the face is the front one. |
| HeightFields.TriangleIdRange | src/shape/heightfield3.rs:53-60 | Left triangles of existing cells are numbered in `[0, n/2)` and right ones in `[n/2, n)`. |
| HeightFields.TriangleIdInjective | src/shape/heightfield3.rs:53-60 | Distinct triangles of existing cells get distinct ids. |
| HeightFields.FaceIdRange | src/shape/heightfield3.rs:62-69 | Front faces take the triangle id in `[0, n)`, and back faces take it plus `n`, in `[n, 2n)`. |
| HeightFields.FaceIdInjective | src/shape/heightfield3.rs:62-69 | Distinct faces of existing cells get distinct ids. |
| HeightFields.CellStatusRoundTrip | src/shape/heightfield3.rs:175-181 | Writing back the status `cell_status` just read for a cell leaves the heightfield unchanged; with `SetCellStatus`, reading after writing returns the status written. |
| HeightFields.SetCellStatus | src/shape/heightfield3.rs:179-181 | The cell gets the new status. Every other cell, the dimensions and the triangle count are unchanged. |
| HeightFields.TrianglesAt | src/shape/heightfield3.rs:111-173 | Under `CELL_REMOVED` both are none. Otherwise each side is none exactly when its removal flag is set, and each present triangle has the corners of the cell's diagonal split. |
| HeightFields.CellTrianglesTileCell | src/shape/heightfield3.rs:133-172 | Each triangle joins three distinct corners of its cell. The two triangles share exactly the diagonal of the split and together cover all four corners. |
| HeightFields.ConvertTriangleFeatureId | src/shape/heightfield3.rs:219-293 | The conversion keeps the kind of feature: vertices stay vertices, edges stay edges, faces stay faces and unknown stays unknown. For an existing cell, local face 0 lands among the front faces, below `n`, and any other local face among the back faces. |
| HeightFields.ConvertVertexNamesTriangleCorner | src/shape/heightfield3.rs:221-238 | Vertex `v` of a cell triangle becomes the column-major id of the very corner `triangles_at` puts at place `v`, and that id lies within the height matrix. |
| HeightFields.ConvertEdgeNamesTriangleSide | src/shape/heightfield3.rs:239-283 | Edge `e` of a cell triangle becomes the reference id of the grid edge between its corners `e` and `e + 1 mod 3`. |
| HeightFields.CellEdgeIds | src/shape/heightfield3.rs:240-248 | The five edges of a cell have the reference ids `ileft`, `iright`, `itop`, `ibottom` and `idiag` in either direction. |
| HeightFields.EdgeIdBands | src/shape/heightfield3.rs:240-283 | Vertical edges take ids below `hshift`, horizontal ones ids in `[hshift, dshift)`, and diagonals ids in `[dshift, dshift + nrows * ncols)`. |
| HeightFields.DiagonalShared | src/shape/heightfield3.rs:244-280 | The left and the right triangle of a cell both carry its diagonal, with the same global id. |
| HeightFields.ConvertFaceAndUnknown | src/shape/heightfield3.rs:284-291 | Face 0 becomes the front face of the triangle and any other face its back face. Unknown stays unknown. |

## Left out

- Thread-local template caching (`new_w_tls`), `ToStr` for templates, and the commented-out `to_raw_str` are left out. They are caching and printing only.
- Vector capacities (`vec::with_capacity`) are not modelled, because capacity is not observable.
- Floating point is not modelled. Scalars are exact reals, and `N` is treated as a real field.
  - `MaxValue`, the sentinel, is the largest double.
  - `JohnsonSimplices.Det` keeps the sentinel apart from the computed values, so a computed determinant equal to it is not modelled.
- The dimension of the vector type is a field, `dim`, of the simplex rather than a type parameter.
- `uint` is taken to be 64 bits wide.
- TemplateTables.NewTemplates: entry `d` is stated to be well formed with one slot per key over `0..d`, not to equal the result of `MakePermutationList(d)`. `MakePermutationList` is a method, so its result cannot appear in a contract, and there is no separate functional builder.
- JohnsonSimplices.Dimension: the wrap-around on an empty simplex assumes a 64-bit `uint`.
- JohnsonSimplices.New: the missing template is modelled as a failure result rather than an index panic.
- JohnsonSimplices.MaxSqLen and JohnsonSimplices.AddPoint: the `unwrap` and `assert!` panics are modelled as failure results.
- JohnsonProjection.DoProjectOrigin: requires the simplex invariant, that is, a table from `RecursionTemplate::new` covering the vector dimension and at most `dim + 1` points. The projection reads its arrays without bounds checks, and a malformed table is not modelled.
- JohnsonProjection.DoProjectOrigin: the empty-simplex `fail!` is modelled as a failure result.
- JohnsonProjection.Passes: the determinant recurrence of the first pass (`Terms`, `BlockDet`) is computed but not related to a closed-form determinant (Cramer's rule for the barycentric coordinates). What is proved of it is where it reads and writes: each block reads only cells the region before filled, and the regions fill every cell below the one-point cells (`JohnsonRecompute`).
- JohnsonProjection.ProjectionIsConvex: the selected vertices are not shown to be pairwise distinct.
- HeightFields.CellStatusAt: an out-of-range cell, a `DMatrix` index panic at heightfield3.rs 176, is excluded by `requires InCell`.
- HeightFields.SetCellStatus: an out-of-range cell, a `DMatrix` index panic at heightfield3.rs 180, is excluded by `requires InCell`.
- HeightFields.TrianglesAt: an out-of-range cell, a `DMatrix` index panic at heightfield3.rs 112, is excluded by `requires InCell`.
- HeightFields.TrianglesAt: the triangles are their grid corners. Heights, scale and the float coordinates of lines 118-142 are not modelled.
- HeightFields.ConvertTriangleFeatureId: for vertex and edge ids, an out-of-range cell (the `DMatrix` index panics at heightfield3.rs 225 and 250) is excluded by `requires`. So is a local index of 3 or more (the array index panics at 227-235 and 257-280), through `LocalFeature`.
- HeightFields.TriangleId, HeightFields.FaceId, HeightFields.New and HeightFields.ConvertTriangleFeatureId: indices are unbounded. The `usize` overflow of `i + j * nrows`, `j * (nrows - 1) + i` and `(rows - 1) * (cols - 1) * 2` is not modelled.
- HeightFields.New: the heights and the scale are dropped, and so are the AABB, the minimum and the maximum computed from them.
- The heightfield's float geometry is not modelled, since it is all floating point:
  - `x_at`, `z_at`;
  - `cell_width`, `cell_height`, `unit_cell_width`, `unit_cell_height`;
  - the accessors `heights`, `scale`, `aabb`, `cells_statuses`, `cells_statuses_mut`;
  - `map_elements_in_local_aabb`;
  - the contact preprocessor.
