# technobabble spatial core in Dafny

This project models the integer core of the technobabble game engine and
proves properties of it. The core has three parts.

- **The static R-tree** (`src/rtree/mod.rs`):
  - a Morton (Z-order) codec for `i16` points;
  - closed `intersects`, open `overlaps` and the bounding-box `extend` on
    rectangles;
  - the Morton centre key;
  - the bulk-loading `rebuild`, which stable-sorts the values by centre key,
    tiles them into leaves of at most eight, and tiles every level into inner
    nodes of at most eight until one root is left;
  - `clear`, `extend`, `query`;
  - the stack-driven query iterator.
- **The spatial hash grid** (`src/grid.rs`):
  - the wrapping hash `bin`;
  - the cell enumerator `RecIter`;
  - `insert` into hash-set bins plus an id map;
  - the query iterator, which filters bin contents by a strict intersection
    test.
- **Sub-pixel movement** (`src/movement`):
  - Q8.24 fixed-point numbers on `i32`;
  - two-component vectors of them;
  - the stepping rule `Movement::next`, which moves a rectangle by whole
    pixels and carries the fraction over to the next step.

Each module models one source file, except that `src/rtree/mod.rs` is split
into six modules (`Morton` to `RTree` below). `Ints` and `Bits` are helpers
of this model that no source file has.

| Module | Contents |
|---|---|
| `Ints` | Rust's fixed-width integers and casts |
| `Bits` | `u32` patterns and numbers |
| `Morton` | the codec |
| `Rect` | R-tree rectangles and centre keys |
| `RTreeBuild` | the sort and the tiling, as functions |
| `RTreeShape` | the shape of what `rebuild` produces |
| `RTreeQuery` | what a query yields, as functions |
| `RTree` | the `RTree` and `Iter` classes, and the loops of `rebuild` and `Iter::next` |
| `Grid` | everything in `src/grid.rs` |
| `Q8p24` | the fixed-point numbers |
| `Vector` | the two-component vectors |
| `Movement` | the stepping rule |

Pure code is modelled as functions and lemmas. The objects the source updates
in place are classes with `modifies` clauses:

- `RTree`;
- the query iterators;
- `Grid`;
- `RecIter`;
- `Movement`.

The loops of `rebuild` and of the three `next` methods (`rtree::Iter`,
`RecIter` and `grid::Iter`) are modelled as loops, with
invariants tying them to the functions.

Some of the source's integer behaviour is written out explicitly:

- **`i16`, `i32` and `u32` fields** are subset types of `int`.
- **Wrapping, saturating and truncating operations** (`wrapping_mul`,
  `saturating_add`, `as i32`, Rust's division toward zero) are explicit
  functions in `Ints`.
- **Arithmetic overflow.** Rust panics on overflow in debug builds. Where the
  source can overflow that way, the method's `requires` excludes it.

## Model

| member | source | states |
|---|---|---|
| Ints.AsUInt32 | src/rtree/mod.rs:39 | `as u32`: the result is the only `u32` congruent to the input modulo 2^32 |
| Ints.AsInt32 | src/grid.rs:17 | `wrapping_mul`/`wrapping_add`/`as i32`: the only `i32` congruent modulo 2^32, and the value itself when it fits |
| Ints.AsInt16 | src/rtree/mod.rs:50 | `as i16`: the only `i16` congruent modulo 2^16, and the value itself when it fits |
| Ints.AsInt8 | src/movement/q8p24.rs:109 | `as i8`: the only `i8` congruent modulo 2^8, and the value itself when it fits |
| Ints.AsUSize | src/grid.rs:18 | `as usize` on a 64-bit target: a value below 2^64 congruent to the input modulo 2^64 |
| Ints.Saturate32 | src/movement/q8p24.rs:29 | `saturating_add`/`saturating_sub`: the exact value when it fits `i32`, else `i32::MIN` or `i32::MAX` |
| Ints.TruncDiv | src/movement/q8p24.rs:51 | Rust's `/`: the magnitude is the floor of the magnitudes' quotient, and a nonzero result is negative exactly when the operands' signs differ |
| Ints.TruncDivBounds | src/movement/q8p24.rs:51 | the truncated quotient times the divisor is within one divisor of the dividend, in magnitude |
| Morton.Interleave | src/rtree/mod.rs:15-20 | the spread value uses only the even bits (mask `0x5555_5555`) |
| Morton.InterleaveBits | src/rtree/mod.rs:15-20 | bit `2i` of `interleave(x)` is bit `i` of `x`, and bit `2i+1` is zero, for `i < 16` |
| Morton.Deinterleave | src/rtree/mod.rs:22-28 | the gathered value is below 2^16 |
| Morton.Gathered | src/rtree/mod.rs:15-28 | gathering the bits that `interleave` spread gives back every `x < 2^16` |
| Morton.Spread | src/rtree/mod.rs:15-28 | `interleave(deinterleave(m))` is the even bits of `m` |
| Morton.DeinterleaveInterleave | src/rtree/mod.rs:41-48 | both 16-bit coordinates come back from the interleaved key: `deinterleave` of the key, and of the key shifted right by one |
| Morton.InterleaveDeinterleave | src/rtree/mod.rs:15-28 | every 32-bit key is the interleaving of its two deinterleaved halves, so decoding loses nothing either |
| Morton.Bias | src/rtree/mod.rs:39-40 | the wrapping bias of an `i16` is `v + 32768`, which lies in `[0, 2^16)` |
| Morton.Unbias | src/rtree/mod.rs:47-51 | undoing the bias of a value below 2^16 gives `u - 32768` |
| Morton.DecodeEncode | src/rtree/mod.rs:37-54 | `Point::from(MortonPoint::from(p)) == p` for every point, which covers both test loops at lines 316-329 |
| Morton.KnownKeys | src/rtree/mod.rs:298-314 | the five fixed encodings of the centre and the corner points |
| Morton.Encode | src/rtree/mod.rs:37-43 | defines `From<Point> for MortonPoint`: both coordinates biased, `x` spread to the even bits and `y` to the odd bits; `DecodeEncode` proves `Decode` inverts it |
| Morton.Decode | src/rtree/mod.rs:45-54 | defines `From<MortonPoint> for Point`: the even and the odd bits gathered and unbiased |
| Rect.Intersects | src/rtree/mod.rs:62-68 | defines the closed test; its meaning as a common point is `IntersectsCommonPoint` |
| Rect.Overlaps | src/rtree/mod.rs:70-75 | defines the open test; its meaning as a common unit cell is `OverlapsCommonCell` |
| Rect.ToMorton | src/rtree/mod.rs:104-111 | defines `From<Rectangle> for MortonRectangle`: both corners encoded |
| Rect.Extend | src/rtree/mod.rs:77-89 | the bounding box contains both arguments |
| Rect.ExtendLeast | src/rtree/mod.rs:77-89 | every rectangle containing both arguments contains their `extend`, so it is the least bounding box |
| Rect.ExtendCommutes | src/rtree/mod.rs:77-89 | `extend` is commutative |
| Rect.ExtendAssociates | src/rtree/mod.rs:77-89 | `extend` is associative, so a node's bound does not depend on grouping |
| Rect.IntersectsSymmetric | src/rtree/mod.rs:63-75 | `intersects` and `overlaps` are both symmetric |
| Rect.OverlapsIntersects | src/rtree/mod.rs:63-75 | `overlaps(a, b)` implies `intersects(a, b)` |
| Rect.SharedEdge | src/rtree/mod.rs:63-75 | a rectangle that starts on another's right edge and shares part of its height intersects it but does not overlap it |
| Rect.IntersectsCommonPoint | src/rtree/mod.rs:62-68 | for rectangles with ordered corners, `intersects` holds exactly when the two closed rectangles have a common integer point |
| Rect.OverlapsCommonCell | src/rtree/mod.rs:70-75 | for rectangles of positive width and height, `overlaps` holds exactly when they share a whole unit cell |
| Rect.ContainsIntersects | src/rtree/mod.rs:272 | a rectangle that contains one intersecting the query intersects it too; this is why the query may skip a node the query misses |
| Rect.Center | src/rtree/mod.rs:99-101 | the centre key `(min >> 1) + (max >> 1)` is a `u32` (it cannot overflow) and is within one of the mean of the two keys |
| RTreeBuild.Key | src/rtree/mod.rs:150-154 | defines the sort key of a stored pair: the centre of its rectangle's Morton corners |
| RTreeBuild.SortByCenter | src/rtree/mod.rs:150-154 | defines the `sort_by` of `rebuild` as the stable sort `SortBy` on `Key` |
| RTreeBuild.InsertBy | src/rtree/mod.rs:150-154 | inserting into the sorted prefix adds exactly one element to the multiset |
| RTreeBuild.SortBy | src/rtree/mod.rs:150-154 | the sorted sequence is a permutation of the input |
| RTreeBuild.SortSorted | src/rtree/mod.rs:150-154 | the result is non-decreasing in the key |
| RTreeBuild.SortStable | src/rtree/mod.rs:150-154 | stability: the elements of each key keep their original order |
| RTreeBuild.StableSortUnique | src/rtree/mod.rs:150-154 | any sorted, stable rearrangement equals `SortBy`, so `SortBy` is exactly the result of the stable `sort_by` |
| RTreeBuild.Bound | src/rtree/mod.rs:159-163 | defines the left fold of `extend` over a non-empty run, as both tiling loops compute it (lines 160-163 and 177-180) |
| RTreeBuild.TileNode | src/rtree/mod.rs:159-169 | defines the node pushed for one run: the run's bound, its kind, and `start..min(stop, start + 8)` |
| RTreeBuild.BoundContains | src/rtree/mod.rs:160-163 | the folded `extend` of a run contains every rectangle in it |
| RTreeBuild.BoundLeast | src/rtree/mod.rs:160-163 | every rectangle containing a whole run contains its bound |
| RTreeBuild.BoundConcat | src/rtree/mod.rs:160-163 | the bound of two runs is the `extend` of their bounds |
| RTreeBuild.Tile | src/rtree/mod.rs:157-171 | one level has `ceil(n / 8)` nodes |
| RTreeBuild.TileAt | src/rtree/mod.rs:157-171 | the `k`-th node of a level covers `[start + 8k, min(stop, start + 8k + 8))` |
| RTreeBuild.Levels | src/rtree/mod.rs:173-191 | building the upper levels only appends: the nodes already built are kept |
| RTreeBuild.Build | src/rtree/mod.rs:149-192 | defines the nodes `rebuild` leaves: the leaf level, then the upper levels; `BuildOk` and `LeavesFirst` state their shape |
| RTreeShape.TileChain | src/rtree/mod.rs:157-171 | the nodes of a level cover consecutive, non-empty runs of at most eight that start at `start` and end at `stop` |
| RTreeShape.TilesBound | src/rtree/mod.rs:159-169 | each node of a level carries the bound of the run it covers |
| RTreeShape.LeavesOk | src/rtree/mod.rs:157-171 | the leaves partition `[0, values.len())` into consecutive runs of 1 to 8 values, each with the bound of its run |
| RTreeShape.ChildrenBound | src/rtree/mod.rs:176-180 | the bound of consecutive child nodes is the bound of all the values under them |
| RTreeShape.LevelOk | src/rtree/mod.rs:175-188 | a new level of inner nodes keeps the tree well shaped: each covers 1 to 8 consecutive nodes of the level below and bounds all values under them |
| RTreeShape.LevelsOk | src/rtree/mod.rs:173-191 | the loop over levels keeps the tree well shaped and ends with one node spanning every value |
| RTreeShape.LevelsInner | src/rtree/mod.rs:181-186 | every node the upper levels add is an inner node |
| RTreeShape.BuildOk | src/rtree/mod.rs:149-192 | after `rebuild` the nodes are well shaped; `nodes` is empty iff `values` is; otherwise the last node spans all values and its rect is their bound |
| RTreeShape.LeavesFirst | src/rtree/mod.rs:157-171 | the first `ceil(n / 8)` nodes are exactly the leaves, in order |
| RTreeQuery.Matching | src/rtree/mod.rs:256 | the brute-force filter of the values by `intersects`, no longer than the values |
| RTreeQuery.MatchingMembers | src/rtree/mod.rs:256 | a pair is in the filter iff it is stored and its rectangle intersects the query |
| RTreeQuery.MatchingCount | src/rtree/mod.rs:256 | each matching pair occurs in the filter exactly as often as it is stored |
| RTreeQuery.MatchingConcat | src/rtree/mod.rs:254-259 | filtering distributes over concatenation |
| RTreeQuery.MatchingMissed | src/rtree/mod.rs:272 | if a rectangle containing all of a run misses the query, so does every value of the run |
| RTreeQuery.YieldSpan | src/rtree/mod.rs:249-289 | walking a node yields exactly the filter of the values it spans, in order |
| RTreeQuery.RootYield | src/rtree/mod.rs:206-221 | starting from the root (when it intersects the query) yields exactly the brute-force filter of all values |
| RTreeQuery.LeafStep | src/rtree/mod.rs:254-259 | one step of the leaf scan peels off one value: it is yielded first if it intersects |
| RTreeQuery.InnerStep | src/rtree/mod.rs:267-275 | one step of the inner scan splits off one child, whose yield comes first |
| RTree.RTree.constructor | src/rtree/mod.rs:142-147 | a new tree has no values and no nodes |
| RTree.RTree.Rebuild | src/rtree/mod.rs:149-192 | `values` becomes the stable sort by centre key (a permutation of the old values), and `nodes` becomes the tiling of them |
| RTree.RTree.Clear | src/rtree/mod.rs:194-197 | both vectors are emptied |
| RTree.RTree.Extend | src/rtree/mod.rs:199-204 | `values` becomes the sorted old values plus the batch, so the multiset grows by the batch exactly, and the tree is rebuilt |
| RTree.RTree.Query | src/rtree/mod.rs:206-221 | the iterator will yield exactly the brute-force filter of the values by the query |
| RTree.Start | src/rtree/mod.rs:207-214 | the initial stack holds the root when it intersects the query, and what it will yield is the root's yield |
| RTree.LeafBound | src/rtree/mod.rs:159-163 | the loop folds `extend` over the values of the run |
| RTree.InnerBound | src/rtree/mod.rs:176-180 | the loop folds `extend` over the node rects of the run |
| RTree.Leaves | src/rtree/mod.rs:157-171 | the leaf loop pushes exactly the leaf tiling |
| RTree.Level | src/rtree/mod.rs:175-188 | one pass of the inner loop pushes exactly the next level's tiling |
| RTree.FromSeq | src/rtree/mod.rs:224-232 | `from_iter` as `new` then `extend`: the values are the stable sort of the input, and the tree is well formed |
| RTree.ScanLeaf | src/rtree/mod.rs:252-264 | the leaf scan returns the first intersecting value of the remaining run, or `None` when no remaining value intersects |
| RTree.ScanInner | src/rtree/mod.rs:266-275 | the inner scan finds the first intersecting child, whose yield precedes the rest of the node's, or shows that no child remains to yield anything |
| RTree.StepLeaf | src/rtree/mod.rs:251-264 | popping a leaf yields the next pending value, or leaves the pending output unchanged with less work left |
| RTree.StepInner | src/rtree/mod.rs:265-280 | popping an inner node leaves the pending output unchanged and strictly less work left |
| RTree.Advance | src/rtree/mod.rs:249-289 | the outer loop returns the first pending pair and drops it, or `None` when nothing is pending |
| RTree.Iter.constructor | src/rtree/mod.rs:216-220 | the iterator holds the query, the tree's vectors and the initial stack |
| RTree.Iter.Next | src/rtree/mod.rs:249-289 | `next` returns the head of the remaining output and drops it, or `None` when the output is exhausted |
| RTree.Iter.Collect | src/rtree/mod.rs:348-353 | draining the iterator returns its whole remaining output, which is what the tests count |
| Grid.Bin | src/grid.rs:16-19 | the bin is in `[0, 1024)` |
| Grid.BinLinear | src/grid.rs:16-19 | despite the wrapping and the cast, the bin is the exact `x*HASH_X + y*HASH_Y` modulo 1024, that is its low 10 bits |
| Grid.Rectangle.Max | src/grid.rs:42-44 | defines the far corner `(x + width, y + height)`, which must fit `i32` |
| Grid.Rectangle.Intersects | src/grid.rs:46-52 | defines the strict test on the far corners; `IntersectsPoint` and `SharedEdgeApart` state what it means |
| Grid.IntersectsPoint | src/grid.rs:46-52 | rectangles with a common point intersect, and non-empty rectangles intersect only when they share a point |
| Grid.IntersectsSymmetric | src/grid.rs:46-52 | the test is symmetric |
| Grid.SharedEdgeApart | src/grid.rs:46-52 | the test is strict: a rectangle and its neighbour across the right edge do not intersect |
| Grid.IntersectsSelf | src/grid.rs:46-52 | a non-empty rectangle intersects itself |
| Grid.CellOf | src/grid.rs:31-32 | Rust's truncating `/ BIN_SIZE`: a non-negative coordinate lies in `[8c, 8c + 8)`, a negative one in `(8c - 8, 8c]` |
| Grid.CellOfMonotone | src/grid.rs:31-32 | the cell index never decreases as the coordinate grows |
| Grid.CellRanges | src/grid.rs:30-32 | defines the half-open ranges `x/8 .. (x+width)/8 + 1` and `y/8 .. (y+height)/8 + 1`, with Rust's truncating division |
| Grid.CellsOf | src/grid.rs:30-40 | defines the cells `iter` yields: the rows of those ranges, one after the other |
| Grid.CellsMembers | src/grid.rs:30-40 | the cells enumerated are exactly those with `x/8 <= cx <= (x+width)/8` and `y/8 <= cy <= (y+height)/8` |
| Grid.CellsDistinct | src/grid.rs:63-78 | each cell is enumerated exactly once |
| Grid.CellsOrdered | src/grid.rs:63-78 | cells come in y-major order |
| Grid.CellCovers | src/grid.rs:30-40 | every point a rectangle covers lies in one of its cells |
| Grid.SharedCell | src/grid.rs:30-40 | rectangles with a common point have a common cell |
| Grid.RecIter.constructor | src/grid.rs:30-40 | `iter` starts with exactly the rectangle's cells to come |
| Grid.RecIter.Next | src/grid.rs:63-78 | `next` returns the first remaining cell and drops it, or `None` when none remain |
| Grid.Grid.constructor | src/grid.rs:82-87 | exactly 1024 empty bins and no stored ids |
| Grid.AddToBins | src/grid.rs:91-93 | the loop adds the id to the bin of every cell of the rectangle and to no other bin, removing nothing |
| Grid.InsertIndexed | src/grid.rs:90-95 | `insert` preserves the index: every id in a bin is stored, so the lookup at line 121 cannot fail, and every cell of a stored rectangle has its id in its bin |
| Grid.Grid.Insert | src/grid.rs:90-95 | the id joins the bins of exactly the rectangle's cells, the map stores the rectangle under it, and the index invariant is preserved |
| Grid.Grid.Intersects | src/grid.rs:98-105 | the query iterator starts on the grid's contents with exactly the rectangle's cells to visit, no open bin, no cell visited and nothing yielded |
| Grid.Scan | src/grid.rs:119-125 | the scan of an open bin finds an id that hits the query, and skips only ids that do not |
| Grid.Elements | src/grid.rs:129 | opening a bin lists exactly its ids |
| Grid.Complete | src/grid.rs:115-134 | once the cells run out, every stored rectangle of non-negative extent that intersects the query has been yielded, when the query too has non-negative extent |
| Grid.Iter.constructor | src/grid.rs:98-105 | the iterator holds the grid's map, the bins and the query, has exactly the query's cells to visit, no open bin, and has yielded nothing |
| Grid.Iter.Next | src/grid.rs:115-134 | a yielded id has a stored rectangle that intersects the query; `None` means every such id of non-negative extent has been yielded |
| Grid.QueryStored | src/grid.rs:141-163 | querying with a stored non-empty rectangle yields an id, whose rectangle intersects it |
| Q8p24.Trunc | src/movement/q8p24.rs:16-18 | the result is a multiple of 2^24 and the floor of the value to such a multiple |
| Q8p24.TruncBits | src/movement/q8p24.rs:17 | the mask `raw & !(2^24 - 1)` on `i32` equals that floor |
| Q8p24.Fract | src/movement/q8p24.rs:21-23 | the fraction lies in `[0, 2^24)` and `trunc + fract` is the value exactly |
| Q8p24.FractBits | src/movement/q8p24.rs:22 | the mask `raw & (2^24 - 1)` on `i32` equals `raw mod 2^24` |
| Q8p24.TruncFract | src/movement/q8p24.rs:16-23 | `trunc` and `fract` are idempotent and each clears what the other keeps |
| Q8p24.Add | src/movement/q8p24.rs:26-31 | the exact sum when it fits `i32`, else `MAX` or `MIN` |
| Q8p24.Sub | src/movement/q8p24.rs:33-38 | the exact difference when it fits `i32`, else `MAX` or `MIN` |
| Q8p24.SubAdd | src/movement/q8p24.rs:26-38 | subtracting what was added gives the start back when the sum did not saturate |
| Q8p24.SaturatingMul64 | src/movement/q8p24.rs:43 | the 64-bit `saturating_mul` of two widened `i32` never saturates: it is the exact product |
| Q8p24.Mul | src/movement/q8p24.rs:40-46 | when the product does not wrap, the result is `floor(a * b / 2^24)` |
| Q8p24.Div | src/movement/q8p24.rs:48-54 | when the quotient fits, its magnitude is the truncated `|a| * 2^24 / |b|` and its sign is the sign of the quotient |
| Q8p24.MulDivOne | src/movement/q8p24.rs:40-54 | multiplying or dividing by one gives the operand back, and a nonzero value divided by itself is one |
| Q8p24.FromInt8 | src/movement/q8p24.rs:89-93 | the number is `f * 2^24`, a multiple of 2^24 |
| Q8p24.ToInt8 | src/movement/q8p24.rs:107-111 | the result is the floor of the value in whole units |
| Q8p24.Int8RoundTrip | src/movement/q8p24.rs:89-111 | `i8 -> Q8p24 -> i8` is the identity, and `Q8p24 -> i8 -> Q8p24` is `trunc` |
| Vector.New | src/movement/vector.rs:12-17 | the components are stored unchanged |
| Vector.Trunc | src/movement/vector.rs:20-25 | each component is floored to a multiple of 2^24 |
| Vector.Fract | src/movement/vector.rs:28-33 | each component's fraction lies in `[0, 2^24)` and completes its `trunc` exactly |
| Vector.Add | src/movement/vector.rs:36-44 | the saturating sum, component by component |
| Vector.Sub | src/movement/vector.rs:46-54 | the saturating difference, component by component |
| Vector.FromInt8Pair | src/movement/vector.rs:56-62 | the components are `x * 2^24` and `y * 2^24` |
| Vector.TruncPlusFract | src/movement/vector.rs:20-33 | `trunc(v) + fract(v) == v` |
| Vector.TruncFractVector | src/movement/vector.rs:20-33 | `trunc` and `fract` are idempotent on vectors and clear each other's part |
| Vector.Int8PairRoundTrip | src/movement/vector.rs:56-62 | converting the components back to `i8` gives the pair back, and such a vector is its own `trunc` |
| Vector.SubAddVector | src/movement/vector.rs:36-54 | subtracting what was added gives the start back when no component saturates |
| Movement.AxisShift | src/movement/mod.rs:32-43 | the whole pixels an axis moves are the floor of `remainder + vector` |
| Movement.AxisRemainder | src/movement/mod.rs:32-41 | the carried remainder is a fraction in `[0, 1)`; with the shift it makes up the sum exactly, and it is zero on an axis with no velocity |
| Movement.SplitParts | src/movement/mod.rs:33-43 | the masks `trunc` and `fract` give the floor read by the `i8` conversion and the remainder modulo 2^24 |
| Movement.StepParts | src/movement/mod.rs:32-43 | the source's sum, `trunc`, `fract` and resets give the shift and remainder above |
| Movement.Shift | src/movement/mod.rs:32-43 | defines the whole pixels a step moves on each axis, `AxisShift` per axis; `StepParts` shows it is the source's `trunc` then `i8` conversion |
| Movement.NextRemainder | src/movement/mod.rs:32-41 | defines the remainder a step leaves, `AxisRemainder` per axis; `StepParts` shows it is the source's `fract` with the resets |
| Movement.StepExact | src/movement/mod.rs:32-43 | with remainders in `[0, 1)`, a step on each axis with a nonzero velocity below `i32::MAX - 1.0` moves pixels that, with the new remainder, add up to the old remainder plus the velocity |
| Movement.Moved | src/movement/mod.rs:44-48 | moving both corners by the same amount keeps width and height and shifts `min` by the step |
| Movement.Translate | src/movement/mod.rs:44-48 | the four in-place corner updates give the moved rectangle |
| Movement.Movement.constructor | src/movement/mod.rs:21-28 | the velocity is the converted pair and the remainder starts at zero |
| Movement.Movement.Next | src/movement/mod.rs:31-49 | the velocity is kept; the remainder becomes `fract(remainder + vector)`, reset to zero on a still axis, and stays a fraction of a pixel; the rectangle moves by `trunc(remainder + vector)` as `i8`; on a moving axis that cannot saturate, the distance moved plus the new remainder is the old remainder plus the velocity |
| Movement.AxisStepExact | src/movement/mod.rs:32-43 | on a moving axis no motion is lost in one step: the pixels moved plus the new remainder equal the old remainder plus the velocity |
| Movement.AxisStill | src/movement/mod.rs:36-41 | with no velocity an axis does not move and its remainder is cleared |
| Movement.StandStill | src/movement/mod.rs:31-48 | a zero vector and a zero remainder leave the rectangle unchanged and the remainder zero |
| Movement.TravelExact | src/movement/mod.rs:31-49 | over any number of steps a moving axis travels exactly `n` times its velocity, counting the final remainder |

## Left out

- Windowing, rendering, the camera, input polling and the `f32` transform code are not part of this model. They are I/O and floating point.
- `System::run` in `src/movement/mod.rs` is not modelled. It is glue to the entity-component system.
- The float conversions of `Q8p24` (`From<f64>`, `From<f32>`, the conversions into floats) and its `Debug` output are not modelled. They are floating point and formatting.
- `From<MortonRectangle> for Rectangle` (`src/rtree/mod.rs:113-120`) is not modelled separately. It is `Morton.Decode` applied to each corner, and nothing in the core calls it.
- `Point::new` is the datatype constructor `Morton.Point`.
- RTree.Iter.Next: the iterator holds copies of the tree's vectors. The borrow of the tree, the laziness of the iterator and the references it returns are not modelled.
- RTree.RTree.Rebuild: the standard library's `sort_by` is specified by its result, a stable sort by key (`RTreeBuild.SortBy`; `StableSortUnique` shows this is the only possible result). The merge sort that computes it is not modelled.
- Grid.Iter.Next: the order of ids comes from `HashSet` iteration, which is not modelled. `Grid.Elements` lists a bin in an unspecified order.
- Grid.Iter.Next: an id in several visited bins can be yielded more than once. Only soundness, and completeness for non-negative extents, is stated; "each id once" is not.
- Grid.Iter.Next: a stored rectangle with negative width or height may never be found, since its cell range can be empty. Completeness is stated only for non-negative extents.
- Grid.Rectangle.Intersects: rectangles of zero or negative extent can pass the test without sharing a point. This is left as the source has it.
- Grid.Grid.Intersects: requires the query's far corner to fit `i32`, because `self.x + self.width` in `iter` (`src/grid.rs:31-32`) panics on overflow in debug builds.
- Grid.Grid.Insert: requires the far corner to fit `i32`, because `x + width` panics on overflow in debug builds.
- Movement.Movement.Next: requires the new corners to fit `i16`, because the additions to the corners (`src/movement/mod.rs:44-47`) panic on overflow in debug builds. The wrap-around of release builds is not modelled. It also requires `Valid()`, that the remainder is a fraction of a pixel. The remainder is a private field that only `new` and `next` set, and both establish this, so no reachable state is excluded.
- Movement.Movement.constructor: models only the `i8` instance of `Movement::new`.
- Vector.FromInt8Pair: models only the `i8` instance of the generic `From<(T, T)>`.
- Movement.TravelExact: holds for a nonzero velocity below `i32::MAX - 1.0`, so that no step saturates.
- Q8p24.Mul: the contract covers only products below 2^55 in magnitude, where the `as i32` cut loses nothing. The body models the wrap for all inputs.
- Q8p24.Div: the contract covers only `|a| < 128 * |b|`, where the quotient fits `i32`. The body models the `as i32` cut for all inputs. Division by zero panics in the source and is excluded by `requires`.
- The generic handle `T` of the R-tree and the grid is a type parameter. The grid's `Copy + Eq + Hash` bound is modelled by equality alone.
