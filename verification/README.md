# TiledArray einsum core, modelled in Dafny

This project models the symbolic core of TiledArray's `einsum`. It covers four parts:

- **The index algebra** in `TiledArray::index`:
  - an `Index` is an ordered list of labels;
  - the operators `&`, `|`, `+`, `-` and `^` combine two indices;
  - `IndexShuffle` is the permutation taking one index to another, and `shuffle` is the free function of the same kind;
  - `IndexMap` holds values annotated by the labels of an index.
- **The einsum planning step**:
  - the two-argument form assigns the product to `a ^ b`;
  - the three-argument form decides between the plain expression path and the tiled Hadamard path;
  - on the tiled path it classifies the labels into Hadamard (`h`), free (`e`) and contracted (`i`);
  - it builds the operand and result shuffles.
- **`range::Range` and `cartesian_foreach`**: the odometer that calls a function on every tuple of a product of integer ranges.
- **The strided tile kernels** `apply1`, `apply2`, `apply` and `copy`:
  - the walks hand pairs of elements of two strided buffers to a function;
  - `copy` uses them to transpose a dense row-major tile.

Modules, one per component:

- **`Outcomes`** — `Option`, `Result` and the error kinds. Asserts and exceptions become `Failure` values.
- **`Seqs`** — duplicate-freedom, permutations of `0 .. n-1`, subsequence embeddings and sums.
- **`IndexAlgebra`** — `util/index.h` and the bodies written out in `util/index.cpp`.
- **`Shuffles`** — `IndexShuffle` and `shuffle`.
- **`IndexMaps`** — `IndexMap`.
- **`Einsum`** — the planning in `expressions/einsum.h`.
- **`EinsumExamples`** — the four calls of the library's einsum unit test, evaluated on the model.
- **`MixedRadix`** — row-major positions of multi-indices, the order in which the odometer and the walks visit them.
- **`Ranges`** — `util/range.h`.
- **`Tiles`** — `util/tile.h`.

How the C++ constructs are represented:

- A buffer is a sequence and a pointer is an offset into it.
- A walk is modelled by the sequence of (read offset, write offset) pairs it hands to its function, in call order.
- The callback of `cartesian_foreach` is modelled by the sequence of tuples it receives.

## Model

| member | source | states |
|---|---|---|
| IndexAlgebra.Get | src/TiledArray/util/index.h:56 | indexing succeeds exactly for positions below the rank and returns the label there; other positions give the out-of-range error that `at` throws |
| IndexAlgebra.Select | src/TiledArray/util/index.cpp:29-37 | the shared filter loop of `&` and `-` keeps exactly the labels of `a` whose membership in `b` is as asked, and never grows `a` |
| IndexAlgebra.SelectStable | src/TiledArray/util/index.cpp:32-35 | the filter is stable: the kept labels embed into `a` at increasing positions, and position `j` of `a` is kept iff its label's membership in `b` is as asked |
| IndexAlgebra.SelectCounts | src/TiledArray/util/index.cpp:60-63 | every copy of a kept label survives: a label's multiplicity in the result is its multiplicity in `a` when kept and zero otherwise, so `-` tolerates duplicates as the header notes |
| IndexAlgebra.Intersect | src/TiledArray/util/index.cpp:29-37 | `a & b` holds exactly the labels in both operands |
| IndexAlgebra.Difference | src/TiledArray/util/index.cpp:57-65 | `a - b` holds exactly the labels of `a` absent from `b` |
| IndexAlgebra.Union | src/TiledArray/util/index.cpp:39-48 | the union starts with all of `a`; what follows is exactly the labels of `b` missing from `a`; overall it holds the labels of either operand |
| IndexAlgebra.OperandOrderKept | src/TiledArray/util/index.h:62-74 | the stable intersect and the difference are subsequences of `a`, and the part of the union after `a` is a subsequence of `b` |
| IndexAlgebra.Concat | src/TiledArray/util/index.cpp:50-55 | the concatenation has as many labels as both operands together, with `a` as its prefix and `b` as its suffix |
| IndexAlgebra.ConcatKeepsDuplicates | src/TiledArray/util/index.h:76-81 | concatenation keeps every occurrence: its multiset is the sum of the operands' multisets |
| IndexAlgebra.SymmetricDifference | src/TiledArray/util/index.h:90-97 | `a ^ b` holds exactly the labels that are in one operand but not the other |
| IndexAlgebra.SymmetricDifferenceSplit | src/TiledArray/util/index.h:95-96 | the union minus the intersection lists `a - b` first and then `b - a`, each in its operand's order |
| IndexAlgebra.SymmetricDifferenceEmpty | src/TiledArray/util/index.h:95-96 | `a ^ b` is false as a boolean iff the two indices have the same set of labels |
| IndexAlgebra.SelfLaws | src/TiledArray/util/index.cpp:29-65 | an index combined with itself: intersect and union give it back, `-` gives the empty index, `- []` gives it back, `^` is empty |
| IndexAlgebra.DisjointLaws | src/TiledArray/util/index.cpp:29-48 | for operands with no common label, `&` is empty and both union and `^` equal concatenation |
| IndexAlgebra.NoDupPreserved | src/TiledArray/util/index.cpp:29-65 | under the header's precondition of duplicate-free operands, intersect, difference, union and `^` all produce duplicate-free indices |
| Shuffles.Mapping | src/TiledArray/util/index.h:110-117 | the nested search records, for each label of `p`, the first position of `s` holding it; when every label of `p` occurs in `s` there is one entry per label |
| Shuffles.Derive | src/TiledArray/util/index.h:108-118 | constructing the shuffle succeeds iff `s ^ p` is empty, i.e. both have the same labels; on success the mapping has one entry per label of `p`, all valid positions of `s`, and `s` read through it gives `p` |
| Shuffles.Apply | src/TiledArray/util/index.h:124-131 | `operator()` returns a sequence of the same length whose positions below the mapping's length read `s` through the mapping, the rest keeping their values |
| Shuffles.Shuffle | src/TiledArray/expressions/shuffle.h:25-31 | `shuffle(map, s)` returns a sequence of `s`'s length whose position `i` holds `s[map[i]]` |
| Shuffles.DeriveIdentity | src/TiledArray/util/index.h:108-118 | the shuffle from a duplicate-free index to itself is the identity mapping |
| Shuffles.DerivePermutation | src/TiledArray/util/index.h:108-131 | between duplicate-free indices with the same labels, the mapping is a permutation of the positions of `s` and applying it to `s` yields `p` |
| Shuffles.ShuffleAgreesWithApply | src/TiledArray/expressions/shuffle.h:25-31 | for a mapping as long as the sequence, the free `shuffle` and `IndexShuffle::operator()` agree |
| Shuffles.ShuffleIdentity | src/TiledArray/expressions/shuffle.h:25-31 | shuffling by `0, 1, ..., n-1` leaves a sequence unchanged |
| IndexMaps.Make | src/TiledArray/util/index.h:146-160 | construction succeeds iff there are as many values as keys (the two asserts); the map then pairs the keys with the values in order |
| IndexMaps.Find | src/TiledArray/util/index.h:163-166 | `find` reports no entry iff the key is absent; otherwise it returns the first entry with that key |
| IndexMaps.At | src/TiledArray/util/index.h:170-176 | `at` succeeds iff the key is present, returning the value of its first entry; a missing key is the key-not-found error |
| IndexMaps.Lookup | src/TiledArray/util/index.h:181-188 | `operator[]` succeeds iff every key of `idx` is present; it returns one value per key, in `idx`'s order, each the one `at` gives |
| IndexMaps.AtMake | src/TiledArray/util/index.h:146-176 | in a map built from duplicate-free keys, `at` of the k-th key gives the k-th value |
| IndexMaps.LookupMake | src/TiledArray/util/index.h:146-188 | a map built from duplicate-free keys, looked up by those same keys, gives back the values it was built from |
| Einsum.ImplicitResult | src/TiledArray/expressions/einsum.h:19-26 | the two-argument einsum's result keeps exactly the labels in one operand only (shared labels are contracted), `a`'s own first |
| Einsum.ImplicitResultSameLabels | src/TiledArray/expressions/einsum.h:19-26 | the two-argument einsum assigns the product to the empty index exactly when both operands carry the same labels, so every label is contracted |
| Einsum.Hadamard | src/TiledArray/expressions/einsum.h:40 | `h` holds exactly the labels common to `a`, `b` and `c` |
| Einsum.HadamardInOrder | src/TiledArray/expressions/einsum.h:40 | `h` lists its labels in `a`'s order |
| Einsum.HadamardEmpty | src/TiledArray/expressions/einsum.h:44 | `!h` holds iff no label is common to all three indices |
| Einsum.Classify | src/TiledArray/expressions/einsum.h:34-78 | the direct path `C(c) = A*B` is taken iff no label is common to all three indices or `a == b == c`; the only failure is a shuffle whose two indices have different labels |
| Einsum.TiledRoles | src/TiledArray/expressions/einsum.h:40-52 | on the tiled path the Hadamard labels are those in all three indices; the free ones are those in exactly one operand; the contracted ones are in both operands but not in `c` |
| Einsum.HadamardContractedPartition | src/TiledArray/expressions/einsum.h:50-52 | `h` and `i = (a & b) - h` are disjoint, and together they make up the common labels `a & b` |
| Einsum.TermOrderRearranges | src/TiledArray/expressions/einsum.h:70-73 | for duplicate-free operands, `h + (x & e) + i` is duplicate-free and has the labels of the operand `x`, so the operand's `IndexShuffle` assert holds |
| Einsum.TermShufflesDerive | src/TiledArray/expressions/einsum.h:70-73 | for duplicate-free operands both operand shuffles can be constructed |
| Einsum.TermShufflesPermute | src/TiledArray/expressions/einsum.h:70-73 | on the tiled path with duplicate-free operands, each operand shuffle is a permutation of the operand's positions that rearranges it into `h + (x & e) + i` |
| Einsum.ResultShufflePermutes | src/TiledArray/expressions/einsum.h:75-78 | for duplicate-free operands and result, the result shuffle `IndexShuffle(h+e, c)` of a tiled plan is a permutation of the positions of `h + e` that reorders `h + e` into `c` |
| Einsum.ClassifyFailsIff | src/TiledArray/expressions/einsum.h:34-78 | for duplicate-free operands, planning fails iff the tiled path is taken and `c` lacks the labels of `h + e` |
| EinsumExamples.MatrixProduct | tests/einsum.cpp:31 | `einsum(a("i,k"), b("k,j"))` contracts `k` and produces `i,j` |
| EinsumExamples.ElementwiseProduct | tests/einsum.cpp:32 | `einsum(a("i,j"), b("i,j"), "i,j")` takes the direct path with result `i,j` |
| EinsumExamples.RowwiseDot | tests/einsum.cpp:33 | `einsum(a("i,k"), b("i,k"), "i")` is tiled over `i` and contracts `k`; all shuffles are identities |
| EinsumExamples.BatchedOuterProduct | tests/einsum.cpp:34 | `einsum(a("i,k"), b("j,k"), "i,j,k")` is tiled over `k` and keeps `i` and `j` free; operands are shuffled `[1, 0]` and the result `[1, 2, 0]` |
| EinsumExamples.DeriveRotate | src/TiledArray/util/index.h:108-118 | the shuffle rotating three distinct labels left is the mapping `[1, 2, 0]` |
| Ranges.Values | src/TiledArray/util/range.h:6-19 | a range visits `begin, begin+1, ..., end-1` in steps of one: exactly the integers in `[begin, end)`, `end - begin` of them |
| Ranges.FromPairInclusive | src/TiledArray/util/range.h:10-13 | a range built from a pair includes its second component: it holds exactly `first .. second` |
| Ranges.CarryCounts | src/TiledArray/util/range.h:66-73 | one pass of the inner carry loop adds one to the row-major position of the iterators and keeps the trailing wheels below their ends |
| Ranges.OdometerStep | src/TiledArray/util/range.h:59-73 | while the first iterator has not reached its end, the iterators are at the tuple of the current rank; one turn moves them to the next rank |
| Ranges.CartesianForeach | src/TiledArray/util/range.h:50-75 | `f` is called once per tuple of the product (`Size` of the extents calls), with the tuple of row-major rank `n` at call `n`; every call is in the product, every tuple of the product is passed, in strictly increasing lexicographic order; nothing is called when the first range is empty, whatever the later ranges are |
| Ranges.PointInProduct | src/TiledArray/util/range.h:60-65 | the tuple built from in-range iterators lies in the product |
| Ranges.ProductCovered | src/TiledArray/util/range.h:59-74 | every tuple of the product is the tuple of some rank below the product's size, namely its row-major position |
| Ranges.CallsSorted | src/TiledArray/util/range.h:59-74 | the tuple of an earlier call is lexicographically smaller than that of a later one |
| MixedRadix.RowMajorSteps | src/TiledArray/util/tile.h:56-62 | row-major strides: the last is 1, and each one is the next one times the next extent |
| MixedRadix.TuplesSorted | src/TiledArray/util/range.h:66-73 | the odometer order lists multi-indices in strictly increasing lexicographic order |
| Tiles.Apply1 | src/TiledArray/util/tile.h:4-13 | `apply1` makes `n` calls; call `i` receives the pointers advanced by `i` strides each |
| Tiles.Apply2 | src/TiledArray/util/tile.h:15-24 | `apply2` makes `m * n` calls |
| Tiles.Apply2At | src/TiledArray/util/tile.h:15-24 | call `i * n + j` of `apply2` is row `i`, column `j`: each pointer has moved by `i` outer strides and `j` inner strides, so the calls go row by row |
| Tiles.Apply | src/TiledArray/util/tile.h:26-47 | `apply` makes no call at rank 0 and otherwise one call per element of the box |
| Tiles.Apply2AsRows | src/TiledArray/util/tile.h:35-46 | the rank-2 shortcut through `apply2` walks exactly like the general loop over the leading extent would |
| Tiles.ApplyIsRows | src/TiledArray/util/tile.h:35-46 | from rank 2 on, `apply` is the loop over the leading extent, recursing on the trailing extents |
| Tiles.RowsAt | src/TiledArray/util/tile.h:42-46 | call `a * Size(tail) + e` of the loop is call `e` of the recursive walk of row `a`, with pointers advanced by `a` leading strides |
| Tiles.ApplyAt | src/TiledArray/util/tile.h:26-47 | call `k` of `apply` receives each pointer offset by its strides dotted with the `k`-th multi-index in row-major order, so every multi-index is visited once, last extent fastest |
| Tiles.RhoPermutation | src/TiledArray/util/tile.h:56-62 | a permutation order gives a permutation of the output axes |
| Tiles.CopyStrides | src/TiledArray/util/tile.h:54-62 | the input strides are the row-major strides of `dims`; for a permutation order the output strides, in output-axis order, are the row-major strides of the reordered extents; the identity order gives equal strides |
| Tiles.PlacedIsSize | src/TiledArray/util/tile.h:56-62 | the running output product after `i` turns is the product of the last `i` output extents, which the next output stride needs |
| Tiles.Copy | src/TiledArray/util/tile.h:52-68 | input element `k` lands at the transposed position of the `k`-th multi-index; the output buffer past the tile keeps its contents; rank 0, with any buffers, copies nothing; the identity order copies the tile verbatim |
| Tiles.RankZeroSkipped | src/TiledArray/util/tile.h:28-30 | a rank-0 tile holds one element, yet `apply` makes no call for rank 0, so `copy` writes nothing |
| Tiles.CopyAllRanks | src/TiledArray/util/tile.h:52-68 | for every rank, including a one-element rank-0 tile, input element `k` lands at its transposed position, the output past the tile keeps its contents, and the identity order copies the tile verbatim |
| Tiles.CopyPairs | src/TiledArray/util/tile.h:63-67 | call `k` of the walk in `copy` reads input position `k` and writes its transposed position, and no two calls write the same position |
| Tiles.ScatterTransposes | src/TiledArray/util/tile.h:63-67 | performing the assignments of that walk in order puts every input element at its transposed position and writes nothing past the tile |
| Tiles.Scatter | src/TiledArray/util/tile.h:64 | performing the assignments in call order: a position written only once gets the element read for it; an unwritten position keeps its contents |
| Tiles.OffsetOf | src/TiledArray/util/tile.h:56-67 | the transposed position of each element lies inside the tile |
| Tiles.OffsetOfInjective | src/TiledArray/util/tile.h:56-67 | distinct input positions are written to distinct output positions |
| Tiles.OffsetOfCovers | src/TiledArray/util/tile.h:56-67 | every position of the output tile is written, so the write positions are a bijection onto the tile |
| Tiles.TransposeBound | src/TiledArray/util/tile.h:56-62 | the reordered multi-index is in bounds of the output extents, which have the same size as the input, so the transposed position is inside the tile |
| Tiles.TransposeInjective | src/TiledArray/util/tile.h:56-62 | distinct multi-indices have distinct transposed positions |
| Tiles.TransposeCovers | src/TiledArray/util/tile.h:56-62 | every output position is the transposed position of some multi-index of the box |
| Tiles.TransposeIdentity | src/TiledArray/util/tile.h:56-62 | for the identity order the transposed position is the row-major position itself |
| Tiles.IdentityStrides | src/TiledArray/util/tile.h:56-62 | for the identity order the output strides are the input strides |
| Tiles.ShuffleMultiset | src/TiledArray/util/tile.h:56-62 | reordering by a permutation keeps the multiset of values; applied to the extents, the output tile has the input's extents in another order |

## Left out

- `tokenize`, `validate` and `join` (index.h:15-19) are declared without bodies; string annotations are modelled as already-split labels.
- The conversions between `Index` and `std::string` (index.h:38-43) are left out, because they only wrap `tokenize` and `join`.
- `IndexShuffle::operator~` and `IndexShuffle::operator[]` are left out. The first is declared without a body. The second is a plain read of the mapping (`Derive` exposes the mapping itself).
- `IndexMap` `operator|` (index.h:195-197) is declared without a body.
- The `Shuffle` struct in shuffle.h:5-23 is left out. Its assert does not compile as written, and its search loop is the one of `IndexShuffle`, which is modelled.
- `RangeProduct` (range.h:26-46) is left out. Its `*=` returns without storing the range, and the struct is not used by the planning modelled here.
- The tiled loop of einsum (einsum.h:54-68 and 80-108) is left out: `range_map`, the `RangeProduct` of Hadamard tiles, and the `tile::copy` calls on null buffers. It needs `DistArray`, `TiledRange1` and the expression layer, none of which is part of this model. The model stops at the plan those lines would use.
- `Einsum.Classify`, direct path: `C(c) = A*B` is recorded as the direct plan; the expression evaluation itself is not modelled.
- Integer widths are not modelled. Pointer arithmetic, `size_t` strides and products, and `int64_t` range values are unbounded integers here.
- Threads are not modelled: nothing in the core is concurrent.
- `Ranges.Values`: requires `begin <= end`. From `begin > end` a counting iterator never reaches `end` (short of `int64_t` overflow), which the model does not follow.
- `Ranges.CartesianForeach`: requires at least one range, because the code reads `its.front()`.
- The callback `f` of `cartesian_foreach` is modelled by the returned sequence of the tuples it receives.
- An empty list of ranges is undefined behaviour in the code, although one could expect a single empty tuple. The model follows the code.
- `Ranges.CartesianForeach`, empty or inverted later range: when the first range is non-empty, every later range must have `begin < end`. Otherwise the code dereferences that range at or past its end, and its iterator never compares equal to the end again, so the loop never stops. With an empty first range the code returns at once, and the model accepts any later ranges there.
- `Ranges.CartesianForeach`: requires the first range to have `begin <= end`. From an inverted first range the outer loop never stops, short of `int64_t` overflow.
- `Tiles.Copy`: requires `p` to be a permutation of the axes. The code does not check this. With any other order, two input elements can be written to the same output slot, some slots of the output tile are never written, and writes can land past the tile. The model does not describe that output.
- `Tiles.Copy`: uses one element type for `in` and `out`. The code allows two types and converts through `b = a`; that conversion is not modelled.
- `Tiles.Copy`: treats `in` and `out` as separate buffers. Aliased or overlapping buffers, including an in-place transpose, are not modelled.
- `Tiles.Copy`: from rank 1 on, requires both buffers to hold at least one tile, which the code assumes of its pointers. At rank 0 nothing is read or written, so any buffers are accepted, as in the call with null pointers at einsum.h:94-101.
- The function given to `apply` is modelled by the offset pairs it receives; `copy`'s assignment is modelled by `Scatter`.
- `IndexMaps.At`: the source returns `*it`, the stored (key, value) pair, through a reference to the value type. The model returns the value.
- The asserts in the `IndexShuffle` and `IndexMap` constructors are modelled as `Failure` results rather than aborts.
- `Shuffles.Apply`, `Shuffles.DerivePermutation`: model `IndexShuffle::operator()` for a container whose `operator[]` returns a reference. `Index::operator[]` returns a copy, so applied to an `Index` the call writes into temporaries: it returns `s` unchanged for string labels and does not compile for integral ones. No caller in the modelled core applies it to an `Index`.
- `Einsum.ImplicitResult`: the doc comment at einsum.h:12-14 promises a Hadamard product when no index is free. The code assigns to `a ^ b`, which is then empty, so every label is contracted. The model follows the code (`Einsum.ImplicitResultSameLabels`).
- The index operators are total, as in the code: the header's "no duplicates" precondition is required only by the lemmas whose statement needs it (`NoDupPreserved`, `TermOrderRearranges` and those built on them).

## Findings

| source | as written | input that shows it | evidently intended | confidence | as-written member | corrected member |
|---|---|---|---|---|---|---|
| src/TiledArray/util/tile.h:30 | `apply` returns at once for rank 0, so `copy` writes nothing | `dims` empty: a rank-0 tile, which holds one element | copy the single element; against this, the one call at rank 0 (einsum.h:94-101) passes null pointers and is safe only because of the early return | low, not executed | Tiles.RankZeroSkipped | Tiles.CopyAllRanks |
