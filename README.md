# Segment trees without lazy propagation

This project models two array-backed segment trees and proves what their
operations compute.

- `segment-tree.py` is an additive tree. Every node holds the sum of the
  elements it covers.
- `mulseg.py` is a tree over a global modulus `K`. Every node holds the
  product of its elements modulo `K`, plus the number of leaves it spans.
  While it builds, it records `possible_interval`: 1 if some element is 0
  modulo `K`, otherwise the span of the first inner node, in post-order,
  whose product is 0 modulo `K`, and 0 if there is none. The script at the end
  of `mulseg.py` then scans every window of that length with a rolling
  product and reports the windows whose product is divisible by `K`.

Both trees use the implicit heap layout. The root sits at slot 0, the
children of slot `i` sit at `2i + 1` and `2i + 2`, and the node covering
`[lo, hi]` is split at `(lo + hi) / 2`. The source is Python 2: its `/` on
integers floors, which is Dafny's `/` for a divisor of 2 (and for the
nonnegative sums of indices that occur). Python's `%` with a positive `K`
is never negative, and neither is Dafny's.

Files:

- `wrappers.dfy`: `Option`. An absent child or query result is `None`
  (Python's `None`).
- `layout.dfy` (`Layout`): the heap layout, `2 ** ceil(log(n, 2))` computed
  on integers (`CeilLog2`, `TreeSize`), and `Fits`, which says that every
  slot a traversal visits exists. It also has the subtree relation
  (`Descends`) with the frame predicates `AgreeOn` and
  `OnlySubtreeChanged`, and `AddRange`, the element values after an update.
- `sum_segment_tree.dfy` (`SumSegTree`): the additive tree.
- `mulseg.dfy` (`MulSeg`): the multiplicative tree and `possible_interval`.
- `min_interval.dfy` (`MinInterval`): the window scan and the script
  without its input and output.

How the model is built:

- Each tree is a class whose backing list is an `array` of value nodes.
  `_build_tree`, `_update` and `update` are methods that change that array
  in place, as the source does. `query` is a method that only reads it.
- A ghost field holds the element values the tree currently represents
  (`Elements` or `Leaves`). The ghost predicate `Valid` ties the array to
  those values through `Consistent`: a leaf holds its element, and every
  inner node holds the merge of its children.
- `_query` reads the tree without changing it, so it is the function
  `QueryTree`.
- `_update` is specified by the function `UpdatedTree` on the list before
  the call. Lemmas prove that the result is again consistent with
  `AddRange` of the old values.
- `possible_interval` is specified by `IntervalAfterBuild`, a function that
  follows the post-order of `_build_tree`.

## Model

| member | source | states |
|---|---|---|
| SumSegTree.Merge | segment-tree.py:4-15 | An absent child counts as `Node(0)`. A lone child comes back unchanged, and two children give the sum of their values. |
| SumSegTree.MergeAssociative | segment-tree.py:4-15 | Merging is associative, so partial query answers can be regrouped. |
| SumSegTree.SumSplit | segment-tree.py:68-74 | A range sum is the sum of its two parts at any split point, in particular at `mid`. |
| SumSegTree.NodeHoldsRangeSum | segment-tree.py:56-74 | In a consistent tree, every node's value is the sum of the elements of its range. |
| SumSegTree.ConsistentKept | segment-tree.py:70-74 | A node stays consistent when the slots of its own subtree are unchanged, so building the right subtree does not disturb the left one. |
| SumSegTree.Recombined | segment-tree.py:70-74 | After the left subtree and then the right subtree were rebuilt, writing the merge at the parent makes the parent consistent. Only the parent's subtree changed. |
| SumSegTree.ConsistentSameRange | segment-tree.py:101-103 | A node stays consistent when no element of its own range changes, which is why a pruned `_update` may return at once. |
| SumSegTree.ClippedSumSplit | segment-tree.py:89-94 | The part of the query inside a node sums to the parts inside its two halves. |
| SumSegTree.QueryTree | segment-tree.py:77-94 | `_query` returns `None` exactly when the query misses the node's range. Otherwise it returns a node whose value is the sum over the part of `[start, end]` inside the range. |
| SumSegTree.AddRangeSum | segment-tree.py:47-53 | After `v` is added over `[qs, qe]`, any range sum grows by `v` times the number of its positions inside `[qs, qe]`. |
| SumSegTree.AddRangeOutside | segment-tree.py:101-103 | An update whose range is empty or outside the array changes no element. |
| SumSegTree.ConsistentFits | segment-tree.py:56-74 | Every slot a consistent tree's traversal visits exists. |
| SumSegTree.UpdatedTree | segment-tree.py:97-113 | The list after `_update(idx, lo, hi, start, end, value)`: a node outside `[start, end]`, or an empty range, is left alone; a leaf gets `value` added; an inner node updates its left subtree, then its right one, then stores the merge of its children. The list keeps its length, and UpdatedTreeConsistent proves what the result holds. |
| SumSegTree.UpdatedTreeConsistent | segment-tree.py:97-113 | The list after `_update` is consistent with the old elements plus `v` inside `[start, end]`. Only the subtree of the visited node changed. |
| SumSegTree.SegmentTree.constructor | segment-tree.py:31-37 | The built tree is consistent with `arr`. It allocates `SlotCount(len(arr))` slots: the padded size, and none for an empty array (see Findings). |
| SumSegTree.SegmentTree.BuildTree | segment-tree.py:56-74 | `_build_tree` makes the node consistent with `arr` and writes only slots of its subtree. |
| SumSegTree.SegmentTree.Query | segment-tree.py:40-44 | `query(start, end)` returns the sum of the elements in `[start, end]` clipped to the array, for any query that meets the array. |
| SumSegTree.SegmentTree.UpdateAt | segment-tree.py:97-113 | `_update` turns the list into `UpdatedTree` of the list it found. |
| SumSegTree.SegmentTree.Update | segment-tree.py:47-53 | `update(start, end, value)` keeps the tree valid and represents the elements with `value` added over `[start, end]`. |
| SumSegTree.AsWrittenSizeTooSmall | segment-tree.py:35-37 | With `2 * len(arr) - 1` slots (`AsWrittenSize`, the size as written) and six elements, the build visits a slot that does not exist. |
| SumSegTree.AsWrittenSizeFitsDemo | segment-tree.py:35-37 | The five elements of the demonstration fit in `AsWrittenSize(5)` = 9 slots, so segment-tree.py:120-125 builds as written. |
| SumSegTree.AsWrittenSizeFitsPowersOfTwo | segment-tree.py:35 | When the length is a power of two, `2 * len(arr) - 1` equals the padded size, and every visited slot exists. |
| SumSegTree.Demo | segment-tree.py:120-125 | The four queries of the demonstration over `[1, 3, 2, 6, 4]` give 4, 12, 16 and 5. |
| Layout.CeilLog2 | mulseg.py:38 | `ceil(log(n, 2))` is the least `d` with `2^d >= n`. |
| Layout.TreeSize | mulseg.py:38 | `int(2 * (2 ** ceil(log(n, 2))) - 1)` lies between `2n - 1` and `4n - 1`. |
| Layout.TreeSizeFits | mulseg.py:38-41 | With that many slots, every slot that `_build_tree`, `_query` or `_update` visits exists, for any `n >= 1`. |
| Layout.TreeSizeOfPowerOfTwo | mulseg.py:38 | When `n` is a power of two, the padded size is exactly `2n - 1`. |
| MulSeg.Merge | mulseg.py:5-17 | The merged value lies in `[0, K)`. Two children give the product of their values modulo `K` and the sum of their lengths. |
| MulSeg.MergeWithAbsent | mulseg.py:10-17 | An absent child counts as `Node(1, 0)`. A lone child comes back reduced modulo `K` with its own length, and two absent children give `Node(1 % K, 0)`. |
| MulSeg.MergeAssociative | mulseg.py:5-17 | Merging is associative. |
| MulSeg.ProdSplit | mulseg.py:72-78 | A range product is the product of its two parts at any split point. |
| MulSeg.ReducedProd | mulseg.py:67 | Storing `arr[i] % K` at the leaves leaves every range product modulo `K` unchanged. |
| MulSeg.NodeHoldsRangeProduct | mulseg.py:58-81 | Every node of a consistent tree spans its range (`length == hi - lo + 1`) and is congruent to the range's product modulo `K`. An inner node is exactly that product reduced modulo `K`. |
| MulSeg.BuiltNodeIsProduct | mulseg.py:78 | A freshly built inner node holds the product of `arr[lo..hi]` modulo `K`. |
| MulSeg.ConsistentKept | mulseg.py:74-78 | A node stays consistent when the slots of its own subtree are unchanged. |
| MulSeg.Recombined | mulseg.py:74-78 | After the left subtree and then the right subtree were rebuilt, writing the merge at the parent makes it consistent. Only its subtree changed. |
| MulSeg.ConsistentSameRange | mulseg.py:108-110 | A node stays consistent when no element of its own range changes. |
| MulSeg.ConsistentFits | mulseg.py:58-81 | Every slot a consistent tree's traversal visits exists. |
| MulSeg.LeafUpdated | mulseg.py:111-113 | Adding `value` to a leaf, without reducing it, keeps the leaf consistent with its updated element. |
| MulSeg.UpdatedTree | mulseg.py:104-120 | The list after `_update`: prune outside `[start, end]` or on an empty range, add `value` to a leaf's `val` without reducing it, otherwise update left then right and store the merge of the children. The list keeps its length, and UpdatedTreeConsistent, UpdatedTreeLocal and UpdatedTreeKeepsLengths prove what the result holds. |
| MulSeg.UpdatedTreeConsistent | mulseg.py:104-120 | The list after `_update` is consistent with the old leaf values plus `v` inside `[start, end]`. |
| MulSeg.InnerUpdated | mulseg.py:115-120 | The inner-node case: update the left subtree, then the right one, then merge, and the node is consistent with the updated values. |
| MulSeg.LeftHalfUpdated | mulseg.py:115-116 | Updating the left subtree makes it consistent with the updated values. The right subtree keeps its consistency with the old values. |
| MulSeg.RightHalfMerged | mulseg.py:117-120 | Then updating the right subtree and merging makes the node consistent with the updated values. |
| MulSeg.UpdatedTreeLocal | mulseg.py:104-120 | `_update` writes only slots of the visited node's subtree. |
| MulSeg.MergedLengthKept | mulseg.py:16 | Re-merging children whose lengths are unchanged keeps the parent's length. |
| MulSeg.UpdatedTreeKeepsLengths | mulseg.py:104-120 | `_update` changes no node's `length` anywhere in the list. |
| MulSeg.ClippedProdSplit | mulseg.py:96-101 | The part of the query inside a node multiplies out to the parts inside its two halves. |
| MulSeg.PartialQueryMerged | mulseg.py:96-101 | Merging the two children's answers, either of which may be `None`, gives the parent's answer: the right length and the product modulo `K`. |
| MulSeg.QueryTree | mulseg.py:84-101 | `_query` returns `None` exactly when the query misses the node's range. Otherwise it returns a node spanning the overlap whose value is congruent to the overlap's product modulo `K`. That value is exactly the reduced product, except for a leaf returned as it is. |
| MulSeg.IntervalAfterBuild | mulseg.py:58-81 | `possible_interval` after `_build_tree` visits a node in post-order, starting from `p`. A leaf whose element is 0 modulo `K` sets 1. An inner node whose merged product is 0 modulo `K` sets its span only while the value is 0. A nonzero value, once recorded, is never reset to 0. |
| MulSeg.IntervalZeroIff | mulseg.py:58-81 | `possible_interval` stays 0 exactly when it started at 0 and no visited node has a product that is 0 modulo `K`. |
| MulSeg.IntervalWitness | mulseg.py:79-81 | A recorded value different from the starting one is the span of a visited node whose product is 0 modulo `K`. |
| MulSeg.InnerWitness | mulseg.py:78-81 | The inner-node case of IntervalWitness: a changed value is the node's own span or comes from a block of one of its subtrees, and is the span of a block whose product is 0 modulo `K`. |
| MulSeg.OneStaysOne | mulseg.py:68-69 | Once 1 is recorded, it stays 1. |
| MulSeg.IntervalAtLeaf | mulseg.py:67-69 | A leaf whose element is 0 modulo `K` records 1. Otherwise it keeps the recorded value. |
| MulSeg.IntervalAtInner | mulseg.py:78-81 | An inner node records its span only when its merged value is 0 and nothing was recorded yet. |
| MulSeg.InnerKeepsRecorded | mulseg.py:80 | A nonzero value recorded by the subtrees is kept by their parent. |
| MulSeg.ZeroLeafGivesOne | mulseg.py:67-69 | An element that is 0 modulo `K` forces the recorded value to 1. |
| MulSeg.IntervalInRange | mulseg.py:40-41 | After construction, a nonzero recorded value lies between 1 and `len(arr)`. |
| MulSeg.PossibleInterval | mulseg.py:40-41 | After construction, the recorded value is 0 or the span of a node whose product is 0 modulo `K`. It is 1 whenever some element is 0 modulo `K`. |
| MulSeg.SegmentTree.constructor | mulseg.py:34-41 | The tree is built over `arr % K` in `int(2 * (2 ** ceil(log(n, 2))) - 1)` slots and is consistent. `possible_interval` holds what the post-order build records. |
| MulSeg.SegmentTree.BuildTree | mulseg.py:58-81 | `_build_tree` makes the node consistent with `arr % K`, writes only slots of its subtree, and updates `possible_interval` as `IntervalAfterBuild` says. |
| MulSeg.SegmentTree.Query | mulseg.py:43-47 | `query(start, end)` is congruent to the product of the current leaves over `[start, end]` clipped to the array, and equals it reduced modulo `K` unless the array has one element. On a tree never updated, it is the product of `arr` over that range modulo `K`. |
| MulSeg.SegmentTree.UpdateAt | mulseg.py:104-120 | `_update` turns the list into `UpdatedTree` of the list it found. |
| MulSeg.SegmentTree.Update | mulseg.py:50-55 | `update(start, end, value)` keeps the tree valid and adds `value` to the leaves in `[start, end]`. `possible_interval` and every `length` stay as they were. |
| MinInterval.WindowsMembers | mulseg.py:144-146 | A pair is reported exactly when it is a 1-indexed window `(i, i + L - 1)` whose product is divisible by `K`. |
| MinInterval.WindowsAscending | mulseg.py:146-150 | The reported windows are strictly ascending by first index, so `found_intervals.sort()` leaves them as they are. |
| MinInterval.ExactDivision | mulseg.py:147 | Dividing the rolling product by its first factor gives the product of the rest exactly, with Python 2's floor division. |
| MinInterval.ScanWindows | mulseg.py:139-150 | The rolling-product scan returns exactly the windows of length `L` whose product is divisible by `K`, in order. |
| MinInterval.Solve | mulseg.py:131-150 | The script answers "NONE" exactly when no node of the tree has a product that is 0 modulo `K`. Otherwise it reports the recorded span, which lies between 1 and `len(a)`, and exactly the windows of that length divisible by `K`. |
| MinInterval.SixSpanExample | mulseg.py:67-69 | Over `[1, 3, 2, 6, 4]` with `K = 6`, the recorded span is 1. |
| MinInterval.SixWindowsExample | mulseg.py:144-146 | Over `[1, 3, 2, 6, 4]` with `K = 6`, the only window of length 1 is `(4, 4)`. |
| MinInterval.FiveExample | mulseg.py:79-81 | Over `[1, 2, 3, 4]` with `K = 5`, no node's product is divisible by 5. |
| MinInterval.DemoSix | mulseg.py:131-150 | The script over `[1, 3, 2, 6, 4]` with `K = 6` reports span 1 and the window `[4, 4]`. |
| MinInterval.DemoFive | mulseg.py:131-135 | The script over `[1, 2, 3, 4]` with `K = 5` reports "NONE". |
| MinInterval.RecordedSpanNotShortest | mulseg.py:79-81 | Over `[2, 1, 3, 2, 3]` with `K = 6`, the recorded span is 3, yet a window of length 2 has product 6. |

## Left out

- Input and output are not modelled: `raw_input` parsing, the unused `N`, every `print` and `print_tree`. `Solve` takes the array and `K` as parameters and returns what the script would print.
- `ceil(log(n, 2))` in floating point is modelled by the exact integer `CeilLog2`. Float rounding for very large `n` is not modelled.
- `[Node(1,0)] * tree_size` (and `[Node(0)] * tree_size`) fills the list with one shared node object. The model uses value nodes. Every slot a traversal visits gets a fresh node before it is updated in place, so the sharing only affects slots that are never read.
- `K` is a global in `mulseg.py` and a constructor parameter here. `K < 1` is excluded: `K == 0` raises on `% K`, and a negative `K` gives Python's nonpositive remainders, which are not modelled.
- MulSeg.SegmentTree.constructor requires a nonempty array: `log(0)` raises.
- SumSegTree.SegmentTree.Update on an empty array requires a pruned range. Otherwise `_update` keeps splitting `[0, -1]` into itself and never returns normally.
- SumSegTree.SegmentTree.Query and MulSeg.SegmentTree.Query require a range that meets the array. Otherwise `_query` returns `None` and reading `.val` raises.
- MinInterval.ScanWindows and MinInterval.Solve require every element to be nonzero. A zero element makes the span 1, and the scan then divides by zero.
- `found_intervals.sort()` is not executed as a step. WindowsAscending proves the list is already strictly ascending.
- The value the script prints as "Minimum interval length" is 1 when some element is 0 modulo `K`, and otherwise the span of the first inner node, in post-order, whose product is 0 modulo `K`. It is not always the length of the shortest such window, and RecordedSpanNotShortest shows an input where they differ. The model keeps the source's behaviour.

## Findings

| source | as written | input that shows it | evidently intended | confidence | as-written member | corrected member |
|---|---|---|---|---|---|---|
| segment-tree.py:35 | The tree gets `2 * len(arr) - 1` slots (`AsWrittenSize`), but the split at `(start + end) / 2` places nodes beyond that for some lengths that are not powers of two, such as 6, 10 to 14 and 18 to 30. Lengths 3, 5, 7 and 9 still fit, so the five-element demonstration builds normally. | `arr` of length 6: the node `[3, 4]` sits at slot 5, and its left leaf `[3, 3]` sits at slot 11, beyond the 11 slots 0 to 10. Writing it makes `_build_tree` raise `IndexError`. | A size that holds every visited slot: the padded `2 * 2^ceil(log2 n) - 1` that mulseg.py:38 computes. | not executed | SumSegTree.AsWrittenSizeTooSmall | Layout.TreeSizeFits |
