# cpp_course_s2 core, modelled in Dafny

This project models the logic of six small C++ course projects:

- **A 2-d tree point set.** An unbalanced kd-tree splits alternately on x and y. Each node keeps a bounding region. On top of the tree there are membership, range search pruned by region intersection, and branch-and-bound k-nearest search. It comes with the reference backend over an ordered set, and with the `Point` and `Rect` helpers both backends use.
- **The byte codec of the Cboe Binary Order Entry (BOE) protocol.** This covers little-endian fixed-width integers, NUL-padded text fields, the message header, the enum-to-character maps, base-36 identifiers and the response enum decoders.
- **A second-chance (clock) cache** of keys with a referenced flag each.
- **A fixed-slot pool allocator** with one free map per block and first-fit allocation.
- **Seam carving.** This covers the dynamic-programming minimum seam, the removal of a seam from a column-major pixel table, and the wrap-around index arithmetic of the image.
- **The `comm` line comparator.** This covers the parsing of the `-123` flag argument, the tab rule of the output, and the merge loop over two sorted line sequences, as in POSIX.1-2017, Shell and Utilities volume, chapter 4, "comm".

The modules are as follows:

- `Points`, `Rects`, `Cursor`, `Candidates`, `KdTree`, `RbTree` and `Backends` cover the point sets.
  - `Candidates` is the bounded priority queue of the nearest searches.
  - `Cursor` is the snapshot iterator both backends hand out.
  - `Backends` proves that the two backends agree.
- `Codec` and `Requests` cover BOE.
- `SecondChance` and `Pool` cover the cache and the allocator.
- `Images` and `SeamCarving` cover seam carving.
- `Comm` covers `comm`.
- `Arith`, `Seqs` and `Options` are shared helpers.

Code that updates state in place is modelled as classes and methods:

- the point sets and their iterators;
- the cache and the pool;
- the seam carver;
- the byte writers, which work on an `array` buffer.

Each method's contract ties its result or new state to a specification function. The specification functions carry the proved properties.

## Model

| member | source | states |
|---|---|---|
| Points.DistSq | 2d-tree-denx24x-master/src/point.cpp:11-14 | the squared distance is non-negative and zero exactly between equal points |
| Points.Eq | 2d-tree-denx24x-master/src/point.cpp:16-19 | `==` holds exactly at distance 0 |
| Points.NotEq | 2d-tree-denx24x-master/src/point.cpp:21-24 | `!=` holds exactly at positive distance |
| Points.Less | 2d-tree-denx24x-master/src/point.cpp:26-29 | `<` holds only between distinct points with the first no further right, and always when the first is strictly left |
| Points.LessEq | 2d-tree-denx24x-master/src/point.cpp:31-34 | `<=` holds iff the other point is not `<` this one |
| Points.Greater | 2d-tree-denx24x-master/src/point.cpp:36-39 | `>` is the converse of `<` |
| Points.GreaterEq | 2d-tree-denx24x-master/src/point.cpp:41-44 | `>=` is the converse of `<=` |
| Points.DistSqProperties | 2d-tree-denx24x-master/src/point.cpp:11-14 | the (squared) distance is non-negative, symmetric, and zero exactly between equal points |
| Points.EqIsIdentity | 2d-tree-denx24x-master/src/point.cpp:16-24 | `==` on points holds iff both coordinates agree, and `!=` is its negation |
| Points.LessIsStrictTotalOrder | 2d-tree-denx24x-master/src/point.cpp:26-29 | lexicographic `<` is irreflexive, transitive, asymmetric and total on distinct points, so it can key an ordered set |
| Points.DerivedOperators | 2d-tree-denx24x-master/src/point.cpp:31-44 | `>` is the converse of `<`, `>=` the converse of `<=`, and `<=` is "not above" |
| Rects.XMin | 2d-tree-denx24x-master/src/rect.cpp:12-15 | for a well-formed rectangle, the x of its left edge: that x is inside and the x one to the left is not |
| Rects.XMax | 2d-tree-denx24x-master/src/rect.cpp:17-20 | for a well-formed rectangle, the x of its right edge: that x is inside and the x one to the right is not |
| Rects.YMin | 2d-tree-denx24x-master/src/rect.cpp:22-25 | for a well-formed rectangle, the y of its bottom edge: that y is inside and the y one below is not |
| Rects.YMax | 2d-tree-denx24x-master/src/rect.cpp:27-30 | for a well-formed rectangle, the y of its top edge: that y is inside and the y one above is not |
| Rects.DistSq | 2d-tree-denx24x-master/src/rect.cpp:32-37 | the squared distance to the rectangle is non-negative, and for a well-formed rectangle it is 0 exactly for its points |
| Rects.Extended | 2d-tree-denx24x-master/src/kdtree.cpp:196-201 | the widened region holds the new point and everything the old region held, and it is the smallest rectangle that does |
| Rects.Contains | 2d-tree-denx24x-master/src/rect.cpp:39-42 | containment is inclusive on all four sides; only a well-formed rectangle contains anything |
| Rects.Intersects | 2d-tree-denx24x-master/src/rect.cpp:44-51 | the corner test; it can succeed only if one of the two rectangles is well formed |
| Rects.Offset | 2d-tree-denx24x-master/src/rect.cpp:32-37 | the clamped per-axis offset is non-negative, zero inside the interval, no larger than the gap to any point of the interval, and equal to the gap to the clamped point, so the least gap is attained |
| Rects.Clamp | 2d-tree-denx24x-master/src/rect.cpp:32-37 | the clamped coordinate lies in the interval and is the coordinate itself when that is inside |
| Rects.NearestIn | 2d-tree-denx24x-master/src/rect.cpp:32-37 | the clamped point lies in the rectangle and is the point itself when that is inside |
| Rects.DistSqIsAttained | 2d-tree-denx24x-master/src/rect.cpp:32-37 | the distance to the rectangle equals the distance to its clamped point, and no point of the rectangle is nearer |
| Rects.DistSqOfContained | 2d-tree-denx24x-master/src/rect.cpp:32-42 | the distance from a rectangle to a point it contains is 0 |
| Rects.DistSqIsLowerBound | 2d-tree-denx24x-master/src/rect.cpp:32-37 | the distance to a rectangle never exceeds the distance to any point inside it |
| Rects.AxisBound | 2d-tree-denx24x-master/src/rect.cpp:34-36 | per axis, the squared clamped offset is at most the squared coordinate difference to any point of the interval |
| Rects.OverlapsIsComplete | 2d-tree-denx24x-master/src/rect.cpp:39-42 | two rectangles that share a point overlap on both axes |
| Rects.IntersectsIsSound | 2d-tree-denx24x-master/src/rect.cpp:44-51 | when `intersects` holds on well-formed rectangles, they share a point |
| Rects.IntersectsMissesCross | 2d-tree-denx24x-master/src/rect.cpp:44-51 | a vertical segment and a square crossing it share (5, 5), yet `intersects` is false |
| Cursor.Iterator.Remaining | 2d-tree-denx24x-master/src/kdtree.cpp:232-246 | the points still to be yielded are the snapshot read from its back |
| Cursor.Iterator.constructor | 2d-tree-denx24x-master/include/kdtree.h:47 | the default iterator has an empty snapshot and yields nothing |
| Cursor.Iterator.FromSeq | 2d-tree-denx24x-master/src/kdtree.cpp:223-230 | the iterator owns the given vector and yields it in reverse |
| Cursor.Iterator.Deref | 2d-tree-denx24x-master/src/kdtree.cpp:232-235 | `*it` is the next point to be yielded, the back of the snapshot |
| Cursor.Iterator.Advance | 2d-tree-denx24x-master/src/kdtree.cpp:242-246 | `++it` drops exactly the point just yielded |
| Cursor.Iterator.PostAdvance | 2d-tree-denx24x-master/src/kdtree.cpp:248-253 | `it++` returns a fresh copy of the old iterator and advances this one |
| Cursor.Iterator.Equals | 2d-tree-denx24x-master/src/kdtree.cpp:255-261 | two iterators are equal when both are exhausted, or when neither is and their next points are equal |
| Cursor.Iterator.NotEquals | 2d-tree-denx24x-master/src/kdtree.cpp:263-266 | `!=`: exactly one iterator exhausted, or both not exhausted with different next points |
| Cursor.EqualsEndIffExhausted | 2d-tree-denx24x-master/src/kdtree.cpp:255-261 | comparing with the end iterator is true exactly when nothing is left |
| Candidates.PointsOf | 2d-tree-denx24x-master/src/kdtree.cpp:149-152 | the points of the queue entries, top first |
| Candidates.Offer | 2d-tree-denx24x-master/src/kdtree.cpp:110-116 | offering never takes a queue of at most k entries past k, and below k it adds exactly the new entry |
| Candidates.Push | 2d-tree-denx24x-master/src/kdtree.cpp:112 | `priority_queue::push` adds exactly one entry |
| Candidates.EntryOrder | 2d-tree-denx24x-master/src/kdtree.cpp:100 | the `pair<double, Point>` order is a strict total order |
| Candidates.PushKeepsHeap | 2d-tree-denx24x-master/src/kdtree.cpp:112 | pushing keeps the heap order, so the top is the farthest candidate |
| Candidates.KBestEmpty | 2d-tree-denx24x-master/src/kdtree.cpp:100 | the empty queue is k-best for no points seen |
| Candidates.HeapTopIsFarthest | 2d-tree-denx24x-master/src/kdtree.cpp:111 | no entry is farther than the top |
| Candidates.PushBelowTop | 2d-tree-denx24x-master/src/kdtree.cpp:112 | an entry below the top is pushed behind it |
| Candidates.OfferKeepsKBest | 2d-tree-denx24x-master/src/kdtree.cpp:110-116 | offering a point (push when there is room or it beats the top, pop on overflow) keeps the queue a k-best set of what was seen |
| Candidates.PushedEntries | 2d-tree-denx24x-master/src/kdtree.cpp:112 | a pushed queue holds correct distances of seen points, all distinct |
| Candidates.PushedPoints | 2d-tree-denx24x-master/src/kdtree.cpp:112 | a push adds exactly the new point to the queue's points |
| Candidates.OfferGrows | 2d-tree-denx24x-master/src/kdtree.cpp:111-112 | a queue with room takes the new point and stays k-best |
| Candidates.OfferReplacesTop | 2d-tree-denx24x-master/src/kdtree.cpp:111-115 | a full queue swaps its top for a strictly closer point and stays k-best |
| Candidates.PushedDistinct | 2d-tree-denx24x-master/src/kdtree.cpp:112 | pushing an absent point keeps the points distinct |
| Candidates.HeadAndTail | 2d-tree-denx24x-master/src/kdtree.cpp:114 | popping removes exactly the top's point |
| Candidates.PruneKeepsKBest | 2d-tree-denx24x-master/src/kdtree.cpp:120-135 | skipping points all strictly farther than the top of a full queue keeps it k-best |
| Candidates.KBestGivesKNearest | 2d-tree-denx24x-master/src/kdtree.cpp:149-152 | the drained queue is a farthest-first list of k nearest points of the set |
| Candidates.KBestCount | 2d-tree-denx24x-master/src/kdtree.cpp:111-116 | a k-best queue holds min(k, n) distinct points of the n seen |
| Candidates.Drain | 2d-tree-denx24x-master/src/kdtree.cpp:149-152 | popping the queue dry appends its points top first |
| Candidates.ReversedKNearest | 2d-tree-denx24x-master/src/kdtree.cpp:153 | reversing a farthest-first answer gives the same k nearest points, nearest first |
| KdTree.Tree.Bounds | 2d-tree-denx24x-master/src/kdtree.cpp:20-39 | every point of a subtree lies in its region; left points are at or below the split, right points above |
| KdTree.Tree.DisjointChildren | 2d-tree-denx24x-master/src/kdtree.cpp:20-39 | the children hold disjoint point sets, neither holding the node's point |
| KdTree.Tree.Compare | 2d-tree-denx24x-master/src/kdtree.cpp:203-208 | `compare` is -1, 0 or 1; it is non-negative iff the point is at or below the node on the node's axis |
| KdTree.Tree.Put | 2d-tree-denx24x-master/src/kdtree.cpp:20-39 | insertion keeps the tree valid, adds exactly the point, keeps the node's point and axis, and widens the region |
| KdTree.Tree.PutLeft | 2d-tree-denx24x-master/src/kdtree.cpp:23-30 | the left branch of put, with the same guarantees |
| KdTree.Tree.PutRight | 2d-tree-denx24x-master/src/kdtree.cpp:31-38 | the right branch of put, with the same guarantees |
| KdTree.Tree.Contains | 2d-tree-denx24x-master/src/kdtree.cpp:62-76 | following the split rule of put finds a point iff it is stored |
| KdTree.Tree.FindInRect | 2d-tree-denx24x-master/src/kdtree.cpp:78-93 | the search through `intersects` returns only stored points inside the rectangle, each once |
| KdTree.Tree.FindInRectExact | 2d-tree-denx24x-master/src/kdtree.cpp:78-93 | with an exact overlap test the search returns exactly the stored points inside the rectangle, each once |
| KdTree.Tree.Dfs | 2d-tree-denx24x-master/src/kdtree.cpp:181-194 | the walk lists every stored point exactly once |
| KdTree.Tree.Nearest | 2d-tree-denx24x-master/src/kdtree.cpp:108-137 | the branch-and-bound search leaves the queue k-best for everything seen plus the subtree |
| KdTree.Tree.NearestIfCloser | 2d-tree-denx24x-master/src/kdtree.cpp:120-135 | the guarded descent into a child keeps the queue k-best, whether it searches or skips the child |
| KdTree.NewNode | 2d-tree-denx24x-master/include/kdtree.h:30-33 | a new node holds only its point, with the given axis and the degenerate region (val, val) |
| KdTree.Join | 2d-tree-denx24x-master/src/kdtree.cpp:20-39 | a node over valid children inside its region is valid and holds their points and its own |
| KdTree.PutInto | 2d-tree-denx24x-master/src/kdtree.cpp:24-37 | putting into a child (or making a new one, with the flipped axis) keeps it valid and inside the parent's widened region |
| KdTree.InsideContains | 2d-tree-denx24x-master/src/kdtree.cpp:196-201 | a region inside another holds fewer points |
| KdTree.InsideExtended | 2d-tree-denx24x-master/src/kdtree.cpp:22 | widening the parent region keeps a child region inside it |
| KdTree.ExtendedWithin | 2d-tree-denx24x-master/src/kdtree.cpp:196-201 | widening a child's region by a point of the parent keeps it inside the parent |
| KdTree.PrunedChildMissesNothing | 2d-tree-denx24x-master/src/kdtree.cpp:84-91 | a child whose region does not overlap the rectangle holds no point inside it |
| KdTree.PointSet.constructor | 2d-tree-denx24x-master/src/kdtree.cpp:8-18 | the default (empty file name) constructor fails to open a file and leaves the set with no root and no points |
| KdTree.PointSet.Copy | 2d-tree-denx24x-master/src/kdtree.cpp:157-169 | the corrected copy holds the same tree and count |
| KdTree.PointSet.CopyAsWritten | 2d-tree-denx24x-master/src/kdtree.cpp:166-169 | the copy as written holds the same tree, but its count is 0 |
| KdTree.PointSet.Put | 2d-tree-denx24x-master/src/kdtree.cpp:41-52 | put adds the point; for a present point nothing changes, for an absent one the size grows by exactly 1 and the root becomes the tree put of the old root (a new root node for an empty set) |
| KdTree.PointSet.Contains | 2d-tree-denx24x-master/src/kdtree.cpp:54-60 | contains holds iff the point was put |
| KdTree.PointSet.Empty | 2d-tree-denx24x-master/src/kdtree.cpp:171-174 | the set is empty iff it holds no point |
| KdTree.PointSet.Size | 2d-tree-denx24x-master/src/kdtree.cpp:176-179 | the size is the number of distinct stored points |
| KdTree.PointSet.RangeAsWritten | 2d-tree-denx24x-master/src/kdtree.cpp:268-274 | range through `intersects` yields only stored points inside the rectangle, each once, paired with the end iterator; it yields exactly the reversed FindInRect result of the root |
| KdTree.PointSet.Range | 2d-tree-denx24x-master/src/kdtree.cpp:268-274 | range with the exact overlap test yields exactly the stored points inside the rectangle |
| KdTree.PointSet.Begin | 2d-tree-denx24x-master/src/kdtree.cpp:210-216 | iteration yields every stored point exactly once, in the reverse of the depth-first walk of the root |
| KdTree.PointSet.End | 2d-tree-denx24x-master/src/kdtree.cpp:218-221 | the end iterator is exhausted |
| KdTree.PointSet.Nearest | 2d-tree-denx24x-master/src/kdtree.cpp:95-106 | nearest is empty iff the set is, and otherwise returns a stored point no farther than any other |
| KdTree.PointSet.NearestKAsWritten | 2d-tree-denx24x-master/src/kdtree.cpp:139-155 | nearest(p, k) as written yields k nearest points (min(k, n), none closer left out), farthest first |
| KdTree.PointSet.NearestK | 2d-tree-denx24x-master/src/kdtree.cpp:139-155 | without the reversal the same points come nearest first |
| KdTree.PointSet.Search | 2d-tree-denx24x-master/src/kdtree.cpp:144-148 | the search from the root into an empty queue leaves it k-best for the whole set |
| KdTree.CopyLosesSize | 2d-tree-denx24x-master/src/kdtree.cpp:166-169 | a copy of a one-point set holds that point but reports size 0 |
| KdTree.CrossTree | 2d-tree-denx24x-master/src/kdtree.cpp:20-39 | the tree built by putting (0,0), (5,0), (5,10), (5,5) |
| KdTree.CrossFirst | 2d-tree-denx24x-master/src/kdtree.cpp:31-38 | (5, 0) goes right of the root |
| KdTree.CrossSecond | 2d-tree-denx24x-master/src/kdtree.cpp:31-38 | (5, 10) goes right, then right again |
| KdTree.CrossThird | 2d-tree-denx24x-master/src/kdtree.cpp:23-30 | (5, 5) goes right, right, then left on an x tie |
| KdTree.FindInRectMissesCross | 2d-tree-denx24x-master/src/kdtree.cpp:84-91 | in that tree FindInRect misses the stored point (5, 5) inside the query; the exact test finds it |
| KdTree.RangeMissesCross | 2d-tree-denx24x-master/src/kdtree.cpp:268-274 | putting (0,0), (5,0), (5,10), (5,5) and calling range as written on (4,4)-(6,6) misses the stored (5, 5); the corrected range finds it |
| KdTree.FarthestFirstPair | 2d-tree-denx24x-master/src/kdtree.cpp:153 | a two-point answer of nearest(p, 2) as written yields the farther point first |
| KdTree.OrderedPair | 2d-tree-denx24x-master/src/kdtree.cpp:153 | a farthest-first list of two points at different distances is determined |
| RbTree.SortedNoDup | 2d-tree-denx24x-master/src/rbtree.cpp:21-24 | an increasing sequence has no duplicates |
| RbTree.SortedReversed | 2d-tree-denx24x-master/src/rbtree.cpp:79-82 | reversing an increasing sequence gives a decreasing one |
| RbTree.LowerBound | 2d-tree-denx24x-master/src/rbtree.cpp:129 | `lower_bound`: everything before is below the key, nothing after is |
| RbTree.UpperBound | 2d-tree-denx24x-master/src/rbtree.cpp:128 | `upper_bound`: nothing before is above the key, everything after is |
| RbTree.FromHead | 2d-tree-denx24x-master/src/rbtree.cpp:129 | in an increasing sequence whose head is not below p, no element is |
| RbTree.AboveHead | 2d-tree-denx24x-master/src/rbtree.cpp:128 | in an increasing sequence whose head is above p, every element is |
| RbTree.Insert | 2d-tree-denx24x-master/src/rbtree.cpp:21-24 | set insertion keeps the order, adds exactly p, and ignores a duplicate |
| RbTree.AfterLowerBound | 2d-tree-denx24x-master/src/rbtree.cpp:26-29 | an absent point is below everything from its lower bound on |
| RbTree.InsertAt | 2d-tree-denx24x-master/src/rbtree.cpp:21-24 | placing p between the smaller and the larger elements keeps the order |
| RbTree.FirstNearest | 2d-tree-denx24x-master/src/rbtree.cpp:31-38 | `min_element` by distance: the first point at the least distance |
| RbTree.InRect | 2d-tree-denx24x-master/src/rbtree.cpp:129-133 | the filter keeps exactly the points inside the rectangle, in order |
| RbTree.AppendAbove | 2d-tree-denx24x-master/src/rbtree.cpp:131 | appending a larger point keeps the collected points increasing |
| RbTree.InRectStep | 2d-tree-denx24x-master/src/rbtree.cpp:129-133 | one more scan step appends the point iff the rectangle holds it |
| RbTree.ContainedIsBetween | 2d-tree-denx24x-master/src/rbtree.cpp:128-129 | a point inside the rectangle lies between its corners in point order |
| RbTree.ScanWindow | 2d-tree-denx24x-master/src/rbtree.cpp:128-129 | the scan window is well formed and holds every point inside the rectangle |
| RbTree.PointSet.constructor | 2d-tree-denx24x-master/src/rbtree.cpp:8-19 | the default (empty file name) constructor leaves the set empty |
| RbTree.PointSet.Put | 2d-tree-denx24x-master/src/rbtree.cpp:21-24 | put adds the point; a duplicate changes nothing |
| RbTree.PointSet.Contains | 2d-tree-denx24x-master/src/rbtree.cpp:26-29 | contains holds iff the point was put |
| RbTree.PointSet.Size | 2d-tree-denx24x-master/src/rbtree.cpp:65-68 | size counts the distinct points |
| RbTree.PointSet.Empty | 2d-tree-denx24x-master/src/rbtree.cpp:60-63 | empty holds iff there is no point, iff size is 0 |
| RbTree.PointSet.Nearest | 2d-tree-denx24x-master/src/rbtree.cpp:31-38 | nearest is empty iff the set is, and otherwise a stored point at least distance |
| RbTree.PointSet.NearestK | 2d-tree-denx24x-master/src/rbtree.cpp:40-58 | yields min(k, n) points with no closer point left out, nearest first |
| RbTree.PointSet.Range | 2d-tree-denx24x-master/src/rbtree.cpp:125-135 | yields exactly the stored points inside the rectangle; the vector is ascending |
| RbTree.PointSet.Begin | 2d-tree-denx24x-master/src/rbtree.cpp:79-82 | iteration yields every stored point once, from the largest down |
| RbTree.PointSet.End | 2d-tree-denx24x-master/src/rbtree.cpp:84-87 | the end iterator is exhausted |
| Backends.SameRange | 2d-tree-denx24x-master/src/kdtree.cpp:268-274 | on the same points, range on both backends yields the same points, as many |
| Backends.SameNearest | 2d-tree-denx24x-master/src/kdtree.cpp:95-106 | on the same points, nearest on both backends fails together or finds points at the same distance |
| Backends.SameNearestK | 2d-tree-denx24x-master/src/kdtree.cpp:139-155 | on the same points, nearest(p, k) yields as many points on both, with the same distance at every position |
| Backends.SameDistances | 2d-tree-denx24x-master/src/rbtree.cpp:40-58 | two nearest-first lists of k nearest points of one set have the same distances |
| Backends.NotCloser | 2d-tree-denx24x-master/src/rbtree.cpp:40-58 | the i-th of one such list is never strictly nearer than the i-th of the other |
| Codec.Pow256 | boe-order-execution-denx24x-master/include/codec.h:12-25 | powers of 256 are positive |
| Codec.LittleEndian | boe-order-execution-denx24x-master/include/codec.h:45-68 | the n low bytes, least significant first, has length n |
| Codec.Pows | boe-order-execution-denx24x-master/include/codec.h:14-24 | the shift widths 8, 16 and 32 are the powers of 256 used |
| Codec.DecodeU8 | boe-order-execution-denx24x-master/include/codec.h:7-10 | the byte read is the value of the one-byte field |
| Codec.DecodeU16 | boe-order-execution-denx24x-master/include/codec.h:12-15 | high byte shifted by 8 plus low byte is the little-endian value of the two bytes |
| Codec.DecodeU32 | boe-order-execution-denx24x-master/include/codec.h:17-20 | composing two 16-bit halves gives the little-endian value of four bytes |
| Codec.DecodeU64 | boe-order-execution-denx24x-master/include/codec.h:22-25 | composing two 32-bit halves gives the little-endian value of eight bytes |
| Codec.DecodeI64 | boe-order-execution-denx24x-master/include/codec.h:27-30 | the signed value agrees with the unsigned reading modulo 2^64 |
| Codec.DecodeStr | boe-order-execution-denx24x-master/include/codec.h:32-37 | the text is the field's bytes before the first NUL, at most n of them |
| Codec.UntilNul | boe-order-execution-denx24x-master/include/codec.h:35 | `std::find` of NUL: the prefix without NUL, stopped by a NUL or the end |
| Codec.EncodeU8 | boe-order-execution-denx24x-master/include/codec.h:39-43 | writes the byte, advances by 1, touches nothing else |
| Codec.EncodeU16 | boe-order-execution-denx24x-master/include/codec.h:45-50 | writes 2 little-endian bytes, advances by 2, touches nothing else |
| Codec.EncodeU32 | boe-order-execution-denx24x-master/include/codec.h:52-59 | writes 4 little-endian bytes, advances by 4, touches nothing else |
| Codec.EncodeI64 | boe-order-execution-denx24x-master/include/codec.h:61-68 | writes 8 bytes of two's complement little-endian, advances by 8 |
| Codec.Padded | boe-order-execution-denx24x-master/include/codec.h:70-82 | n bytes: the text's first min(len, n) bytes, then NUL |
| Codec.EncodeStr | boe-order-execution-denx24x-master/include/codec.h:70-82 | writes exactly the padded field, advances by n, touches nothing else |
| Codec.ValueOfLittleEndian | boe-order-execution-denx24x-master/include/codec.h:61-68 | writing v in n bytes keeps v modulo 256^n |
| Codec.LittleEndianAt | boe-order-execution-denx24x-master/include/codec.h:47-65 | byte j is v shifted right by 8j bits, masked to 8 bits |
| Codec.ValueSplit | boe-order-execution-denx24x-master/include/codec.h:14-24 | a little-endian value splits into low part plus 256^k times the high part |
| Codec.ReadBack | boe-order-execution-denx24x-master/include/codec.h:7-68 | the n-byte form of a value in range reads back as that value |
| Codec.RoundTripU8 | boe-order-execution-denx24x-master/include/codec.h:39-43 | decode_uint8 of encode(uint8 v) is v |
| Codec.RoundTripU16 | boe-order-execution-denx24x-master/include/codec.h:45-50 | decode_uint16 of encode(uint16 v) is v |
| Codec.RoundTripU32 | boe-order-execution-denx24x-master/include/codec.h:52-59 | decode_uint32 of encode(uint32 v) is v |
| Codec.RoundTripU64 | boe-order-execution-denx24x-master/include/codec.h:22-25 | decode_uint64 of the 8-byte little-endian form of v is v |
| Codec.RoundTripI64 | boe-order-execution-denx24x-master/include/codec.h:61-68 | decode_int64 of encode(int64 v) is v, negatives included |
| Codec.RoundTripStr | boe-order-execution-denx24x-master/include/codec.h:70-82 | decode_str of encode(str, n), for str without NUL, is str cut to n bytes |
| Requests.Header | boe-order-execution-denx24x-master/src/requests.cpp:30-38 | the header is 10 bytes |
| Requests.AddRequestHeader | boe-order-execution-denx24x-master/src/requests.cpp:30-38 | writes 0xBA 0xBA, the 16-bit length, the type byte, 0 and the 32-bit sequence number, and advances by exactly 10 |
| Requests.ParseHeader | boe-order-execution-denx24x-master/src/requests.cpp:30-38 | reading a header back gives the marker, the length modulo 2^16, the type code, 0 and the sequence number |
| Requests.NewOrderHeader | boe-order-execution-denx24x-master/src/requests.cpp:93-96 | a new-order message is 78 bytes and starts with the header for length 76 |
| Requests.NewOrderLength | boe-order-execution-denx24x-master/src/requests.cpp:21-28 | its length field reads 76 and its type byte 0x38 |
| Requests.ConvertsAreInjective | boe-order-execution-denx24x-master/src/requests.cpp:40-77 | each convert_* maps distinct values to distinct characters |
| Requests.EncodeRequestType | boe-order-execution-denx24x-master/src/requests.cpp:21-28 | each request type has a non-zero message type byte; New order is 0x38 |
| Requests.ConvertSide | boe-order-execution-denx24x-master/src/requests.cpp:40-47 | the side is rendered as '1' or '2' |
| Requests.ConvertOrdType | boe-order-execution-denx24x-master/src/requests.cpp:49-57 | the order type is rendered as '1', '2' or 'P' |
| Requests.ConvertTimeInForce | boe-order-execution-denx24x-master/src/requests.cpp:59-67 | the time in force is rendered as '0', '3' or '6' |
| Requests.ConvertCapacity | boe-order-execution-denx24x-master/src/requests.cpp:69-77 | the capacity is rendered as 'A', 'P' or 'R' |
| Requests.Base36Char | boe-order-execution-denx24x-master/src/requests.cpp:112-118 | 0..9 go to '0'..'9' and 10..35 to 'A'..'Z', each to the digit of its value |
| Requests.Base36 | boe-order-execution-denx24x-master/src/requests.cpp:120-130 | the rendering consists of base-36 digits |
| Requests.DecodeBase36 | boe-order-execution-denx24x-master/src/requests.cpp:120-130 | the loop plus reversal renders the decoded 64-bit ID in base 36, most significant digit first |
| Requests.Base36RoundTrip | boe-order-execution-denx24x-master/src/requests.cpp:120-130 | the rendering is empty iff the ID is 0, has no leading '0', and reads back as the ID |
| Requests.Base36Leading | boe-order-execution-denx24x-master/src/requests.cpp:120-130 | the rendering of a non-zero ID is non-empty and does not start with '0' |
| Requests.Base36ReadBack | boe-order-execution-denx24x-master/src/requests.cpp:120-130 | reading the rendering back gives the ID |
| Requests.DecodeLiquidityIndicator | boe-order-execution-denx24x-master/src/requests.cpp:137-145 | Added iff the byte is 'A', Removed otherwise |
| Requests.DecodeRestatementReason | boe-order-execution-denx24x-master/src/requests.cpp:165-181 | a known code decodes to its reason; every other byte gives Unknown |
| Requests.RestatementRoundTrip | boe-order-execution-denx24x-master/src/requests.cpp:165-181 | each known reason's code decodes back to it |
| SecondChance.Keys | second-chance-multi-type-denx24x-master/include/cache.h:60 | the keys of the queue, in queue order |
| SecondChance.Flagged | second-chance-multi-type-denx24x-master/include/cache.h:17 | the number of flagged entries is at most the queue length |
| SecondChance.FlaggedAppend | second-chance-multi-type-denx24x-master/include/cache.h:77-87 | flag counts add up over concatenation |
| SecondChance.Find | second-chance-multi-type-denx24x-master/include/cache.h:69-71 | `find_if`: the first entry holding the key, or the end |
| SecondChance.MarkHit | second-chance-multi-type-denx24x-master/include/cache.h:72-75 | a hit keeps the keys in place and sets the hit key's flag |
| SecondChance.EvictStep | second-chance-multi-type-denx24x-master/include/cache.h:78-86 | a step of the eviction loop removes the back entry when its flag is clear and keeps the length otherwise |
| SecondChance.Evict | second-chance-multi-type-denx24x-master/include/cache.h:77-87 | eviction leaves a queue of at most max size shorter than max size, and does nothing to a queue that is not full |
| SecondChance.EvictStepShrinks | second-chance-multi-type-denx24x-master/include/cache.h:77-87 | each pass of the eviction loop lowers length plus flag count, so the loop ends; a flagged back entry keeps the length, an unflagged one shortens it |
| SecondChance.EvictStepKeeps | second-chance-multi-type-denx24x-master/include/cache.h:78-86 | a pass only moves or drops keys and keeps them distinct |
| SecondChance.RotateKeeps | second-chance-multi-type-denx24x-master/include/cache.h:79-82 | moving the back entry to the front keeps the keys and their distinctness |
| SecondChance.DropBackKeeps | second-chance-multi-type-denx24x-master/include/cache.h:84-86 | dropping the back entry keeps the other keys distinct |
| SecondChance.Cache.constructor | second-chance-multi-type-denx24x-master/include/cache.h:32-36 | a new cache is empty with the given capacity |
| SecondChance.Cache.Size | second-chance-multi-type-denx24x-master/include/cache.h:38-41 | the size is the queue length |
| SecondChance.Cache.Empty | second-chance-multi-type-denx24x-master/include/cache.h:43-46 | empty iff the queue is |
| SecondChance.Cache.Get | second-chance-multi-type-denx24x-master/include/cache.h:64-91 | afterwards the key is cached; a hit only sets its flag, a miss evicts by second chance and puts the key in front, unflagged; the capacity and distinct keys are kept |
| SecondChance.Cache.Print | second-chance-multi-type-denx24x-master/include/cache.h:93-112 | `<empty>` plus newline for an empty cache, else the rendered entries plus newline |
| SecondChance.Rendered | second-chance-multi-type-denx24x-master/include/cache.h:98-106 | `(key flag)` entries separated by single spaces, so the text starts with '(' and ends with ')' |
| SecondChance.RenderEntry | second-chance-multi-type-denx24x-master/include/cache.h:105 | an entry renders as "(", the rendered key, then " 1)" or " 0)" by its flag |
| SecondChance.HitKeepsKeys | second-chance-multi-type-denx24x-master/include/cache.h:72-75 | a hit sets the found entry's flag and changes no other entry, key or position |
| SecondChance.MissKeeps | second-chance-multi-type-denx24x-master/include/cache.h:77-89 | after a miss the queue fits the capacity, has distinct keys and holds the new key |
| SecondChance.EvictKeeps | second-chance-multi-type-denx24x-master/include/cache.h:77-87 | below capacity nothing is evicted; at capacity exactly one entry goes; keys are only dropped |
| Pool.Sort | second-chance-multi-type-denx24x-master/src/pool.cpp:9-10 | `std::sort`: an ascending permutation of the sizes |
| Pool.InsertSorted | second-chance-multi-type-denx24x-master/src/pool.cpp:10 | insertion adds one element, placed at the front or after the head |
| Pool.InsertSortedSorted | second-chance-multi-type-denx24x-master/src/pool.cpp:10 | insertion keeps a sequence ascending |
| Pool.InsertSortedPerm | second-chance-multi-type-denx24x-master/src/pool.cpp:10 | insertion adds exactly the element to the multiset |
| Pool.LowerBound | second-chance-multi-type-denx24x-master/src/pool.cpp:18 | `lower_bound`: every size before is below n, the one at the index is not |
| Pool.FreeSlot | second-chance-multi-type-denx24x-master/src/pool.cpp:21 | `find(true)`: the first free slot, or the number of slots |
| Pool.FirstFit | second-chance-multi-type-denx24x-master/src/pool.cpp:19-26 | a found block has slot size n and a free slot |
| Pool.PoolAllocator.StorageSize | second-chance-multi-type-denx24x-master/src/pool.cpp:6 | the storage is empty exactly when the block size is 0 or there are no sizes |
| Pool.PoolAllocator.Offset | second-chance-multi-type-denx24x-master/src/pool.cpp:24 | a slot's byte range lies inside its block and the storage, and its offset names the block and the slot again |
| Pool.PoolAllocator.constructor | second-chance-multi-type-denx24x-master/src/pool.cpp:3-14 | sizes are a sorted permutation of the given ones; block i has block_size / sizes[i] slots, all free; a block size of 0 gives blocks without slots |
| Pool.PoolAllocator.Allocate | second-chance-multi-type-denx24x-master/src/pool.cpp:16-28 | from the lower bound, the first block of size n with a free slot gives offset i*block_size + pos*sizes[i] and marks it used; otherwise it fails and changes nothing |
| Pool.PoolAllocator.BlockOf | second-chance-multi-type-denx24x-master/src/pool.cpp:37 | an offset in the storage falls in an existing block |
| Pool.PoolAllocator.SlotOf | second-chance-multi-type-denx24x-master/src/pool.cpp:38 | an offset in the storage lies in the byte range of the slot computed for it |
| Pool.PoolAllocator.Deallocate | second-chance-multi-type-denx24x-master/src/pool.cpp:30-40 | on a non-empty storage, an offset inside the storage frees its slot and nothing else; any other changes nothing |
| Pool.SortKeepsPositive | second-chance-multi-type-denx24x-master/src/pool.cpp:10 | sorting keeps every size positive |
| Pool.FirstFitIsFirst | second-chance-multi-type-denx24x-master/src/pool.cpp:18-27 | allocation fails iff no block of size n has a free slot; otherwise it finds the first such block |
| Pool.NoSlotsNoFit | second-chance-multi-type-denx24x-master/src/pool.cpp:11-27 | when no block has a slot, as with block size 0, first fit finds nothing and every allocation fails |
| Pool.SlotInBlock | second-chance-multi-type-denx24x-master/src/pool.cpp:12-24 | an allocated range [off, off + size) lies inside its block |
| Pool.OffsetRoundTrip | second-chance-multi-type-denx24x-master/src/pool.cpp:36-38 | deallocating an allocated offset recomputes its block and slot |
| Pool.SlotsDisjoint | second-chance-multi-type-denx24x-master/src/pool.cpp:21-24 | distinct slots occupy disjoint byte ranges |
| Images.Pixel.Difference | seam-carving-denx24x-master/src/Image.cpp:10-13 | the component-wise absolute difference is non-negative and zero exactly against an equal pixel |
| Images.Pixel.DifferenceSymmetric | seam-carving-denx24x-master/src/Image.cpp:10-13 | the difference does not depend on the order |
| Images.Pixel.SumOfSquares | seam-carving-denx24x-master/src/Image.cpp:22-25 | r² + g² + b² is non-negative and zero only for black |
| Images.Normalize | seam-carving-denx24x-master/src/Image.cpp:27-35 | the normalised index (n + c) mod n in size_t arithmetic is below n |
| Images.NormalizeNoWrap | seam-carving-denx24x-master/src/Image.cpp:27-30 | without overflow the normalised index is c mod n: c itself for c < n, 0 for c = n |
| Images.NormalizeMinusOne | seam-carving-denx24x-master/src/Image.cpp:27-30 | the wrapped -1 normalises to n - 1 |
| Images.NextNeighbour | seam-carving-denx24x-master/src/SeamCarver.cpp:48-49 | the index one further wraps round to 0 at the end |
| Images.PreviousNeighbour | seam-carving-denx24x-master/src/SeamCarver.cpp:48-49 | the index one back wraps round to the last index from 0 |
| Images.Image.ColumnIdNormalized | seam-carving-denx24x-master/src/Image.cpp:27-30 | the normalised column is a valid column |
| Images.Image.RowIdNormalized | seam-carving-denx24x-master/src/Image.cpp:32-35 | the normalised row is a valid row |
| Images.Image.GetPixel | seam-carving-denx24x-master/src/Image.cpp:37-40 | the pixel returned is one of the given column's pixels |
| Images.Image.Width | seam-carving-denx24x-master/src/Image.cpp:42-45 | the width is 0 exactly for an image with no columns |
| Images.Image.Height | seam-carving-denx24x-master/src/Image.cpp:47-50 | the height is the length of the first column, 0 for an image with no columns |
| SeamCarving.SeamCarver.GetImage | seam-carving-denx24x-master/src/SeamCarver.cpp:31-34 | the image returned is the carver's own image |
| SeamCarving.SeamCarver.GetImageWidth | seam-carving-denx24x-master/src/SeamCarver.cpp:36-39 | the width is the number of columns of the image being carved |
| SeamCarving.SeamCarver.GetImageHeight | seam-carving-denx24x-master/src/SeamCarver.cpp:41-44 | the length of the first column, 0 for an image with no columns; for a rectangular image every column has that height |
| SeamCarving.Blank | seam-carving-denx24x-master/src/SeamCarver.cpp:6-19 | a new energy map has w columns of h zeros; its height is 0 without columns |
| SeamCarving.EnergyMap.Width | seam-carving-denx24x-master/src/SeamCarver.cpp:11-14 | the width is 0 exactly for a map without columns |
| SeamCarving.EnergyMap.Height | seam-carving-denx24x-master/src/SeamCarver.cpp:16-19 | the height is the first column's length, or 0 without columns |
| SeamCarving.EnergyMap.Get | seam-carving-denx24x-master/src/SeamCarver.cpp:21-24 | the energy returned is one of the given column's energies |
| SeamCarving.Costs | seam-carving-denx24x-master/src/SeamCarver.cpp:79-90 | the energies in search order, transposed for vertical seams |
| SeamCarving.Lo | seam-carving-denx24x-master/src/SeamCarver.cpp:88 | the window starts at g - 1, or at 0 |
| SeamCarving.Hi | seam-carving-denx24x-master/src/SeamCarver.cpp:88 | the window ends at g + 1, or at the last choice |
| SeamCarving.ArgMin | seam-carving-denx24x-master/src/SeamCarver.cpp:88-89 | `min_element` returns an index in the window |
| SeamCarving.ArgMinIsFirstLeast | seam-carving-denx24x-master/src/SeamCarver.cpp:88 | it is the first index holding the least value, so ties go to the smallest index |
| SeamCarving.Relax | seam-carving-denx24x-master/src/SeamCarver.cpp:87-91 | a relaxed row is as long as the energies |
| SeamCarving.TableExtends | seam-carving-denx24x-master/src/SeamCarver.cpp:86-92 | a table grows by the row relaxed from its last one |
| SeamCarving.Table | seam-carving-denx24x-master/src/SeamCarver.cpp:83-92 | the first n rows of the table form a table |
| SeamCarving.Choice | seam-carving-denx24x-master/src/SeamCarver.cpp:89 | the recorded choice is next to g |
| SeamCarving.TableEntry | seam-carving-denx24x-master/src/SeamCarver.cpp:90 | each entry is its recorded choice's entry plus its own energy |
| SeamCarving.Trace | seam-carving-denx24x-master/src/SeamCarver.cpp:95-100 | following choices back gives one valid choice per step, ending at g |
| SeamCarving.TraceStep | seam-carving-denx24x-master/src/SeamCarver.cpp:97-98 | a trace is the trace from the recorded choice plus g |
| SeamCarving.TraceStepBack | seam-carving-denx24x-master/src/SeamCarver.cpp:97-98 | a trace is its first i choices plus its last |
| SeamCarving.Carve | seam-carving-denx24x-master/src/SeamCarver.cpp:94-101 | the seam has one valid choice per step |
| SeamCarving.ExtendPath | seam-carving-denx24x-master/src/SeamCarver.cpp:88 | a path extended next to its end is a path |
| SeamCarving.TraceIsPath | seam-carving-denx24x-master/src/SeamCarver.cpp:88-99 | the followed-back choices are connected: neighbours differ by at most 1 |
| SeamCarving.PathCostSnoc | seam-carving-denx24x-master/src/SeamCarver.cpp:90 | one more choice adds its energy |
| SeamCarving.TraceCost | seam-carving-denx24x-master/src/SeamCarver.cpp:83-99 | the path followed back costs exactly its table entry |
| SeamCarving.DpIsLeast | seam-carving-denx24x-master/src/SeamCarver.cpp:83-92 | dp[i][g] is at most the cost of any connected path ending at (i, g) |
| SeamCarving.BestTraceIsOptimal | seam-carving-denx24x-master/src/SeamCarver.cpp:94-99 | the path followed back from the cheapest last entry is a least-energy seam |
| SeamCarving.CarveIsOptimal | seam-carving-denx24x-master/src/SeamCarver.cpp:74-102 | the carved seam is connected and no seam has less total energy |
| SeamCarving.TraceFollowsChoice | seam-carving-denx24x-master/src/SeamCarver.cpp:97 | each choice of a trace is the one recorded for the next |
| SeamCarving.BestTraceTies | seam-carving-denx24x-master/src/SeamCarver.cpp:88-94 | every step of the traced seam is the first least entry of its window |
| SeamCarving.CarveTies | seam-carving-denx24x-master/src/SeamCarver.cpp:88-94 | ties go to the smallest index: the seam ends at the first cheapest entry and each step is a first minimum |
| SeamCarving.TablePrefix | seam-carving-denx24x-master/src/SeamCarver.cpp:86-92 | the first rows of a table form a table |
| SeamCarving.TableUnique | seam-carving-denx24x-master/src/SeamCarver.cpp:83-92 | the energies determine the table |
| SeamCarving.WithoutRows | seam-carving-denx24x-master/src/SeamCarver.cpp:106-108 | erasing row seam[i] from each column i keeps the column count |
| SeamCarving.WithoutColumns | seam-carving-denx24x-master/src/SeamCarver.cpp:116-123 | removing a column per row leaves one column fewer |
| SeamCarving.Row | seam-carving-denx24x-master/src/SeamCarver.cpp:116-119 | the pixels of row r, one per column |
| SeamCarving.WithoutRowsShape | seam-carving-denx24x-master/src/SeamCarver.cpp:104-112 | removing a horizontal seam leaves a rectangular table one row shorter, as wide |
| SeamCarving.WithoutColumnsRows | seam-carving-denx24x-master/src/SeamCarver.cpp:114-124 | in each row, columns before seam[r] keep their pixel, later ones take the pixel to their right |
| SeamCarving.FirstRow | seam-carving-denx24x-master/src/SeamCarver.cpp:83-85 | the first table row is the first step's energies |
| SeamCarving.NextRow | seam-carving-denx24x-master/src/SeamCarver.cpp:87-91 | a row of the table is the relaxation of the row before, and its choices are the min_element indices |
| SeamCarving.RecordsExtend | seam-carving-denx24x-master/src/SeamCarver.cpp:89 | a new row with its choices keeps path recording every choice |
| SeamCarving.FillTable | seam-carving-denx24x-master/src/SeamCarver.cpp:81-92 | the nested loops fill the whole table, and path records every choice |
| SeamCarving.FollowBack | seam-carving-denx24x-master/src/SeamCarver.cpp:94-101 | the backtracking and reversal give the trace from the first cheapest last entry |
| SeamCarving.SeamCarver.constructor | seam-carving-denx24x-master/src/SeamCarver.cpp:26-29 | the carver holds the given image |
| SeamCarving.SeamCarver.FindSeam | seam-carving-denx24x-master/src/SeamCarver.cpp:74-102 | an empty image gives an empty seam; otherwise the seam is the carved least-energy seam |
| SeamCarving.SeamCarver.FindHorizontalSeam | seam-carving-denx24x-master/src/SeamCarver.cpp:53-56 | one row per column, connected, of least total energy; empty for an empty image |
| SeamCarving.SeamCarver.FindVerticalSeam | seam-carving-denx24x-master/src/SeamCarver.cpp:58-61 | one column per row, connected, of least total energy; empty for an empty image |
| SeamCarving.SeamCarver.RemoveHorizontalSeam | seam-carving-denx24x-master/src/SeamCarver.cpp:104-112 | every column i loses its pixel at row seam[i]; the table is cleared when no row is left |
| SeamCarving.SeamCarver.RemoveVerticalSeam | seam-carving-denx24x-master/src/SeamCarver.cpp:114-124 | every row loses its pixel at column seam[r], the later ones shifting left; width drops by one |
| SeamCarving.ShiftingStart | seam-carving-denx24x-master/src/SeamCarver.cpp:117 | the inner loop starts with nothing of its row moved |
| SeamCarving.ShiftStep | seam-carving-denx24x-master/src/SeamCarver.cpp:118 | one copy shifts the row one column further |
| SeamCarving.ShiftingRowDone | seam-carving-denx24x-master/src/SeamCarver.cpp:116-119 | at the last column the row is fully shifted |
| SeamCarving.ShiftingDone | seam-carving-denx24x-master/src/SeamCarver.cpp:121-123 | with every row shifted, dropping the last column gives the table without the seam |
| Comm.Column.Index | comm-denx24x-master/src/main.cpp:10-15 | the three columns index the flag array |
| Comm.ColumnOf | comm-denx24x-master/src/main.cpp:26-28 | flag digit d names the column at index d - 1 |
| Comm.FlagFilter.ShownBefore | comm-denx24x-master/src/main.cpp:54-58 | the number of shown columns before k is at most k |
| Comm.FlagFilter.Write | comm-denx24x-master/src/main.cpp:51-61 | nothing for a suppressed column; otherwise a tab per shown earlier column, the line and a newline |
| Comm.Tabs | comm-denx24x-master/src/main.cpp:56 | n tab characters |
| Comm.DefaultShowsAll | comm-denx24x-master/src/main.cpp:17 | the default filter suppresses nothing, and column k + 1 gets k tabs |
| Comm.ShownColumnsApart | comm-denx24x-master/src/main.cpp:54-58 | shown columns get strictly increasing indentation |
| Comm.ParseFlags | comm-denx24x-master/src/main.cpp:19-34 | wrong length or no '-' gives "wrong flag format"; a character outside '1'..'3' gives "wrong flag value"; an argument of 2 to 4 characters, '-' then digits '1'..'3', is accepted (iff); flag k is set iff digit k + 1 occurs |
| Comm.Below | comm-denx24x-master/src/main.cpp:71-76 | string `<`: a line below another differs from it and the other is not empty |
| Comm.BelowIrreflexive | comm-denx24x-master/src/main.cpp:71 | no line is below itself under string `<` |
| Comm.BelowTransitive | comm-denx24x-master/src/main.cpp:71 | string `<` is transitive |
| Comm.BelowTotal | comm-denx24x-master/src/main.cpp:81 | of two different lines one is below the other |
| Comm.FromAppend | comm-denx24x-master/src/main.cpp:66-95 | the lines of each input reported split over concatenation |
| Comm.FromFirsts | comm-denx24x-master/src/main.cpp:86 | column-1 records report first-input lines only |
| Comm.FromSeconds | comm-denx24x-master/src/main.cpp:92-94 | column-2 records report second-input lines only |
| Comm.MergeKeepsLines | comm-denx24x-master/src/main.cpp:66-95 | the reference comparison reports every line of each input exactly once, in order |
| Comm.AscendingFromHead | comm-denx24x-master/src/main.cpp:71 | a line of a sorted input is its head or above it |
| Comm.NotInAscending | comm-denx24x-master/src/main.cpp:76 | a line below the head of a sorted input is not in it |
| Comm.MergeClassifies | comm-denx24x-master/src/main.cpp:66-95 | on sorted inputs column 1 holds lines only in the first, column 2 lines only in the second, column 3 lines in both |
| Comm.LaterLines | comm-denx24x-master/src/main.cpp:81-84 | after equal heads the later lines keep their columns |
| Comm.InTailAbove | comm-denx24x-master/src/main.cpp:71 | a line of a sorted input's tail is above its head |
| Comm.Inner | comm-denx24x-master/src/main.cpp:74-80 | the inner loop reads no further than the input and writes only to column 2 |
| Comm.Run | comm-denx24x-master/src/main.cpp:66-95 | each remaining line of the first input yields at least one record |
| Comm.AfterInner | comm-denx24x-master/src/main.cpp:81-87 | the first record after the inner loop is the current first-input line, in column 1 or 3, never column 2 |
| Comm.Output | comm-denx24x-master/src/main.cpp:66-95 | the output has at least one record per line of the first input |
| Comm.RunKeepsFirstLines | comm-denx24x-master/src/main.cpp:70-88 | each pass reports its first line exactly once, in column 1 or 3; all else is column 2 |
| Comm.OutputKeepsFirstLines | comm-denx24x-master/src/main.cpp:70-88 | the program reports every first-input line once, in order, in column 1 or 3 |
| Comm.ExtraSecondLine | comm-denx24x-master/src/main.cpp:71-73 | for inputs (a, c) and (b) the program adds a column-2 empty line that the reference does not |
| Comm.StaleMatch | comm-denx24x-master/src/main.cpp:81-84 | for inputs ("", "") and ("") both empty lines go to column 3; the reference puts the second in column 1 |
| Comm.DoComm | comm-denx24x-master/src/main.cpp:66-95 | the loop as written produces exactly the records of its recursive description |
| Comm.PassStep | comm-denx24x-master/src/main.cpp:70-88 | one pass of the outer loop: pending line, inner reads, then the first line |
| Comm.ReadBelow | comm-denx24x-master/src/main.cpp:74-80 | the inner loop does what its recursive description says |
| Comm.ReadStep | comm-denx24x-master/src/main.cpp:75-79 | a read line below the first line is written at once, otherwise it becomes pending |
| Comm.WriteRest | comm-denx24x-master/src/main.cpp:89-94 | a pending line, then every unread second line, go to column 2 in order |
| Comm.DoCommCorrected | comm-denx24x-master/src/main.cpp:66-95 | with both defects corrected the loop produces exactly the reference comparison |
| Comm.WriteHeld | comm-denx24x-master/src/main.cpp:71-73 | a pending line below the first line goes to column 2 and is no longer pending |
| Comm.ReadBelowCorrected | comm-denx24x-master/src/main.cpp:74-80 | the inner loop stops with a pending line not below the first line, or with nothing left |
| Comm.ReadCorrected | comm-denx24x-master/src/main.cpp:75-79 | one read follows the reference comparison |
| Comm.FinishPass | comm-denx24x-master/src/main.cpp:81-87 | the first line goes to column 3 iff it equals the pending line, else to column 1 |
| Comm.FirstsCons | comm-denx24x-master/src/main.cpp:86 | once the second input is done, first lines go to column 1 one by one |
| Comm.SecondsHeld | comm-denx24x-master/src/main.cpp:89-94 | the pending line and the rest, in column 2 |

## Left out

- Floating point: coordinates are `int`, point equality is exact instead of within epsilon, and distances are compared as squares. `sqrt` is monotone, so the order of distances is the same.
- Point, rect and iterator `operator<<`, the reading of points from a file in the PointSet constructors (only the path where no file opens is modelled) and `2d-tree-denx24x-master/src/main.cpp` are I/O and are not part of this model.
- KdTree.Tree.Put: requires the point to be absent. PointSet::put only calls Node::put after `contains` has failed.
- KdTree nodes are values. The owned `unique_ptr` children are exclusively owned, so the in-place update and the deep copy of Node's copy constructor are not modelled as pointer structures.
- RbTree.PointSet.Range: requires the lower-left corner to be at most the upper-right one in point order; otherwise `std::set` is handed an invalid iterator range.
- `std::set` and `std::priority_queue` are modelled as a sorted sequence and as a sequence in heap order.
- SecondChance.Cache.Get: requires a positive capacity. With capacity 0, `pop_back` runs on an empty list.
- The typed `get<T>`, `static_cast` and `AllocatorWithPool` machinery of the cache is not modelled; the cache holds keys only.
- SecondChance.Cache.Print: takes a function rendering keys, standing in for the keys' `operator<<`.
- Pool.PoolAllocator.constructor: requires positive sizes, since a zero size divides by zero. A block size of 0 and an empty size list are accepted; they give an empty storage.
- Pool.PoolAllocator.Deallocate: requires an offset inside the storage to name a slot of its block. An offset in a block's unused tail would index past its free map. It also requires a non-empty storage, because `m_storage.back()` on an empty storage is undefined.
- The pool's storage is not modelled as raw bytes; addresses are offsets.
- `encode_new_order_opt_fields`, `decode_order_execution`, `decode_order_restatement`, `request_optional_fields_for_message` and the body of `create_new_order_request` after the header are built from macro include files. Those files are not part of this model.
- `decode_binary_price` is floating point and is not modelled.
- Requests.Base36Char: requires a digit value 0..35, the only values `decode_base36` passes.
- `GetPixelEnergy` and `CalculateEnergyMap` compute `sqrt` energies and are not modelled. The energy map is a parameter of the seam search, with `real` energies.
- SeamCarving.SeamCarver.FindSeam: requires the energy map to have the image's size, as `CalculateEnergyMap` makes it.
- SeamCarving.SeamCarver.RemoveVerticalSeam: does not model a seam entry of 2^64 - 1, for which `seam[i] + 1` wraps to 0.
- Images.Pixel.SumOfSquares: uses unbounded integers; `int` overflow of large components is not modelled.
- Images.NextNeighbour: requires fewer than 2^63 columns or rows. Near 2^64 the size_t sum in the normalisation wraps.
- Images.PreviousNeighbour: requires fewer than 2^63 columns or rows, for the same reason.
- Comm: the input streams are sequences of lines. A read at the end of a stream leaves `second` at a value `stale`, which is an assumption about `std::getline`: it is empty when the second file is empty or ends with a newline and is its last line otherwise. The model takes `stale` as a free parameter and does not tie it to the second file, so it also covers values `std::getline` cannot leave (an over-approximation; in particular an empty second file leaves `second` empty). `OpenFile`, `DeleteStream` and `main` are I/O and are not modelled.
- Comm.DoComm: produces the records that the program passes to `Write` rather than the text itself. `Comm.FlagFilter.Write` gives the text of each record.

## Findings

| source | as written | input that shows it | evidently intended | confidence | as-written member | corrected member |
|---|---|---|---|---|---|---|
| 2d-tree-denx24x-master/src/kdtree.cpp:166-169 | the copy constructor copies the tree but not `m_size`, so the copy's `size()` is 0 | a set holding (0, 0), copied | the copy reports the same size | not executed | KdTree.CopyLosesSize | KdTree.PointSet.Copy |
| 2d-tree-denx24x-master/src/kdtree.cpp:149-154 | the drained queue (farthest first) is reversed, and the iterator yields from the back, so nearest(p, k) is iterated farthest first | points (0, 0) and (3, 0), nearest((0, 0), 2): (3, 0) comes first | nearest first, as the ordered-set backend yields | not executed | KdTree.PointSet.NearestKAsWritten | KdTree.PointSet.NearestK |
| 2d-tree-denx24x-master/src/rect.cpp:44-51 | `intersects` tests only corners, so FindInRect prunes a region that crosses the query without a corner inside it | put (0,0), (5,0), (5,10), (5,5); range of (4,4)-(6,6) misses (5, 5) | every stored point inside the query is found | not executed | KdTree.RangeMissesCross | KdTree.PointSet.Range |
| comm-denx24x-master/src/main.cpp:71-73 | a pending line written before the inner loop stays pending, so after the second input ends the stale value is written to column 2 once more | first input a, c; second input b ending with a newline: an extra empty column-2 line | the written line is no longer pending | not executed | Comm.ExtraSecondLine | Comm.DoCommCorrected |
| comm-denx24x-master/src/main.cpp:81-84 | the first line is compared with `second` even when no second line is pending, so it can match a line already used or the stale value | first input two empty lines, second input one: both reported as common | a line is common only against a pending equal line | not executed | Comm.StaleMatch | Comm.DoCommCorrected |
