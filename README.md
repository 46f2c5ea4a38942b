# Fully dynamic connectivity: Euler tour forests and the level decomposition

This project models, in Dafny, the core of `dgraph`, a fully dynamic
connectivity structure after Holm, de Lichtenberg and Thorup. It proves
properties of the model.

- **EulerTourForest.java.** A spanning forest kept as Euler tours. Each tour
  is stored in a splay tree of `Entry` nodes (occurrences of vertices). The
  tree maintains the aggregates `size` and `good`: some occurrence below has
  active edges.
  - `makeRoot`, `expand`, `link` and `cut` rearrange tours.
  - `isConnected`, `isConnected()` and `size` read them.
  - `incrementEdges`, `decrementEdges` and `changeEdges` update the
    active-edge counters.
  - `ETFIterator` yields the vertices whose counter is positive.
  - `TreeEdge` holds the two occurrences that stand for a tree edge.
- **DynamicGraph.java.** `⌈log₂ n⌉ + 1` levels, each with a forest and one
  adjacency list (a sentinel `LinkedList`) per vertex.
  - `add` puts a new edge at the top level. It becomes a tree edge when its
    ends were not connected.
  - `remove` of a tree edge cuts it from every forest it is in. It then looks
    level by level for a non-tree edge that reconnects the two sides. Every
    edge it looks at and does not use moves down a level (`downgrade`).
  - `isConnected` asks the top forest.
- **Main.cpp, `Entry` and `Tree`.** An order-statistics splay tree of
  distinct keys: `add`, `remove`, `size`, `kth` and `contains`.

The splay trees are values: a `Tree` datatype, plus a `Cursor`, which is a
subtree and the path of frames up to the root. The path stands in for the
`parent` pointers. The pointer walks (`splay`, `rightmost`, `leftmost`,
`succ`, `findRoot`, `repairEdgesNumber`, the iterator's `findNext`, `kth`)
are `while` loops over cursors.

Every tree operation is proved against the in-order sequence of the tree:
`Seq` for tours, `Items` for the key tree. The sequence is unchanged by
`rotate` and `splay`, concatenated by `merge`, cut in two by `split`, and
loses exactly one element in `remove`.

`EulerTourForest` and `DynamicGraph` are classes whose methods update their
fields in place. `EulerTourForest` keeps the trees of its tours in a
sequence, and an occurrence (an `Entry` object) is known by an identity.
Its ghost state records, for each occurrence, its vertex, its mate and the
tree-edge handles. `Sound` states that every tree is the Euler tour of a
tree whose edges are the forest's tree edges. The lemmas of `EulerTour` and
`ForestTheory` prove what the queries read from that: two vertices are in
the same splay tree exactly when the tree edges connect them, and a tour of
`c` vertices has `2c - 2` occurrences.

`DynamicGraph` keeps, per level, the tree edges of that level's forest (a
`Level` value). `LevelForests` proves that an `EulerTourForest` answers
`link`, `cut`, `isConnected`, `size` and `iterator` as the `Level` says.
The graph's invariant (`Levels.Good`, `Handles.Inv`, `GraphState.State`)
says four things:
- every level is a forest (each tree edge is a bridge of it);
- the tree edges of a level are tree edges of every level above;
- a record holds one tree-edge handle per level from its own up to the top;
- each edge sits in the lists of both of its ends at its level.

Two details of the code differ from the usual description of the level scheme; the model follows the code:
- `downgrade` appends the moved edge at the end of the lists of the lower
  level (`LinkedList.add` inserts before the sentinel). It does not move a
  tree edge to the front of the lists.
- `isConnected()` returns `false` on a graph of one vertex (see Findings), and so does the graph's `isConnected()`. The graph's `isConnected(v, u)` is `true` for any `v` and `u`, even out of range, once the graph is connected.

## Model

| member | source | states |
|---|---|---|
| TourTree.Recalc | java/src/main/java/ctlab/dgraph/EulerTourForest.java:398-409 | the node's tour is the left tour, its entry, then the right tour; with valid children the recomputed `size` and `good` make the node valid |
| TourTree.AggregatesMeaning | java/src/main/java/ctlab/dgraph/EulerTourForest.java:398-409 | in a valid tree `size` is the number of occurrences, and `good` holds iff some occurrence has a positive counter |
| TourTree.Rotate | java/src/main/java/ctlab/dgraph/EulerTourForest.java:270-301 | the left (right) child takes the node's place; the tour, `size` and `good` are unchanged and validity is kept |
| TourTree.FindRoot | java/src/main/java/ctlab/dgraph/EulerTourForest.java:317-322 | walks the parent chain to the whole tree, in which the node stands at its position |
| TourTree.IsSingleton | java/src/main/java/ctlab/dgraph/EulerTourForest.java:411-413 | no parent and no children iff the node's tour is one occurrence |
| TourTree.SplayStep | java/src/main/java/ctlab/dgraph/EulerTourForest.java:252-266 | a zig, zig-zig or zig-zag step keeps the node at the focus and shortens its path by one or two frames |
| TourTree.SplayStepCorrect | java/src/main/java/ctlab/dgraph/EulerTourForest.java:252-266 | a splay step keeps the tree valid, its tour unchanged and the node at its position |
| TourTree.Splay | java/src/main/java/ctlab/dgraph/EulerTourForest.java:251-268 | the node becomes the root; the tour is unchanged and exactly the occurrences before the node are in its left subtree |
| TourTree.Rightmost | java/src/main/java/ctlab/dgraph/EulerTourForest.java:392-396 | reaches the last occurrence of the node's subtree, a node without right child |
| TourTree.Leftmost | java/src/main/java/ctlab/dgraph/EulerTourForest.java:386-390 | reaches the first occurrence of the node's subtree, a node without left child |
| TourTree.Succ | java/src/main/java/ctlab/dgraph/EulerTourForest.java:346-358 | null iff the node is the last occurrence; otherwise the occurrence one position later in the same tree |
| TourTree.Split | java/src/main/java/ctlab/dgraph/EulerTourForest.java:360-384 | two valid trees whose tours concatenate to the tour; the entry ends the left one (`keepInLeft`) or starts the right one |
| TourTree.Merge | java/src/main/java/ctlab/dgraph/EulerTourForest.java:324-339 | a valid tree whose tour is the concatenation; a null side returns the other side unchanged |
| TourTree.Remove | java/src/main/java/ctlab/dgraph/EulerTourForest.java:303-315 | the tour loses exactly the removed occurrence |
| TourTree.RepairGood | java/src/main/java/ctlab/dgraph/EulerTourForest.java:99-115 | from a tree whose only stale flag is at the node, stopping at the first unchanged flag still gives a valid tree with the same tour and root |
| TourTree.SetEdges | java/src/main/java/ctlab/dgraph/EulerTourForest.java:65-69 | the tour with that occurrence's counter set to `k`, valid, same root |
| TourTree.Increment | java/src/main/java/ctlab/dgraph/EulerTourForest.java:71-78 | the counter goes up by one, the tree stays valid (the repair starts at the parent when the counter becomes 1), same root |
| TourTree.Decrement | java/src/main/java/ctlab/dgraph/EulerTourForest.java:80-86 | the counter goes down by one, the tree stays valid (repaired only when it reaches 0), same root |
| TourIteration.ActiveMembers | java/src/main/java/ctlab/dgraph/EulerTourForest.java:181-212 | a vertex is yielded iff one of its occurrences has a positive counter |
| TourIteration.FirstActive | java/src/main/java/ctlab/dgraph/EulerTourForest.java:183-194 | going down a good subtree reaches its first active occurrence, with no active occurrence before it in that subtree |
| TourIteration.Climb | java/src/main/java/ctlab/dgraph/EulerTourForest.java:196-207 | going up past right children reaches the next candidate with nothing active skipped, or null when nothing active follows |
| TourIteration.FindNext | java/src/main/java/ctlab/dgraph/EulerTourForest.java:181-212 | reaches the next active occurrence after the current one, skipping only inactive ones, or null iff there is none |
| TourIteration.Seek | java/src/main/java/ctlab/dgraph/EulerTourForest.java:181-212 | after `findNext` the iterator stands where the active vertices after the current occurrence start |
| TourIteration.ETFIterator.constructor | java/src/main/java/ctlab/dgraph/EulerTourForest.java:169-174 | corrected start test (the first occurrence's own counter): remaining vertices are exactly the active vertices of the tour, in order |
| TourIteration.ETFIterator.AsWritten | java/src/main/java/ctlab/dgraph/EulerTourForest.java:169-174 | start test on `good` as written: remaining vertices are `WrittenOrder` of the tree |
| TourIteration.ETFIterator.HasNext | java/src/main/java/ctlab/dgraph/EulerTourForest.java:177-179 | true iff some vertex remains |
| TourIteration.ETFIterator.Next | java/src/main/java/ctlab/dgraph/EulerTourForest.java:215-222 | the first remaining vertex, which is then consumed; `None` (`NoSuchElementException`) when none remains |
| TourIteration.WrittenOrderAgrees | java/src/main/java/ctlab/dgraph/EulerTourForest.java:169-174 | the as-written start agrees with the active vertices iff the first occurrence is active or its `good` flag is clear |
| TourIteration.WrittenOrderYieldsInactive | java/src/main/java/ctlab/dgraph/EulerTourForest.java:169-174 | on the valid tree of tour 0 1 with only 1 active, the as-written iterator yields 0 and 1, the active vertices are only 1 |
| EulerTour.Rotation | java/src/main/java/ctlab/dgraph/EulerTourForest.java:24-28 | a rotated tour is a tour of the same vertices and occurrences |
| EulerTour.ExpandOpen | java/src/main/java/ctlab/dgraph/EulerTourForest.java:30-38 | appending a new occurrence of the root (none for a lone occurrence) leaves a tour open for joining, with the same vertices |
| EulerTour.Join | java/src/main/java/ctlab/dgraph/EulerTourForest.java:92-97 | two open tours of disjoint trees concatenate to one tour whose new pair of mates is their two last occurrences |
| EulerTour.Cut | java/src/main/java/ctlab/dgraph/EulerTourForest.java:133-160 | removing a pair of mates leaves two tours, inner and outer, that split the tour's vertices between them, one end of the edge on each side |
| EulerTour.TourCount | java/src/main/java/ctlab/dgraph/EulerTourForest.java:88-90 | a tour of one occurrence has one vertex; a longer tour has `2c - 2` occurrences for its `c` vertices |
| EulerTour.TourConnected | java/src/main/java/ctlab/dgraph/EulerTourForest.java:40-45 | any two vertices of a tour are connected by the edges of its pairs of mates |
| ForestTheory.TreeOf | java/src/main/java/ctlab/dgraph/EulerTourForest.java:317-322 | `findRoot` as the index of the one tree holding the occurrence |
| ForestTheory.ConnectedIffReach | java/src/main/java/ctlab/dgraph/EulerTourForest.java:40-45 | two vertices' `any` occurrences have the same root iff the tree edges connect them |
| ForestTheory.Acyclic | java/src/main/java/ctlab/dgraph/EulerTourForest.java:92-97 | the tree edges form a forest: without one of them its two ends are not connected |
| ForestTheory.CutApart | java/src/main/java/ctlab/dgraph/EulerTourForest.java:133-160 | the ends of the cut tree edge are not connected by the remaining tree edges |
| ForestTheory.Component | java/src/main/java/ctlab/dgraph/EulerTourForest.java:44 | the vertices of the tree of `v` are exactly the vertices connected to `v` |
| ForestTheory.NotAllConnected | java/src/main/java/ctlab/dgraph/EulerTourForest.java:47-49 | with two trees or more, not all vertices are connected |
| ForestTheory.WholeTree | java/src/main/java/ctlab/dgraph/EulerTourForest.java:47-49 | for `n >= 2`, all vertices are connected iff a tour has `2(n - 1)` occurrences |
| ForestTheory.ComponentSize | java/src/main/java/ctlab/dgraph/EulerTourForest.java:88-90 | the tour of the tree of `v` has 1 occurrence if `v` is alone, else `2c - 2` for the `c` vertices connected to `v` |
| ForestSteps.LinkSound | java/src/main/java/ctlab/dgraph/EulerTourForest.java:92-97 | after `link` the forest is sound and its tree edges gain exactly the new edge under the new handle |
| ForestSteps.CutSound | java/src/main/java/ctlab/dgraph/EulerTourForest.java:133-160 | after `cut` the forest is sound and has lost exactly the tree edge of the handle |
| CutSteps.CutFinish | java/src/main/java/ctlab/dgraph/EulerTourForest.java:159 | once the later mate is removed and the pair forgotten, the forest is sound without the cut tree edge |
| Forest.Single | java/src/main/java/ctlab/dgraph/EulerTourForest.java:244-249 | `new Entry(v)` is a valid lone occurrence of `v` with counter 0 and size 1 |
| Forest.InitialSound | java/src/main/java/ctlab/dgraph/EulerTourForest.java:15-22 | `n` lone occurrences form a sound forest without tree edges |
| Forest.OneVertexConnected | java/src/main/java/ctlab/dgraph/EulerTourForest.java:47-49 | a graph of at most one vertex is connected |
| Forest.LinkAll | java/src/main/java/ctlab/dgraph/EulerTourForest.java:92-97 | two expansions and a merge leave a sound forest rooted at the merged tree, with the edge (v, u) added |
| Forest.IteratorYields | java/src/main/java/ctlab/dgraph/EulerTourForest.java:162-222 | the active vertices of the tree of `v` are the vertices connected to `v` with a positive count, each once |
| Forest.WrittenInTree | java/src/main/java/ctlab/dgraph/EulerTourForest.java:169-174 | the as-written iterator still yields only vertices connected to `v` |
| Forest.TreeEdge.constructor | java/src/main/java/ctlab/dgraph/EulerTourForest.java:225-233 | holds the handle and its mate |
| Forest.EulerTourForest.constructor | java/src/main/java/ctlab/dgraph/EulerTourForest.java:15-22 | a sound forest of `n` lone vertices: no tree edge, every count 0, `anyRoot` null |
| Forest.EulerTourForest.IsAllConnectedAsWritten | java/src/main/java/ctlab/dgraph/EulerTourForest.java:47-49 | as written: true iff `n >= 2` and all vertices are connected |
| Forest.EulerTourForest.IsAllConnected | java/src/main/java/ctlab/dgraph/EulerTourForest.java:47-49 | corrected: true iff all vertices are connected |
| Forest.EulerTourForest.IteratorAsWritten | java/src/main/java/ctlab/dgraph/EulerTourForest.java:162-174 | `iterator(v)` as written: every vertex of the tree of `v` with a positive count is yielded, and only vertices of that tree |
| Forest.EulerTourForest.IsConnected | java/src/main/java/ctlab/dgraph/EulerTourForest.java:40-45 | true iff the tree edges connect `v` and `u` |
| Forest.EulerTourForest.Size | java/src/main/java/ctlab/dgraph/EulerTourForest.java:88-90 | 1 for a lone vertex, otherwise `2c - 2` for the `c` vertices connected to `v` |
| Forest.EulerTourForest.ChangeEdges | java/src/main/java/ctlab/dgraph/EulerTourForest.java:65-69 | the count of `v` becomes `c`; the trees keep their shape and all bookkeeping stays |
| Forest.EulerTourForest.IncrementEdges | java/src/main/java/ctlab/dgraph/EulerTourForest.java:71-78 | the count of `v` goes up by one; tree edges, shapes and bookkeeping unchanged; the forest stays sound |
| Forest.EulerTourForest.DecrementEdges | java/src/main/java/ctlab/dgraph/EulerTourForest.java:80-86 | the count of `v` goes down by one; tree edges, shapes and bookkeeping unchanged; the forest stays sound |
| Forest.EulerTourForest.ChangeAny | java/src/main/java/ctlab/dgraph/EulerTourForest.java:117-123 | the given occurrence becomes the `any` occurrence of its vertex, keeping the counts |
| Forest.EulerTourForest.MakeRoot | java/src/main/java/ctlab/dgraph/EulerTourForest.java:24-28 | the tour of `v` is rotated to start at the `any` occurrence of `v`; nothing else changes |
| Forest.EulerTourForest.AppendOccurrence | java/src/main/java/ctlab/dgraph/EulerTourForest.java:35-37 | a new occurrence of `v`, with the next identity, ends the tour |
| Forest.EulerTourForest.Expand | java/src/main/java/ctlab/dgraph/EulerTourForest.java:30-38 | the tour of `v` is rotated to `v` and, unless a lone occurrence, gains a new occurrence of `v`; the last occurrence is returned |
| Forest.EulerTourForest.Link | java/src/main/java/ctlab/dgraph/EulerTourForest.java:92-97 | for unconnected `v`, `u`: the tree edges gain exactly (v, u) under a fresh handle, whose mate the `TreeEdge` holds; counts unchanged |
| Forest.EulerTourForest.Cut | java/src/main/java/ctlab/dgraph/EulerTourForest.java:125-131 | a live handle's tree edge is removed and the handle cleared; a cleared handle changes nothing |
| Forest.EulerTourForest.CutBetween | java/src/main/java/ctlab/dgraph/EulerTourForest.java:133-160 | the tree edge of the pair leaves the forest, which stays sound; counts unchanged; `anyRoot` null |
| Forest.EulerTourForest.SplitAround | java/src/main/java/ctlab/dgraph/EulerTourForest.java:134-143 | the two splits leave the tour of the pair in three pieces; `right_ordered` tells which mate comes first |
| Forest.EulerTourForest.SplitOff | java/src/main/java/ctlab/dgraph/EulerTourForest.java:360-384 | `split(e, true)` on a tree of the forest, kept loose |
| Forest.EulerTourForest.DetachAlone | java/src/main/java/ctlab/dgraph/EulerTourForest.java:145-149 | a lone earlier mate is dropped, its `any` role passing to the first occurrence after the later mate |
| Forest.EulerTourForest.DetachInside | java/src/main/java/ctlab/dgraph/EulerTourForest.java:150-158 | the outer pieces are merged around the earlier mate, which is then cut off with its successor as replacement |
| Forest.EulerTourForest.CutLater | java/src/main/java/ctlab/dgraph/EulerTourForest.java:159 | the later mate is cut off the inner piece |
| Forest.EulerTourForest.CutOff | java/src/main/java/ctlab/dgraph/EulerTourForest.java:51-63 | `cutoff`: a lone occurrence stays; otherwise it leaves its tree, and its `any` role passes to the replacement or the tree's first occurrence |
| Forest.EulerTourForest.RemoveAt | java/src/main/java/ctlab/dgraph/EulerTourForest.java:303-315 | `remove` of an occurrence that is no vertex's `any` occurrence: only that place of the tree goes |
| Forest.EulerTourForest.Iterator | java/src/main/java/ctlab/dgraph/EulerTourForest.java:162-164 | the iterator of `v` yields each vertex connected to `v` with a positive count, once, in tour order |
| LevelForests.LinkIn | java/src/main/java/ctlab/dgraph/EulerTourForest.java:92-97 | `link` on a level's forest adds exactly the edge (x, y) under the returned handle to that level's record |
| LevelForests.CutIn | java/src/main/java/ctlab/dgraph/EulerTourForest.java:125-131 | `cut` on a level's forest removes the tree edge of the record's handle and clears the handle |
| LevelForests.CountIn | java/src/main/java/ctlab/dgraph/DynamicGraph.java:77-78 | incrementing (decrementing) both ends moves the counter of each end by exactly one and keeps the level's tree edges |
| LevelForests.ConnectedIn | java/src/main/java/ctlab/dgraph/EulerTourForest.java:40-45 | a level's `isConnected(v, u)` is reachability over that level's tree edges |
| LevelForests.AllConnectedIn | java/src/main/java/ctlab/dgraph/EulerTourForest.java:47-49 | a level's `isConnected()`, as written: true iff there are at least two vertices and its tree edges connect every two of them |
| LevelForests.SizeIn | java/src/main/java/ctlab/dgraph/DynamicGraph.java:116 | a level's `size(v)` is 1 for a lone vertex and `2c - 2` otherwise |
| LevelForests.IteratorIn | java/src/main/java/ctlab/dgraph/DynamicGraph.java:124 | a level's `iterator(v)`, with the constructor as written: it yields every vertex connected to `v` at that level with a positive count there, and no vertex outside that tree |
| AbstractForest.LinkForested | java/src/main/java/ctlab/dgraph/EulerTourForest.java:92-97 | linking two unconnected vertices keeps every tree edge a bridge and adds exactly their pair |
| AbstractForest.CutForested | java/src/main/java/ctlab/dgraph/EulerTourForest.java:125-131 | cutting a tree edge keeps a forest that has lost exactly that pair |
| AbstractForest.Spread | java/src/main/java/ctlab/dgraph/DynamicGraph.java:124-125 | the vertices of the tree of `v`: exactly those the tree edges connect to `v` |
| Levels.CeilLog2 | java/src/main/java/ctlab/dgraph/DynamicGraph.java:29 | the least `k` with `n <= 2^k` |
| Levels.Unlink | java/src/main/java/ctlab/dgraph/DynamicGraph.java:248-251 | unlinking removes exactly the nodes of the edge |
| Levels.UnlinkPush | java/src/main/java/ctlab/dgraph/DynamicGraph.java:241-251 | unlinking a node just added restores the list |
| Levels.UnlinkOne | java/src/main/java/ctlab/dgraph/DynamicGraph.java:248-251 | in a list of distinct edges, unlinking takes out exactly the one node of the edge |
| Levels.UnlinkAbsent | java/src/main/java/ctlab/dgraph/DynamicGraph.java:248-251 | unlinking an edge without a node leaves the list |
| Levels.PushDistinct | java/src/main/java/ctlab/dgraph/DynamicGraph.java:241-246 | adding a node of a new edge keeps the edges of a list distinct |
| Levels.UnlinkDistinct | java/src/main/java/ctlab/dgraph/DynamicGraph.java:248-251 | unlinking keeps the edges of a list distinct |
| Levels.EmptyGood | java/src/main/java/ctlab/dgraph/DynamicGraph.java:30-38 | empty forests and empty lists satisfy the graph invariant |
| Levels.Nested | java/src/main/java/ctlab/dgraph/DynamicGraph.java:148-150 | the tree edges of a level are tree edges of every level above |
| Levels.TopInGraph | java/src/main/java/ctlab/dgraph/DynamicGraph.java:47-48 | the top forest's tree edges are edges of the graph |
| Levels.TopReach | java/src/main/java/ctlab/dgraph/DynamicGraph.java:47-48 | what the top forest connects, the graph connects |
| Levels.Lower | java/src/main/java/ctlab/dgraph/DynamicGraph.java:167-169 | a tree edge of level `l >= 1` has unconnected ends in the forest of level `l - 1`, so `downgrade` may link it there |
| Levels.Relevel | java/src/main/java/ctlab/dgraph/DynamicGraph.java:157-166 | moving an edge's nodes and record one level down keeps the lists and records consistent |
| Levels.Unlist | java/src/main/java/ctlab/dgraph/DynamicGraph.java:110 | unlinking a removed edge's nodes and dropping its record keeps the invariant |
| Levels.Shrink | java/src/main/java/ctlab/dgraph/DynamicGraph.java:102-105 | a record losing a level's handle, whose tree edge is cut, keeps the invariant |
| Levels.Retag | java/src/main/java/ctlab/dgraph/DynamicGraph.java:219-221 | changing a record's list of tree-edge handles keeps the invariant |
| Handles.InvAdd | java/src/main/java/ctlab/dgraph/DynamicGraph.java:65-82 | a new top-level record, linked or not, keeps the invariant, and it is a tree edge exactly when linked |
| Handles.InvDown | java/src/main/java/ctlab/dgraph/DynamicGraph.java:157-170 | `downgrade` keeps the invariant; a tree edge's list gains its new handle |
| Handles.InvDrop | java/src/main/java/ctlab/dgraph/DynamicGraph.java:101-110 | cutting a record's handles, unlinking its nodes and dropping it keeps the invariant |
| Handles.PairsAdd | java/src/main/java/ctlab/dgraph/DynamicGraph.java:65-82 | a new record adds exactly its pair to the graph |
| Handles.KeptPairs | java/src/main/java/ctlab/dgraph/DynamicGraph.java:157-170 | records that keep their ends keep the graph's pairs |
| Graph.Exchange | java/src/main/java/ctlab/dgraph/DynamicGraph.java:147-151 | exchanging an edge for one that crosses between its two sides connects the same vertices |
| GraphState.TreeIffHeld | java/src/main/java/ctlab/dgraph/DynamicGraph.java:223-225 | a record is a tree edge iff its handle list is non-empty, and then it holds one handle per level from its own to the top |
| GraphState.LinkReady | java/src/main/java/ctlab/dgraph/DynamicGraph.java:167-169 | a tree edge of level `>= 1` may be linked one level down |
| GraphState.ExchangeAll | java/src/main/java/ctlab/dgraph/DynamicGraph.java:147-151 | a bridge exchanged for an edge crossing between its sides: the same vertices are connected |
| GraphState.CutTop | java/src/main/java/ctlab/dgraph/DynamicGraph.java:101-105 | after the cut loop the top forest has lost exactly the edge, whose ends it no longer connects |
| GraphState.LevelCut | java/src/main/java/ctlab/dgraph/DynamicGraph.java:101-105 | after the cut loop every forest from the edge's level up has lost exactly its pair, a bridge, whose ends it no longer connects |
| GraphState.FoundReplacement | java/src/main/java/ctlab/dgraph/DynamicGraph.java:138-139 | a non-tree edge of the level from the side of `v` to a vertex connected to `u` is a replacement |
| GraphState.TreeSlot | java/src/main/java/ctlab/dgraph/DynamicGraph.java:132-133 | the far end of a tree edge in the list of `w` is connected to `w` in the top forest |
| GraphState.PushOne | java/src/main/java/ctlab/dgraph/DynamicGraph.java:132-141 | an edge pushed down from the side of `v`, whose far end is on that side or not connected to `u`, joins nothing |
| GraphState.PushedTrans | java/src/main/java/ctlab/dgraph/DynamicGraph.java:125-145 | two stretches of the search at one level, from either side, only push down edges that join nothing |
| GraphState.DrainedMore | java/src/main/java/ctlab/dgraph/DynamicGraph.java:125-145 | lists scanned to the end stay scanned: their edges stay below level `i` |
| GraphState.SideDrained | java/src/main/java/ctlab/dgraph/DynamicGraph.java:124-145 | once every list of the tree is scanned, every edge of level `i` with an end in it was pushed down and none of them joins the two sides |
| GraphState.UncrossedBefore | java/src/main/java/ctlab/dgraph/DynamicGraph.java:113-145 | what the search of one level leaves unjoined was so before it, since it touches no edge of its level or above but by pushing it |
| GraphState.SideReady | java/src/main/java/ctlab/dgraph/DynamicGraph.java:124 | the vertices iterated at level `i` are connected to `v` in the top forest |
| GraphState.ScanDown | java/src/main/java/ctlab/dgraph/DynamicGraph.java:133-141 | pushing an edge down keeps the records, the levels from `i` up, a replacement found before, and the rest of the list |
| GraphState.PromoteDone | java/src/main/java/ctlab/dgraph/DynamicGraph.java:147-151 | after linking at every level down to `i` the replacement is a tree edge, the invariant holds, and the top forest gains its pair |
| Connectivity.EdgeToken.constructor | java/src/main/java/ctlab/dgraph/DynamicGraph.java:172-178 | the token holds the edge it is given, or none |
| Connectivity.EmptyLevels | java/src/main/java/ctlab/dgraph/DynamicGraph.java:32-38 | `size` empty forests and `size` rows of `n` empty lists |
| Connectivity.DynamicGraph.constructor | java/src/main/java/ctlab/dgraph/DynamicGraph.java:24-39 | for `n >= 1`: `⌈log₂ n⌉ + 1` empty forests, as many rows of `n` empty lists, no edges, and no two distinct vertices connected |
| Connectivity.DynamicGraph.Create | java/src/main/java/ctlab/dgraph/DynamicGraph.java:24-39 | `IllegalArgumentException` (`None`) iff `n <= 0`; otherwise an empty graph of `n` vertices |
| Connectivity.DynamicGraph.IsConnected | java/src/main/java/ctlab/dgraph/DynamicGraph.java:47-49 | true whatever `v` and `u` are when the top forest connects every two of at least two vertices; otherwise an end out of range is an error, and the answer is whether the top forest connects `v` and `u`; what it connects, the graph connects |
| Connectivity.DynamicGraph.IsAllConnected | java/src/main/java/ctlab/dgraph/DynamicGraph.java:55-57 | true iff there are at least two vertices and the top forest connects every two of them; then so does the graph |
| Connectivity.DynamicGraph.LinkAt | java/src/main/java/ctlab/dgraph/DynamicGraph.java:75 | `link` at one level: its tree edges gain exactly (x, y) under the next fresh handle |
| Connectivity.DynamicGraph.CutAt | java/src/main/java/ctlab/dgraph/DynamicGraph.java:103 | `cut` at one level: its tree edges lose exactly the record's pair |
| Connectivity.DynamicGraph.Add | java/src/main/java/ctlab/dgraph/DynamicGraph.java:65-82 | self-loop: empty token, no change; an end out of range: error, no change; otherwise a new top-level edge in the lists of both its ends, a tree edge iff its ends were not connected, they are connected after, and the levels below the top are unchanged |
| Connectivity.DynamicGraph.Insert | java/src/main/java/ctlab/dgraph/DynamicGraph.java:72-80 | two distinct vertices in range: a new record of the top level in the lists of both ends; a tree edge exactly when the ends were not connected, and then the top forest gains exactly its pair |
| Connectivity.DynamicGraph.Downgrade | java/src/main/java/ctlab/dgraph/DynamicGraph.java:157-170 | the edge's level drops by exactly one, its nodes move to the lists one level down, a tree edge is linked there; every other level stays |
| Connectivity.DynamicGraph.CutAll | java/src/main/java/ctlab/dgraph/DynamicGraph.java:101-105 | the edge's handles are cut at every level; each forest from the edge's level up loses exactly its pair, and the top forest no longer connects its ends |
| Connectivity.DynamicGraph.Detach | java/src/main/java/ctlab/dgraph/DynamicGraph.java:96-110 | the record is gone and its nodes unlinked; a tree edge also leaves every forest from its level up, a non-tree edge leaves the forests as they were |
| Connectivity.DynamicGraph.Visit | java/src/main/java/ctlab/dgraph/DynamicGraph.java:129-143 | one list node: a tree edge is pushed one level down; a non-tree edge stops the loop once a replacement is known, becomes the replacement when none is known and its far end is connected to `u`, and is pushed down otherwise; a pushed edge does not join the two sides |
| Connectivity.DynamicGraph.PushSlot | java/src/main/java/ctlab/dgraph/DynamicGraph.java:132-141 | one node's edge pushed down from the side of `v`: only that record changes, from level `i` to `i - 1`; the levels from `i` up and a replacement found before stay, and the edge joins nothing |
| Connectivity.DynamicGraph.ScanList | java/src/main/java/ctlab/dgraph/DynamicGraph.java:127-144 | scanning one list keeps the invariant and the levels from `i` up; what it reports is a replacement; with none reported every edge of level `i` at `w` has been pushed down, and none of the pushed edges joins the two sides |
| Connectivity.DynamicGraph.SearchLevel | java/src/main/java/ctlab/dgraph/DynamicGraph.java:114-145 | from the smaller side at level `i`, what the search reports is a non-tree edge between the two sides; with none reported every edge of level `i` with an end in that tree was pushed down, and none of them joins the two sides |
| Connectivity.DynamicGraph.ScanSide | java/src/main/java/ctlab/dgraph/DynamicGraph.java:124-145 | the loop over the vertices of the tree at level `i`: a replacement it reports crosses between the two sides; with none reported, every edge of level `i` with an end in the tree was pushed down and none of them joins the two sides |
| Connectivity.DynamicGraph.Promote | java/src/main/java/ctlab/dgraph/DynamicGraph.java:147-151 | the replacement is linked from the top down to level `i`; it becomes a tree edge and the top forest gains exactly its pair |
| Connectivity.DynamicGraph.SearchStep | java/src/main/java/ctlab/dgraph/DynamicGraph.java:114-151 | one level of the search: a search that finds nothing (or stops) keeps the top forest and the levels above, and a completed one leaves no edge of that level with an end in the tree searched joining the two sides; a found edge crosses between the two sides and the top forest gains exactly its pair |
| Connectivity.DynamicGraph.Reconnect | java/src/main/java/ctlab/dgraph/DynamicGraph.java:112-154 | nothing found leaves the top forest, and then at every level searched no edge of that level with an end in the tree searched joins the two sides; a found edge crosses between the two sides and the top forest gains exactly its pair |
| Connectivity.DynamicGraph.Remove | java/src/main/java/ctlab/dgraph/DynamicGraph.java:89-155 | the token is cleared and a second remove does nothing; the edge leaves the graph; a non-tree edge leaves its two lists and nothing else; a replaced tree edge keeps exactly what is connected; otherwise its ends are no longer connected and at every level searched no remaining edge of that level with an end in the tree searched joins the two sides |
| OrderTree.Recalc | Main.cpp:166-174 | the node's items are left, item, right; with sized children the node is sized |
| OrderTree.SizeMeaning | Main.cpp:166-174 | the stored size is the number of items of the subtree |
| OrderTree.Rotate | Main.cpp:63-94 | the child takes the node's place; items and size unchanged |
| OrderTree.FindRoot | Main.cpp:113-116 | the whole tree, in which the node stands at its position |
| OrderTree.SplayStepCorrect | Main.cpp:28-43 | a splay step keeps the items and the node's position |
| OrderTree.Splay | Main.cpp:27-44 | the node becomes the root, items unchanged, the items before it in its left subtree |
| OrderTree.Rightmost | Main.cpp:176-180 | the last item of the node's subtree |
| OrderTree.Split | Main.cpp:140-164 | two sized trees concatenating to the items, the node ending the left or starting the right |
| OrderTree.Merge | Main.cpp:96-111 | items concatenated; a null side gives the other |
| OrderTree.RemoveAt | Main.cpp:46-61 | exactly the item at the node's position is gone |
| OrderTree.FindNeighbour | Main.cpp:121-138 | `find(w)` stops at `w` when stored, otherwise at its predecessor or successor with no key in between |
| OrderTree.FindKey | Main.cpp:121-138 | `find(w)` stops at a node holding `w` iff `w` is stored |
| OrderTree.SplitPlace | Main.cpp:195-201 | splitting at the node `find` stops at puts an absent key in its sorted place |
| OrderTree.InsertSortedKeeps | Main.cpp:190-203 | sorted insertion of a new key keeps the items sorted, adds exactly that key and item |
| OrderTree.DeleteAt | Main.cpp:205-208 | removing the item at the place of key `w` deletes exactly key `w` |
| OrderTree.RemovedSorted | Main.cpp:205-208 | what remains is sorted and has lost the removed item's key |
| OrderTree.RankAt | Main.cpp:214-232 | in sorted items the key at place `k` has exactly `k` smaller keys |
| OrderTree.SortedKeysCount | Main.cpp:210-212 | sorted items have as many keys as items |
| OrderTree.Tree.constructor | Main.cpp:188 | the empty tree |
| OrderTree.Tree.Add | Main.cpp:190-203 | a stored key leaves the tree as it is; a new key gives the sorted insertion of the item |
| OrderTree.Tree.Remove | Main.cpp:205-208 | removes the item where `find(v)` stops, which for a stored key deletes exactly that key |
| OrderTree.Tree.Size | Main.cpp:210-212 | the number of items, which is the number of keys |
| OrderTree.Tree.Kth | Main.cpp:214-232 | the item at place `k`, the key with exactly `k` smaller keys |
| OrderTree.Tree.Contains | Main.cpp:234-240 | true iff the key is stored |
| TourExamples.LinkLoneVertices | test/ETFtests.cpp:10-12 | `link(0, 1)` and `link(2, 3)` give the tours 01 and 23 |
| TourExamples.LinkLeaves | test/ETFtests.cpp:15-16 | `link(1, 3)` gives 101323, its new mates at places 2 and 5 |
| TourExamples.LinkLoneToTree | test/ETFtests.cpp:17-18 | `link(4, 3)` gives 43231013 |
| TourExamples.CutLinkedEdge | test/ETFtests.cpp:21-22 | cutting the edge of `link(1, 3)` leaves 4323 and 10 |
| TourExamples.Tour43231013Entries | test/ETFtests.cpp:17-18 | the tour after `link(4, 3)`, occurrence by occurrence, all counters 0 |
| TourExamples.ChangedEdgesIsBumped | java/src/main/java/ctlab/dgraph/EulerTourForest.java:65-69 | on a tour of distinct identities, changing the counter of one occurrence by identity is the tour `SetEdges` leaves |
| TourExamples.ChangedTour | test/ETFtests.cpp:28-30 | `changeEdges(2, 1)`, `changeEdges(4, 1)`, `changeEdges(2, 0)` on 43231013 leave a positive counter on the occurrence of 4 only |
| TourExamples.IteratorYieldsCounted | test/ETFtests.cpp:27-37 | after those three calls on 43231013, the iterator of that tree yields the one vertex 4 |
| GraphExamples.Build | test/DynamicGraphTests.cpp:7-15 | after `add(0, 1)`, `add(1, 2)`, `add(0, 2)` on three vertices the top forest holds (0, 1) and (1, 2), and (0, 2) is a top-level non-tree edge |
| GraphExamples.Joined | test/DynamicGraphTests.cpp:19-22 | once (0, 1) is cut, the edge (0, 2) joins the side of 0 to that of 1, whichever side is searched |
| GraphExamples.Triangle | test/DynamicGraphTests.cpp:6-22 | the triangle 0-1, 1-2, 0-2 with the first edge removed: every two vertices are still connected |

## Left out

- Pointers and aliasing: every `Entry` tree is a value, and a `Cursor` stands for a node reference. In-place pointer updates and sharing of nodes between references are not captured; an occurrence is known by an identity number.
- Connectivity.DynamicGraph: each level's forest is its `Level` record of tree edges, not an `EulerTourForest` object. `LevelForests` proves that an `EulerTourForest` gives the answers the record gives. `TreeEdge` objects are represented by handle pairs. The global counter of handles stands for object identity.
- Connectivity.DynamicGraph.SearchLevel: iterates over every vertex of the smaller tree (the set `AbstractForest.Spread` computes, in no particular order). The source iterates only the tree's vertices with active edges, in tour order. A vertex without active edges has an empty list at that level, so the extra vertices change nothing.
- TourIteration.ETFIterator: iterates a snapshot of the tour taken when it is created. In the source, `downgrade` changes counters during the search loop, and the iterator reads the live `good` and `edges` fields; that interleaving is not modelled.
- Connectivity.DynamicGraph.IsConnected: it is not proved complete over a sequence of operations. A pair the graph connects may be reported unconnected if an earlier `remove` missed a replacement. Each `remove` proves only that, at every level it searched, no remaining edge of that level touching the tree it searched joins the two sides. The full guarantee needs a global invariant that this model does not carry: every non-tree edge of level `j` has its ends connected at level `j`. The search as written may not keep that invariant. Once a replacement is found, the break at java/src/main/java/ctlab/dgraph/DynamicGraph.java:135-136 stops the list at the first later non-tree edge. Tree edges after it, and the lists of the vertices not yet iterated, keep their level. Edges pushed down earlier may then lie at a level where their ends are apart. The triangle scenario of test/DynamicGraphTests.cpp is proved (GraphExamples.Triangle).
- Connectivity.DynamicGraph.IsAllConnected: not proved complete, for the same reason as Connectivity.DynamicGraph.IsConnected.
- Connectivity.DynamicGraph.Remove: no global completeness of the replacement search is proved (see Connectivity.DynamicGraph.IsConnected). The adjacency lists after the search of a tree edge are not stated as a function of the old ones. They are only shown to keep the invariant: every live edge is in the lists of both of its ends at its level.
- Connectivity.DynamicGraph: the active-edge counters of each level's forest are not modelled. These are `incrementEdges`/`decrementEdges` at java/src/main/java/ctlab/dgraph/DynamicGraph.java:77-78, 107-108 and 163-166. Per level and vertex, the count is the number of edges of that level at that vertex. The graph's search reads them only through the iterator, to skip vertices without edges of that level, and those vertices have empty lists. So the model iterates every vertex of the tree (Connectivity.DynamicGraph.SearchLevel). LevelForests.CountIn proves that each of these calls on a level's forest moves the counters of the two ends by one and keeps its tree edges.
- Connectivity.DynamicGraph.Remove: requires that the token's edge is still in the graph. This always holds for tokens made by `add`, since a token is cleared by its one removal.
- Connectivity.DynamicGraph.Visit: downgrading an edge of level 0 is `adjLists.get(-1)` in the source (an `IndexOutOfBoundsException`); here it reports `ok = false` before any change.
- Connectivity.DynamicGraph.constructor: the number of levels is computed exactly as `⌈log₂ n⌉ + 1`. The source's floating-point `Math.log` rounding (which may add one level for some powers of two) is not modelled.
- Levels.Unlink: sentinel lists are sequences of nodes; `prev`/`next` pointers, the sentinel itself and `ListIterator` are not modelled as objects. Unlinking by edge removes the node of that edge, which is what `LinkedList.remove` on the subscribed node does.
- Integer widths: Java `int` and C++ `unsigned` are modelled as unbounded naturals. Overflow of sizes, counters and keys is not modelled.
- OrderTree.Tree.Size: requires a non-empty tree, because the source dereferences a null root.
- OrderTree.Tree.Remove: requires a non-empty tree, because the source dereferences a null root.
- OrderTree.Tree.Kth: requires `k` below the number of items, because the source walks into a null child otherwise.
- Performance: the amortised cost bounds of splaying and of the level scheme are not modelled.
- Concurrency: the structure is single-threaded and is not modelled for concurrent use.
- Not part of this model: `Shuffler` and the driver code of Main.cpp, main.cpp, the C++ versions of the forest and graph (EulerTourForest.cpp, DynamicGraph.cpp, Edge.cpp), and the `Pair` plumbing of `split`.
- Forest.EulerTourForest.Iterator: built with the corrected iterator constructor. The source's constructor is `TourIteration.ETFIterator.AsWritten` (see Findings), which Forest.EulerTourForest.IteratorAsWritten and LevelForests.IteratorIn use.

## Findings

| source | as written | input that shows it | evidently intended | confidence | as-written member | corrected member |
|---|---|---|---|---|---|---|
| java/src/main/java/ctlab/dgraph/EulerTourForest.java:169-174 | the iterator's constructor skips the first occurrence only when its `good` flag is clear; `good` also covers the occurrence's right subtree | after `link(0, 1)` and `incrementEdges(1)` the tour is 0 1 with only 1 active; if the root is 0 with 1 as its right child, `iterator(0)` yields 0, which has no active edges, and then 1 | start at the first occurrence only when its own counter is positive (`edges > 0`), as `findNext` does | not executed | TourIteration.ETFIterator.AsWritten, TourIteration.WrittenOrderYieldsInactive | TourIteration.ETFIterator.constructor, Forest.IteratorYields, Forest.EulerTourForest.Iterator |
| java/src/main/java/ctlab/dgraph/EulerTourForest.java:47-49 | `isConnected()` is `anyRoot != null && anyRoot.size == 2(n - 1)` | `n = 1`: no link is possible, so `anyRoot` stays null and `isConnected()` returns `false` | a graph of at most one vertex is connected | not executed | Forest.EulerTourForest.IsAllConnectedAsWritten | Forest.EulerTourForest.IsAllConnected, Forest.OneVertexConnected |
