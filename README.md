# d3.sankey layout engine, modelled in Dafny

This project models the `d3.sankey` layout engine of `sankey.js` and the small
input adapter at the head of `sankeyWidget.prototype.buildLinks`.

The engine takes a graph of nodes and weighted links and lays it out as a
Sankey diagram. `layout(iterations, width, height)` runs five stages in order:

1. The linker (`computeNodeLinks`) gives every node its outgoing and incoming links.
2. The value calculator (`computeNodeValues`) sets each node's value to the larger of its two side sums.
3. The column assignment (`computeNodeBreadths`, `moveSinksRight`, `scaleNodeBreadths`) places the nodes in columns and scales the columns to x positions.
4. The vertical solver (`computeNodeDepths`) sets each node's height from a global scale `ky`. It then alternates relaxation passes with collision resolution.
5. The link stacker (`computeLinkDepths`) sorts each node's links and stacks their bands. `relayout` runs only this stage.

The curve helper `sankey.link()` turns a stacked link into a cubic Bézier path.

The graph is an arena:

- the engine holds one sequence of node records and one of link records;
- a link names its endpoints by their index in the node sequence;
- a node names its links by their index in the link sequence.

The engine's closure state is `class Engine.Sankey`: `nodeWidth`, `nodePadding`, `size`, `nodes` and `links`. Each stage is a method that updates these fields with loops shaped like the original's. Each method is proved equal to a pure function of the old state. The lemmas in the pure modules prove what those functions promise.

| module | file | models |
|---|---|---|
| `Seqs` | seqs.dfy | `d3.sum` over index lists, and the comparator sorts (as a stable insertion sort) |
| `Graph` | graph.dfy | node and link records, `center` |
| `Linker` | linker.dfy | `computeNodeLinks`, `computeNodeValues` |
| `Layering` | layering.dfy | the frontier loop, `moveSinksRight`, `scaleNodeBreadths` |
| `Columns` | columns.dfy | the `d3.nest` grouping of nodes into columns |
| `Relaxation` | relaxation.dfy | `relaxLeftToRight`, `relaxRightToLeft` |
| `Collisions` | collisions.dfy | the two passes of `resolveCollisions` on one column's tops |
| `Depth` | depth.dfy | `initializeNodeDepth`, `resolveCollisions`, the damped rounds, `computeNodeDepths` |
| `Stacking` | stacking.dfy | `computeLinkDepths` |
| `Pipeline` | pipeline.dfy | `layout` as the composition of the stages |
| `Curve` | curve.dfy | `sankey.link()` |
| `Adapter` | adapter.dfy | the row-to-graph loop of `buildLinks` |
| `Engine` | engine.dfy | the `d3.sankey` object and its imperative stages |

## Model

| member | source | states |
|---|---|---|
| `Engine.Sankey.constructor` | sankey.js:3-8 | A new engine has node width 24, padding 8, size (1, 1) and no nodes or links. |
| `Engine.Sankey.SetNodeWidth` | sankey.js:10-14 | The setter replaces the node width and nothing else. |
| `Engine.Sankey.SetNodePadding` | sankey.js:16-20 | The setter replaces the padding and nothing else. |
| `Engine.Sankey.SetNodes` | sankey.js:22-26 | The setter replaces the node array and nothing else. |
| `Engine.Sankey.SetLinks` | sankey.js:28-32 | The setter replaces the link array and nothing else. |
| `Engine.Sankey.SetSize` | sankey.js:34-38 | The setter replaces the canvas size and nothing else. |
| `Engine.Sankey.Layout` | sankey.js:40-47 | On an acyclic graph, `layout` returns the number of layers. The new nodes and links are `LayoutOf` of the old ones: the five stages composed in order. `Pipeline.LayoutPlaced` and `Pipeline.LayoutSideTotals` state what that output satisfies. |
| `Engine.Sankey.PlaceNodes` | sankey.js:41-43 | The first three stages leave the nodes as `Laid` gives them, and return the layer count. |
| `Engine.Sankey.FinishLayout` | sankey.js:44-45 | The last two stages, run on nodes fit for them, give `Finished`. |
| `Engine.Sankey.Relayout` | sankey.js:49-52 | `relayout` is `computeLinkDepths` and nothing else. |
| `Engine.Sankey.ComputeNodeLinks` | sankey.js:82-95 | The lists are cleared and then refilled link by link. The nodes become `LinkNodes`: each link is once in its source's outgoing list and once in its target's incoming list, in link order. The links are not changed. |
| `Engine.Sankey.ClearLists` | sankey.js:83-86 | The first loop empties every node's two lists and changes nothing else. |
| `Engine.Sankey.ComputeNodeValues` | sankey.js:98-105 | Every node's value becomes the larger of its outgoing and incoming sums, as `ValueNodes` states. |
| `Engine.Sankey.ComputeNodeBreadths` | sankey.js:111-132 | The frontier loop stops after `steps` steps, the first count at which the frontier is empty. The nodes then carry their final column, its scaled x and the node width. |
| `Engine.Sankey.AssignLayers` | sankey.js:116-127 | The `while` loop, from the frontier of all nodes, ends with counter `x` at the first empty frontier. Each node's column is the last step at which it was in the frontier. |
| `Engine.Sankey.PushTargets` | sankey.js:121-123 | The targets of a node's outgoing links are appended to the next frontier in list order. |
| `Engine.Sankey.MoveSinksRight` | sankey.js:142-148 | Exactly the nodes without outgoing links move to column `x - 1`; every other node is unchanged. |
| `Engine.Sankey.ScaleNodeBreadths` | sankey.js:150-154 | Every node's x becomes its column times `kx`, and is undefined (NaN) when `kx` is. Nothing else changes. |
| `Engine.Sankey.ComputeNodeDepths` | sankey.js:156-171 | Nodes and links become `Depths` of the old ones: initialisation, one collision pass, then `iterations` damped rounds. |
| `Engine.Sankey.RunRounds` | sankey.js:166-171 | The loop carries `alpha` from 1, multiplies it by 0.99 before each round, and reaches `Rounds`. |
| `Engine.Sankey.RunRound` | sankey.js:167-170 | One round is a right-to-left pass, a collision pass, a left-to-right pass with the same `alpha`, and a collision pass. |
| `Engine.Sankey.InitializeNodeDepth` | sankey.js:173-188 | With `ky` the least column candidate, every node gets `y` = its position in its column and `dy = value * ky`. Every link gets `dy = value * ky`. |
| `Engine.Sankey.PlaceColumns` | sankey.js:180-185 | The column loop gives every node its position and its height as `InitNodes` states. |
| `Engine.Sankey.ScaleLinks` | sankey.js:187-189 | Every link's thickness becomes its value times `ky`. |
| `Engine.Sankey.RelaxLeftToRight` | sankey.js:190-203 | The columns are visited left to right and each node in turn, Gauss-Seidel style. Each node is pulled towards the weighted centres of its sources, as `RelaxAll` states. |
| `Engine.Sankey.RelaxRightToLeft` | sankey.js:205-218 | The same pass right to left, pulling each node towards the weighted centres of its targets. |
| `Engine.Sankey.RelaxOne` | sankey.js:193-196 | One node's step is `RelaxNode`: it moves only when it has links on the relaxed side. |
| `Engine.Sankey.ResolveCollisions` | sankey.js:220-251 | The columns are resolved one after another, as `ResolveColumns` states. The sorted columns are kept for the next pass. |
| `Engine.Sankey.SettleColumn` | sankey.js:228-249 | One column is sorted by top, pushed down and, when it overflows, pushed back up, as `ResolveColumn` states. |
| `Engine.Sankey.PushDown` | sankey.js:228-235 | The downward pass leaves the column's tops at `Down` of the sorted tops. It returns the accumulator `y0`. |
| `Engine.Sankey.PushUp` | sankey.js:237-249 | When the column overflows, the upward pass leaves its tops at `Up` of the pushed-down tops. |
| `Engine.Sankey.ComputeLinkDepths` | sankey.js:258-282 | The nodes and links become `LinkDepths`: each list is sorted, then the bands are stacked. |
| `Engine.Sankey.SortLists` | sankey.js:259-262 | Each node's outgoing list is sorted by target top and its incoming list by source top (`SortAdjacency`). |
| `Engine.Sankey.StackLinks` | sankey.js:263-274 | For each node in turn, the links of its outgoing list get `sy` and then those of its incoming list get `ty`, as `StackFrom` states. |
| `Engine.Sankey.StackList` | sankey.js:265-268 | One inner loop writes the running sum of thicknesses into each listed link, as `StackSide` states. |
| `Linker.LinksFromExactlyOnce` | sankey.js:87-94 | Link j is in node v's outgoing list exactly when v is its source. It is there once, and the list keeps link order. |
| `Linker.LinksIntoExactlyOnce` | sankey.js:87-94 | Link j is in node v's incoming list exactly when v is its target. It is there once, in link order. |
| `Linker.FlowIsCountedOnce` | sankey.js:87-94 | Summed over all nodes, the outgoing sums and the incoming sums each equal the total link value: no link is lost or doubled. |
| `Linker.GroupTotalIsTotal` | sankey.js:87-94 | Grouping positions by a key in range loses and repeats nothing. |
| `Linker.NodeValueBounds` | sankey.js:98-105 | A node's value is at least each side sum and equals one of them. A node with no links has value 0. Non-negative flows give a non-negative value. |
| `Layering.AdvanceMember` | sankey.js:118-125 | A node enters the next frontier exactly when a link from the current frontier ends at it. |
| `Layering.FrontierEmpty` | sankey.js:116 | The frontier list is empty exactly when the set of nodes it holds is. |
| `Layering.FrontierInRange` | sankey.js:116-127 | Every frontier names nodes of the arena. |
| `Layering.ReachIsWalks` | sankey.js:116-127 | A node is in the frontier after k steps exactly when some walk of k links ends at it. |
| `Layering.LastLayerStep` | sankey.js:118-120 | One more step overwrites the layer of exactly the nodes in the current frontier. |
| `Layering.LayeredStep` | sankey.js:118-120 | A step writes column x and the node width on the frontier's nodes and leaves the others alone. |
| `Layering.LayerIsLongestWalk` | sankey.js:111-127 | When the loop stops, a node's layer is the length of the longest walk ending at it. |
| `Layering.LayerCountIsLongestWalkPlusOne` | sankey.js:114-127 | The final counter `x` is one more than the longest walk in the graph. |
| `Layering.SourceNodeLayerZero` | sankey.js:116-127 | A node that no link enters keeps layer 0. |
| `Layering.CycleKeepsFrontier` | sankey.js:116-127 | On a graph with a cycle the frontier never empties, so the loop never ends. |
| `Layering.RankedStops` | sankey.js:116-127 | Under a topological numbering, the frontier is empty once the step count passes every rank. |
| `Layering.LayerCountStops` | sankey.js:116-127 | On an acyclic graph the loop stops after `LayerCount` steps, and at no earlier step. |
| `Layering.LinksGoRight` | sankey.js:116-148 | After `moveSinksRight`, every link's target is in a later column than its source. |
| `Layering.FinalBreadthPlacement` | sankey.js:142-148 | Every column is at most `x - 1`. A node is in column `x - 1` exactly when it has no outgoing link, isolated nodes included. A pure source is in column 0. |
| `Layering.ColumnScalePlacement` | sankey.js:131 | With more than one layer, `kx` is a number and the last column lands at `width - nodeWidth`. Positions grow with the column when `width >= nodeWidth`. |
| `Columns.ColumnsPartition` | sankey.js:157-161 | The grouping partitions the nodes into columns ordered by column. A node's place in its column is the number of earlier nodes in the same column. |
| `Columns.GroupedDisjoint` | sankey.js:157-161 | No node appears in two places of the grouping. |
| `Columns.PermutedGrouped` | sankey.js:228 | Sorting inside the columns keeps the grouping and the cover. |
| `Depth.KyIsLeast` | sankey.js:174-176 | `ky` is no larger than any column's candidate `(height - (n - 1) * padding) / sum` and equals one of them. |
| `Depth.KyFitsColumns` | sankey.js:174-188 | At scale `ky` every column's heights plus gaps fit in the height, and the limiting column fills it exactly. |
| `Depth.ColumnFitsAt` | sankey.js:174-183 | A column at a scale no larger than its candidate fits, and fits exactly when the scale is its candidate. |
| `Depth.KyNonNegative` | sankey.js:174-176 | With non-negative values and padding that fits alone, `ky` is non-negative. |
| `Depth.InitPlacesByPosition` | sankey.js:180-185 | After initialisation the i-th node of every column has top i. |
| `Depth.InitColumn` | sankey.js:180-185 | The i-th node of a column starts with top i and height value times `ky`. |
| `Depth.InitFits` | sankey.js:173-188 | The initial heights fit every column into the canvas. |
| `Depth.ResolveColumnTouchesOnly` | sankey.js:221-250 | Resolving a column moves no node outside it. |
| `Depth.ResolveColumnPlaces` | sankey.js:220-251 | A column that fits, with upright nodes, ends with its nodes inside [0, height], in the column's new order and each at least the padding below the one before. |
| `Depth.ResolveAllPlaces` | sankey.js:220-251 | Resolving every column of a fitting, disjoint layout places every column. |
| `Depth.DampingShrinks` | sankey.js:166-167 | The damping factor stays in (0, 1] and shrinks every round; round 1 already uses 0.99. |
| `Depth.HalfRoundPlaces` | sankey.js:167-170 | A relaxation pass followed by collision resolution leaves a fitting layout settled. |
| `Depth.RoundsPlace` | sankey.js:166-171 | Starting settled, the layout is settled after every round. |
| `Depth.DepthsPlaced` | sankey.js:156-188 | After `computeNodeDepths`, with non-negative values and padding, the columns still group every node by column, and every column is sorted, inside [0, height] and padded. Only the tops have moved since initialisation, and link thicknesses are value times `ky`. |
| `Depth.DepthsGrouped` | sankey.js:157-161 | The final column lists group every node by column and cover them all. |
| `Depth.DepthsSettled` | sankey.js:156-171 | The final layout is settled. |
| `Depth.InitThenMoved` | sankey.js:173-188 | A node moved after initialisation differs from the original only in its top and in its height, which is value times `ky`. |
| `Depth.ResolveColumn` | sankey.js:221-250 | Resolving one column moves only tops and keeps the column's nodes, reordered. |
| `Depth.Depths` | sankey.js:156-171 | `computeNodeDepths` moves only tops after initialisation, reorders only within columns, and sets link thicknesses to value times `ky`. |
| `Relaxation.RelaxNodeApproachesMean` | sankey.js:192-197 | Relaxing a node moves no other node and keeps its height. A node with no links on the relaxed side stays where it is. Otherwise the gap between its centre and the value-weighted mean `m` of its neighbours' centres shrinks by the factor `1 - alpha`. With non-negative link values, `m` lies between the lowest and the highest neighbour centre. The right-to-left pass (sankey.js:207-212) is the same step towards targets. |
| `Relaxation.StepCloses` | sankey.js:196 | A step closes the gap between centre and target by the factor `1 - alpha`. With `alpha = 1` the centre lands on the target. The height is unchanged. |
| `Relaxation.MeanBetween` | sankey.js:195 | With non-negative values, the weighted mean lies between the lowest and highest neighbour centres. |
| `Relaxation.RelaxAll` | sankey.js:192-197 | A pass moves only tops, and only of the nodes it visits. |
| `Relaxation.WeightedIgnoresTops` | sankey.js:190-218 | Moving nodes keeps every division of the passes well defined. |
| `Collisions.DownPass` | sankey.js:229-235 | The downward pass only increases tops. Afterwards the first top is at least 0 and each node ends at least `padding` above the next. |
| `Collisions.DownIdempotent` | sankey.js:229-235 | Pushing down a column that was already pushed down changes nothing. |
| `Collisions.SeparatedPairwise` | sankey.js:229-235 | In a separated column, every node ends at least `padding` above every later node. |
| `Collisions.UpPass` | sankey.js:237-249 | The last node's bottom is set exactly to the height. When the column overflowed, the upward pass only lowers tops and keeps the gaps. |
| `Collisions.UpPassIgnoresTop` | sankey.js:243-248 | There is no clamp at 0: two nodes of height 10 without padding on a canvas of height 10 end with the first at -10. |
| `Collisions.ResolvedFits` | sankey.js:228-249 | When the heights and gaps fit in the height, the resolved column is separated and lies inside [0, height]. |
| `Seqs.SortBySorted` | sankey.js:228 | The sort by a key returns its input sorted by that key. |
| `Seqs.SortBySameKeys` | sankey.js:259-262 | Only the keys of the listed entries matter to the sort. |
| `Stacking.LinkedOwned` | sankey.js:87-94 | The lists the linker builds name each link once, on its source's outgoing side and its target's incoming side. |
| `Stacking.SortAdjacencyOwned` | sankey.js:259-262 | Sorting the lists reorders each one and changes nothing else about a node. |
| `Stacking.LinkDepthsSorted` | sankey.js:259-262 | Outgoing lists end sorted by the top `y` of each target, not its centre, and incoming lists by the top of each source. Each list holds the same links as before. |
| `Stacking.SortedByFinalTops` | sankey.js:276-282 | The lists are sorted by the tops of the nodes the stage leaves. |
| `Stacking.LinkDepthsAt` | sankey.js:258-274 | Every link ends with the offsets of its place in its two endpoints' sorted lists. |
| `Stacking.StackFromAt` | sankey.js:263-274 | The stacking loop writes each link's `sy` in its source's outgoing list and its `ty` in its target's incoming list, and keeps its other fields. |
| `Stacking.StackSideAt` | sankey.js:265-268 | One inner loop writes exactly the links of its list, each with its running offset. |
| `Stacking.OffsetIsPrefixSum` | sankey.js:265-268 | In a duplicate-free list, a link's offset is the total thickness of the links before it. |
| `Stacking.OutgoingOffset` | sankey.js:265-268 | The i-th outgoing link sits at the total thickness of the i links sorted before it. |
| `Stacking.IncomingOffset` | sankey.js:269-272 | The i-th incoming link sits at the total thickness of the i links sorted before it. |
| `Stacking.OutgoingContiguous` | sankey.js:265-268 | The first outgoing offset is 0 and each next one is the previous offset plus the previous thickness. |
| `Stacking.IncomingContiguous` | sankey.js:269-272 | The first incoming offset is 0 and each next one is the previous offset plus the previous thickness. |
| `Stacking.StackedLinks` | sankey.js:263-274 | Every link is as `Stacked` gives it, with its thickness kept, and the sorted nodes still own the links. |
| `Stacking.SideTotals` | sankey.js:263-274 | With thicknesses value times a non-negative `ky`, each side's total thickness is at most the node's height, and the heavier side fills it. |
| `Stacking.LinkDepthsIdempotent` | sankey.js:49-52 | `relayout` with no node moved since the last stacking changes nothing. |
| `Stacking.TopsKept` | sankey.js:276-282 | Sorting and stacking leave the sort keys as they were. |
| `Pipeline.LaidAt` | sankey.js:41-43 | After the first three stages each node has the linker's lists, the larger side sum as value, its final column, that column's scaled x and the node width. Nothing else changes. |
| `Pipeline.LaidOwned` | sankey.js:41-43 | The first three stages keep the linker's lists. |
| `Pipeline.LayoutReady` | sankey.js:40-47 | Nodes fit for `layout` stay fit for its last two stages. |
| `Pipeline.LayoutStages` | sankey.js:40-47 | `computeNodeDepths` changes only tops, heights and link thicknesses, and `computeLinkDepths` runs on its output. |
| `Pipeline.DepthsShape` | sankey.js:156-188 | `computeNodeDepths` changes only nodes' tops and heights and links' thicknesses. |
| `Pipeline.LayoutNodes` | sankey.js:40-47 | After `layout`, each node is as the first three stages left it, apart from its top, its height and the order of its lists. The lists hold the linker's links. |
| `Pipeline.LayoutSorted` | sankey.js:40-47 | After `layout`, every node's outgoing links are in ascending order of target top and its incoming links in ascending order of source top. |
| `Pipeline.LayoutLinks` | sankey.js:40-47 | After `layout`, every link keeps its endpoints and value. Its offsets are the total thickness of the links before it in its endpoints' sorted lists. |
| `Pipeline.LayoutThenRelayout` | sankey.js:40-52 | `relayout` right after `layout` changes nothing. |
| `Pipeline.LayoutPlaced` | sankey.js:40-47 | After `layout`, with non-negative padding and link values and every column's gaps fitting in the canvas, the nodes can be grouped by column so that in every column the nodes lie inside [0, height], in order of top, each at least the padding below the bottom of the one before. |
| `Pipeline.LayoutSideTotals` | sankey.js:40-47 | After `layout`, with every column's gaps fitting in the canvas, the links on each side of a node are together no thicker than the node, and the links on its heavier side fill its height exactly. |
| `Curve.LerpBetween` | sankey.js:60-62 | The interpolation starts at `a` and ends at `b`. For `t` in [0, 1] it stays between them. |
| `Curve.PathShape` | sankey.js:57-69 | The path starts at the source node's right edge, in the middle of the link's band, and ends at the target's left edge, in the middle of its band. The control points sit at their ends' heights, symmetric about the midpoint, and coincide at curvature 0.5. The path is undefined exactly when an endpoint's x is NaN. |
| `Adapter.BuildLinks` | sankey.js:355-379 | The imperative row loop, with its name dictionary, gives exactly `Build` of all rows. |
| `Adapter.AddNameTo` | sankey.js:359-365 | `addName` appends a name not seen before and records its index. The dictionary keeps mapping every name to its index. |
| `Adapter.IndexesIndexOf` | sankey.js:375 | `nameDict[s]` is the index of the first occurrence of `s` among the names. |
| `Adapter.DedupFirstAppearance` | sankey.js:359-365 | The kept names are distinct and are exactly the mentioned names, in order of first appearance. |
| `Adapter.BuildThrowsAtFirstBreak` | sankey.js:369-371 | The adapter throws exactly at the first row that passes the filter with a null target. It finishes when there is no such row. |
| `Adapter.BuildThrowsSticks` | sankey.js:369-371 | After a throw, later rows change nothing. |
| `Adapter.BuildNames` | sankey.js:366-377 | The node names are those of the accepted rows, deduplicated in order of first appearance. A skipped self-loop adds no name. |
| `Adapter.BuildIdxs` | sankey.js:375 | There is one link per accepted row, in row order, carrying the row number as `idx`. |
| `Adapter.BuildFlows` | sankey.js:366-377 | Every link comes from an earlier accepted row, names that row's endpoints, is no self-loop and has a non-negative value. |
| `Adapter.BuildDistinct` | sankey.js:359-365 | The names are distinct. |
| `Adapter.ArenaValid` | sankey.js:366-377 | The graph handed to the engine has valid endpoints, no self-loop and no negative value. |

## Left out

- Rendering, tooltips, colours, mouse and drag handlers, and the widget lifecycle are not modelled. They are presentation glue over D3 and the DOM. `dragmove` clamps a node's `y` into `[0, height - dy]` before it calls `relayout`; only `relayout` itself is modelled.
- The SVG path string is not modelled: it depends on JavaScript number formatting. `Curve.LinkPath` returns the four points.
- Floating point is modelled as exact `real` arithmetic. NaN appears only where the model states it: as `None` for the x scale of a single-layer graph and for the value cell of a row.
- Engine.Sankey.ComputeNodeBreadths requires a topological numbering `rank`, because the original loops forever on a graph with a cycle. `Layering.CycleKeepsFrontier` proves that divergence.
- Engine.Sankey.Layout requires that numbering too. It also requires `Layable`: every non-empty side has a positive value sum and every column has a positive value sum. Otherwise the original divides by zero and spreads NaN, which the model does not reproduce.
- Engine.Sankey.ComputeNodeDepths requires `Weighted` and `ColumnsWeighed` for the same reason.
- Engine.Sankey.Layout takes no height argument. `computeNodeBreadths(w, h)` never reads `h`, and the vertical solver reads `size[1]`, which the model reads too.
- Columns.Nest groups nodes by their integer column, not by the string of their scaled `x`. The original sorts these string keys lexicographically, so with ten or more columns, or differently sized keys such as "96" and "192", its column order can differ from the numeric one. Only the order of the relaxation passes depends on that order. When `width == nodeWidth`, every scaled `x` is 0 and the original makes a single group of all nodes; the model keeps the columns apart.
- Seqs.SortBy is a stable insertion sort. The original's comparator sorts promise no stability, so nodes or links with equal tops may end in another order there.
- Object references are modelled as indices. `computeNodeLinks` also accepts endpoints that are already node objects; the model always starts from indices, as the adapter produces them.
- `moveSourcesRight` (sankey.js:134-140) is never called and is not modelled.
- The comparators of `computeLinkDepths` read node tops while sorting. The model reads every top once before the sort, which is the same, because sorting moves no node.
- The adapter's `nameDict` is a plain object. Names such as `__proto__` or `hasOwnProperty` behave differently there than in the model's map.
- `Number(...)` and `toString()` of a cell are not modelled. A value cell is given as a number or NaN, and a name cell as its text or null.
