# CSSBox PDF pagination, in Dafny

CSSBox lays out an HTML document as one tall page. The PDF renderers of
this library then cut that page into printed pages. Both renderer packages, `pdf` and
`render`, work the same way:

- **TREE and LIST.** The layout engine reports every box in document order: elements,
  text, replaced content and list markers. For each box the renderer builds two `Node`
  objects, one in each structure:
  - The TREE follows the box hierarchy. A box whose parent is not in the TREE yet
    waits in `nodesWithoutParent`, tagged with its parent's id.
  - The LIST keeps every box in reporting order, each node referring to its TREE
    counterpart.
  - Children are kept ordered by their content top.
- **Break and avoid tables.** When the document is closed:
  - Waiting nodes are attached where possible.
  - A breadth-first walk of the TREE turns the CSS `page-break-before`,
    `page-break-after` and `page-break-inside` properties into records
    `[start, end, breakPoint]` of two tables ordered by start.
  - The `breakTable` lists forced breaks. The `avoidTable` lists intervals no page
    boundary should cut.
  - Avoid intervals wider than 0.8 of a page are dropped, and overlapping ones are
    merged.
- **Breaking.** `makePaging` walks a page end down the document. At each step it asks
  `makeBreakAt` for a break:
  - at an avoid record's break point, when an avoid record encloses the page end;
  - at a break record's break point;
  - or at the page end itself.

  `makeBreakAt(line1)` does the following:
  - It raises the cut line above any text, replaced content or marker that the line
    would cut (twice: `line2`, then `line3`).
  - It computes the space `delta` that brings the content below the cut to the next
    page boundary plus both paddings.
  - It moves or stretches every TREE node below the cut by that amount.
  - It moves both tables down by the same amount, grows the document and recounts
    the pages.

The model also covers the following helpers:
- the `FontCache` of created PDF fonts;
- the two `FontDB` tables of TrueType files, and how each picks a file for a family
  and style;
- the render package's `BorderRadius` corner computation;
- the two per-text decisions of the render package's output pass:
  - whether a text overhangs its grandparent too far to be drawn;
  - on which pages it appears.

Modules:

- `Common` (common.dfy): options, duplicate-freedom, Java's truncating
  division, 32-bit wrap-around, ceiling, ASCII lower-casing.
- `Nodes` (nodes.dfy): `pdf/Node.java`. It models one record per Java `Node` in an
  arena of nodes, indexed by position, where `-1` is Java's `null`. The arena
  carries ghost ownership and depth so the TREE can be reasoned about as a forest.
- `BreakTables` (tables.dfy): the table operations `insertIntoTable`,
  `deleteAvoidsBiggerThan`, `mergeAvoids` and `updateTables`, on sequences of
  records.
- `Geometry` (geometry.dfy): the settings of each package, node extents, the
  neighbour and extent queries, the records each element contributes, the cut lines
  and the per-node effect of a break.
- `Paging` (renderer.dfy): the `PDFRenderer` class. Its fields are the TREE/LIST
  cursors, the waiting list, both tables, the document height, the page count and
  the page end. Its methods are the event handlers, `close`, and the paging steps.
  A `Config` value selects the `pdf` or the `render` package.
- `Fonts` (fonts.dfy): `pdf/FontCache.java`, `pdf/FontDB.java`, `render/FontDB.java`.
- `Borders` (borders.dfy): `render/BorderRadius.java`.
- `Emission` (emission.dfy): the text checks of `render/PDFRenderer.java`'s
  `writeAllElementsToPDF` and `insertText`.

### Units and the two packages

A `Config` holds what differs between the packages. Both use the same page-count
formula, `ceil(rootHeight * resCoef / formatHeight)`.

| | `pdf` package | `render` package |
|---|---|---|
| Scale of layout coordinates | 1 | `resCoef = formatWidth / rootWidth` |
| Page height | `formatHeight / resCoef` | `formatHeight` |
| Paddings | 50 each | `formatHeight / 100` each |
| `Crossing` test that decides whether a parent grows | multiplies | adds |
| List markers | rendered | ignored |

In the pdf package the crossing test multiplies position by offset and height by added
height. The model keeps this as written (`Geometry.CrossingTestsDisagree` shows an
element the two packages treat differently).

## Model

Source paths are relative to the repository root.

| member | source | states |
|---|---|---|
| Common.JavaDiv | src/main/java/org/fit/cssbox/render/BorderRadius.java:57-58 | Java's `int` division truncates toward zero: the remainder `a - b * q` lies in `[0, b)` for a non-negative dividend and in `(-b, 0]` for a negative one |
| Common.JavaDivUnique | src/main/java/org/fit/cssbox/render/BorderRadius.java:57-58 | those bounds leave exactly one quotient, so `JavaDiv` is Java's `/` and nothing else |
| Common.Wrap32 | src/main/java/org/fit/cssbox/pdf/FontCache.java:70-75 | the result is a 32-bit signed `int` congruent to the input modulo 2^32 (Java `int` overflow) |
| Common.Ceil | src/main/java/org/fit/cssbox/pdf/PDFOutput.java:103 | `Math.ceil`: the least integer not below `x` |
| Common.Lower | src/main/java/org/fit/cssbox/pdf/FontCache.java:62 | `toLowerCase` maps each character on its own and keeps the length; upper-case ASCII letters become lower-case, everything else is kept |
| Common.LowerIdempotent | src/main/java/org/fit/cssbox/pdf/FontCache.java:62 | lower-casing twice is lower-casing once |
| Nodes.NewNodeRec | src/main/java/org/fit/cssbox/pdf/Node.java:36-48 | a new node has the given parent, payload and TREE reference, no children, zero offset and added height, and no pending parent id (-1) |
| Nodes.MarkerIsAnonymous | src/main/java/org/fit/cssbox/pdf/Node.java:167-258 | a marker node (only `item` set) has id -1, and top and height -1 |
| Nodes.InsertPos | src/main/java/org/fit/cssbox/pdf/Node.java:126-135 | the insertion slot is after every child whose top is at or above the new top and at the first child strictly below it |
| Nodes.InsertPosIs | src/main/java/org/fit/cssbox/pdf/Node.java:126-135 | any slot with that property is the one `InsertPos` returns (the slot is unique) |
| Nodes.InsertKeepsSorted | src/main/java/org/fit/cssbox/pdf/Node.java:126-135 | inserting at that slot keeps children ordered by top, and a new child goes after children with the same top |
| Nodes.PlaceKeepsArena | src/main/java/org/fit/cssbox/pdf/Node.java:131-135 | hanging a parentless, childless node below another keeps the arena a forest: every child has exactly one owner, one level deeper |
| Nodes.BfsStep | src/main/java/org/fit/cssbox/pdf/PDFRenderer.java:478-489 | one step of a `queueOpen` walk (visit the head, append its children) keeps the walk's invariant |
| Nodes.SubtreeUnique | src/main/java/org/fit/cssbox/pdf/Node.java:89-95 | the set of descendants of a node is uniquely determined by the children lists |
| Nodes.NodeArena.NewNode | src/main/java/org/fit/cssbox/pdf/Node.java:36-48 | `new Node(...)` appends exactly the record `NewNodeRec` describes, owned by nobody, and changes no other node |
| Nodes.NodeArena.FindSlot | src/main/java/org/fit/cssbox/pdf/Node.java:126-134 | the children loop stops at `InsertPos` of the children's tops |
| Nodes.NodeArena.PlaceChild | src/main/java/org/fit/cssbox/pdf/Node.java:131-135 | `nodeChildren.add(k, child)`: the child list gains the child at slot `k`, and the child's owner becomes the parent; nothing else changes |
| Nodes.NodeArena.InsertNewNode | src/main/java/org/fit/cssbox/pdf/Node.java:100-137 | `insertNewNode(payload)`: a new node is appended with this parent and slotted among the parent's children by the payload's top; nothing else changes |
| Nodes.NodeArena.InsertExisting | src/main/java/org/fit/cssbox/pdf/Node.java:142-162 | `insertNewNode(Node)`: null is returned unchanged; otherwise the node is slotted among the parent's children by its own top and returned |
| Nodes.NodeArena.Adopt | src/main/java/org/fit/cssbox/pdf/Node.java:142-162 | a waiting node is slotted among the parent's children at `InsertPos` of their tops and the node's own top; only the parent's child list and the node's owner and depth change |
| Nodes.NodeArena.GetAllChildren | src/main/java/org/fit/cssbox/pdf/Node.java:89-95 | `getAllChildren` is null exactly when there are no children, otherwise a copy of the child list |
| Nodes.NodeArena.AddPlusOffset | src/main/java/org/fit/cssbox/pdf/Node.java:350-353 | only that node's offset changes, by the given amount |
| Nodes.NodeArena.AddPlusHeight | src/main/java/org/fit/cssbox/pdf/Node.java:366-369 | only that node's added height changes, by the given amount |
| Nodes.NodeArena.SetPendingParent | src/main/java/org/fit/cssbox/pdf/Node.java:73-76 | only that node's remembered parent id changes |
| Nodes.NodeArena.BreadthFirst | src/main/java/org/fit/cssbox/pdf/PDFRenderer.java:502-652 | a `queueOpen` walk visits each node once, visits every start node and every child of a visited node, and visits nothing else; its order is `QueueOrder`: the head of the queue, then the walk of the rest of the queue followed by the head's children in list order |
| Nodes.NodeArena.WalkCoversSubtree | src/main/java/org/fit/cssbox/pdf/PDFRenderer.java:502-652 | the nodes a walk from a root visits are exactly the root and its descendants |
| Nodes.NodeArena.WalkCoversDescendants | src/main/java/org/fit/cssbox/pdf/PDFRenderer.java:860-884 | a walk started from a node's children visits exactly that node's descendants |
| BreakTables.InsertIntoTable | src/main/java/org/fit/cssbox/pdf/PDFRenderer.java:658-673 | the record goes before the first record with a strictly larger start; the table gains exactly that record and stays ordered by start |
| BreakTables.InsertAtMultiset | src/main/java/org/fit/cssbox/pdf/PDFRenderer.java:666 | inserting adds exactly one copy of the record |
| BreakTables.InsertAtSorted | src/main/java/org/fit/cssbox/pdf/PDFRenderer.java:662-672 | inserting at the slot `insertIntoTable` finds keeps the table ordered |
| BreakTables.InsertEachAppend | src/main/java/org/fit/cssbox/pdf/PDFRenderer.java:520-644 | inserting two batches of records one after the other is inserting their concatenation |
| BreakTables.InsertEachProperties | src/main/java/org/fit/cssbox/pdf/PDFRenderer.java:520-644 | inserting a batch adds exactly its records and keeps an ordered table ordered |
| BreakTables.InsertAll | src/main/java/org/fit/cssbox/pdf/PDFRenderer.java:520-644 | repeated `insertIntoTable`: the table gains exactly the records and stays ordered |
| BreakTables.DeleteAvoidsBiggerThan | src/main/java/org/fit/cssbox/pdf/PDFRenderer.java:679-686 | the loop as written, including the record after each removal that is skipped: only records wider than the limit are removed, the result is a sub-multiset, and order is kept |
| BreakTables.DeleteStepWide | src/main/java/org/fit/cssbox/pdf/PDFRenderer.java:683-684 | removing a wide record at `i` and moving on to `i + 1` matches the specification |
| BreakTables.DeleteStepKeep | src/main/java/org/fit/cssbox/pdf/PDFRenderer.java:681-683 | keeping a narrow record and moving on matches the specification |
| BreakTables.DeleteWideProperties | src/main/java/org/fit/cssbox/pdf/PDFRenderer.java:679-686 | the result is no longer, a sub-multiset of the table, only wide records go, and order is kept |
| BreakTables.DeleteWideSplit | src/main/java/org/fit/cssbox/pdf/PDFRenderer.java:679-686 | the table splits exactly into the kept records and the dropped ones |
| BreakTables.DroppedWide | src/main/java/org/fit/cssbox/pdf/PDFRenderer.java:683 | every dropped record is wide |
| BreakTables.DeleteWideSorted | src/main/java/org/fit/cssbox/pdf/PDFRenderer.java:679-686 | the kept records come from the table, in order |
| BreakTables.DeleteSkipsFollower | src/main/java/org/fit/cssbox/pdf/PDFRenderer.java:681-684 | after removing a wide first record the next one is kept unchecked, even if it is wide too |
| BreakTables.Absorb | src/main/java/org/fit/cssbox/pdf/PDFRenderer.java:706-711 | merging keeps the earlier record's start and break point and extends its end only to a later, larger end within the limit |
| BreakTables.MergeAvoids | src/main/java/org/fit/cssbox/pdf/PDFRenderer.java:691-715 | after merging, consecutive records no longer overlap, the table is no longer, order is kept, and no record wider than the limit appears if none was there |
| BreakTables.MergeStep | src/main/java/org/fit/cssbox/pdf/PDFRenderer.java:697-712 | each of the three branches of one loop iteration matches the specification |
| BreakTables.MergeRunShape | src/main/java/org/fit/cssbox/pdf/PDFRenderer.java:691-715 | a merge run is non-empty, no longer than its input, and starts where its first record starts |
| BreakTables.MergeRunGaps | src/main/java/org/fit/cssbox/pdf/PDFRenderer.java:697 | no two consecutive merged records overlap |
| BreakTables.MergeRunSorted | src/main/java/org/fit/cssbox/pdf/PDFRenderer.java:691-715 | merging keeps the order by start |
| BreakTables.MergeRunNarrow | src/main/java/org/fit/cssbox/pdf/PDFRenderer.java:700-709 | merging never creates a record wider than the limit |
| BreakTables.MergeProperties | src/main/java/org/fit/cssbox/pdf/PDFRenderer.java:691-715 | the four properties of `MergeAvoids` hold of the merge specification |
| BreakTables.ShiftedTwice | src/main/java/org/fit/cssbox/pdf/PDFRenderer.java:720-735 | shifting by `d1` and then by `d2` is shifting by `d1 + d2` |
| BreakTables.ShiftTable | src/main/java/org/fit/cssbox/pdf/PDFRenderer.java:720-735 | `updateTables`: every field of every record moves by the same amount |
| BreakTables.ShiftPreserves | src/main/java/org/fit/cssbox/pdf/PDFRenderer.java:720-735 | a shift keeps order, widths and gaps, and shifting back restores the table |
| Geometry.PdfConfig | src/main/java/org/fit/cssbox/pdf/PDFOutput.java:74-148 | pdf package: scale 1, page height times `resCoef` equals the format height, multiplying crossing test, markers drawn; paging is meaningful |
| Geometry.RenderConfig | src/main/java/org/fit/cssbox/render/PDFRenderer.java:188-198 | render package: scale `resCoef`, page height the format height, paddings one hundredth of it, adding crossing test, no markers |
| Geometry.BestAboveUnique | src/main/java/org/fit/cssbox/pdf/PDFRenderer.java:762-784 | the candidate `getElementAbove` keeps is a unique child position |
| Geometry.BestBelowUnique | src/main/java/org/fit/cssbox/pdf/PDFRenderer.java:808-835 | the candidate `getElementBelow` keeps is a unique child position |
| Geometry.AboveUnique | src/main/java/org/fit/cssbox/pdf/PDFRenderer.java:747-786 | `getElementAbove` has exactly one answer |
| Geometry.BelowUnique | src/main/java/org/fit/cssbox/pdf/PDFRenderer.java:793-837 | `getElementBelow` has exactly one answer |
| Geometry.ScanAbove | src/main/java/org/fit/cssbox/pdf/PDFRenderer.java:760-785 | null exactly when no sibling with another id ends at or above the node's top; otherwise, among those, the last one with the lowest bottom |
| Geometry.ScanBelow | src/main/java/org/fit/cssbox/pdf/PDFRenderer.java:805-836 | null exactly when no sibling with another id starts at or below the node's bottom; otherwise, among those, the last one with the highest top |
| Geometry.TopScanStep | src/main/java/org/fit/cssbox/pdf/PDFRenderer.java:870-883 | one node of the `getFirstTop` walk keeps the running minima correct |
| Geometry.BottomScanStep | src/main/java/org/fit/cssbox/pdf/PDFRenderer.java:898-947 | one node of the `getLastBottom` walk keeps the running maxima correct |
| Geometry.TopScanResult | src/main/java/org/fit/cssbox/pdf/PDFRenderer.java:885-888 | a non-empty walk yields the highest non-element top, or the highest element top when there are no non-elements |
| Geometry.BottomScanResult | src/main/java/org/fit/cssbox/pdf/PDFRenderer.java:898-947 | the same for the lowest bottom |
| Geometry.HighestTop | src/main/java/org/fit/cssbox/pdf/PDFRenderer.java:854-888 | the two running minima of `getFirstTop` over a non-empty walk give the highest considered top |
| Geometry.LowestBottom | src/main/java/org/fit/cssbox/pdf/PDFRenderer.java:898-947 | the two running maxima of `getLastBottom` give the lowest considered bottom |
| Geometry.FirstTopUnique | src/main/java/org/fit/cssbox/pdf/PDFRenderer.java:845-891 | `getFirstTop` has exactly one answer |
| Geometry.LastBottomUnique | src/main/java/org/fit/cssbox/pdf/PDFRenderer.java:898-947 | `getLastBottom` has exactly one answer |
| Geometry.AvoidRecordsShape | src/main/java/org/fit/cssbox/pdf/PDFRenderer.java:573-644 | an element adds one avoid record per `avoid` property; each breaks one unit above its start, and the `page-break-inside` one spans the content box plus one unit above |
| Geometry.BreakRecordsShape | src/main/java/org/fit/cssbox/pdf/PDFRenderer.java:520-570 | an element adds one break record per `always` property, breaking at its content top (before) or content bottom (after) |
| Geometry.FirstThrowing | src/main/java/org/fit/cssbox/pdf/PDFRenderer.java:526-529 | finds the first node of the walk where `getParentNode().getElemY()` dereferences null: an element with `page-break-before: always` and no parent |
| Geometry.RecordsOfNextNode | src/main/java/org/fit/cssbox/pdf/PDFRenderer.java:506-652 | the tables after `i + 1` nodes of the walk are the tables after `i` nodes plus the records of node `i` |
| Geometry.AddNodeRecords | src/main/java/org/fit/cssbox/pdf/PDFRenderer.java:511-645 | one iteration of the table walk inserts exactly that node's records |
| Geometry.AddAllRecords | src/main/java/org/fit/cssbox/pdf/PDFRenderer.java:506-652 | the walk inserts the records of every node in walk order, keeping both tables ordered |
| Geometry.AllAvoidsBreakAbove | src/main/java/org/fit/cssbox/pdf/PDFRenderer.java:593-640 | every avoid record breaks one unit above its start |
| Geometry.BreakRecordsAtEdges | src/main/java/org/fit/cssbox/pdf/PDFRenderer.java:537-566 | every break record of an element breaks at its content top or bottom |
| Geometry.AllBreaksAtContentEdges | src/main/java/org/fit/cssbox/pdf/PDFRenderer.java:520-570 | every break record of the walk breaks at the content top or bottom of some element of the walk |
| Geometry.LowestCutUnique | src/main/java/org/fit/cssbox/pdf/PDFRenderer.java:962-1024 | each cut line is determined by the TREE, and lies above the requested line exactly when some non-element straddles it |
| Geometry.BreakNode | src/main/java/org/fit/cssbox/pdf/PDFRenderer.java:1044-1069 | one node of the third walk is kept, stretched or moved by `delta`, as `Action` decides; nothing else changes |
| Geometry.BreakNodes | src/main/java/org/fit/cssbox/pdf/PDFRenderer.java:1030-1070 | the third walk applies the break to exactly the nodes walked |
| Geometry.BoundaryBounds | src/main/java/org/fit/cssbox/pdf/PDFRenderer.java:1027 | the page boundary `pageHeight * ceil((line1 - 1) / pageHeight)` lies at or below `line1 - 1` and less than a page below it |
| Geometry.PagesCover | src/main/java/org/fit/cssbox/pdf/PDFOutput.java:99-104 | a document no taller than `w` pages is counted as at most `w` pages |
| Geometry.DeltaPositive | src/main/java/org/fit/cssbox/pdf/PDFRenderer.java:1027-1076 | a break inserts at least both paddings less one unit, plus the lift of the cut line, so it moves content strictly down |
| Geometry.ApplyBreakChanges | src/main/java/org/fit/cssbox/pdf/PDFRenderer.java:1044-1069 | a break leaves a node's links and payload alone; it leaves the node unchanged exactly when the node ends (less ten units) at or above `line2`; otherwise it adds `delta` to exactly one of offset and added height |
| Geometry.MovedStartsBelowBoundary | src/main/java/org/fit/cssbox/pdf/PDFRenderer.java:1027-1068 | a node at or below `line3` that is moved starts at least both paddings below the target page boundary |
| Geometry.CutTextMoves | src/main/java/org/fit/cssbox/pdf/PDFRenderer.java:1049-1068 | a non-element cut by `line2` that reaches more than ten units below it is moved |
| Geometry.ShortCutTextStays | src/main/java/org/fit/cssbox/pdf/PDFRenderer.java:1046-1051 | an illustration on one concrete text: a text that the line cuts but that ends less than ten units below the line stays in place, so the `- 10` tolerance lets it be cut |
| Geometry.CrossingTestsDisagree | src/main/java/org/fit/cssbox/pdf/PDFRenderer.java:1056-1059 | every element with children that starts above `line2`, ends more than ten units below it and whose offset-times-position plus stretch-times-height stays below `line2` (any element no break has touched) is moved by the pdf package's multiplying test and stretched by the render package's adding test |
| Paging.WaitingAfterAdopt | src/main/java/org/fit/cssbox/pdf/PDFRenderer.java:343-347 | attaching one waiting node and removing it from the list keeps the waiting list well-formed |
| Paging.WaitingAfterAppend | src/main/java/org/fit/cssbox/pdf/PDFRenderer.java:200-205 | a new parentless node appended to the waiting list keeps it well-formed |
| Paging.PDFRenderer.constructor | src/main/java/org/fit/cssbox/pdf/PDFRenderer.java:119-129 | empty TREE, LIST, waiting list and tables, the given height and the page count for it |
| Paging.PDFRenderer.OrderedWalk | src/main/java/org/fit/cssbox/pdf/PDFRenderer.java:478-489 | the breadth-first walk from the root visits exactly the TREE's nodes, each once, in `queueOpen` order |
| Paging.PDFRenderer.WalkTree | src/main/java/org/fit/cssbox/pdf/PDFRenderer.java:478-489 | the breadth-first walk from the root visits exactly the TREE's nodes, each once |
| Paging.PDFRenderer.InTreeMember | src/main/java/org/fit/cssbox/pdf/PDFRenderer.java:478-489 | a node reached from the root by parent links is in the TREE's node set |
| Paging.PDFRenderer.TreeSetIs | src/main/java/org/fit/cssbox/pdf/PDFRenderer.java:478-489 | the TREE has exactly one node set |
| Paging.PDFRenderer.FindNodeToInsert | src/main/java/org/fit/cssbox/pdf/PDFRenderer.java:461-491 | throws exactly when there is no TREE, or when the root's first child is needed and missing; null exactly when no node qualifies; a found node is a TREE node: the root's first child for a box with parent id 0 and own id not 0, else the recent node when it has the parent's id, else the recent node's parent when that has it, else the first node of the `queueOpen` walk with that id |
| Paging.PDFRenderer.FirstUnderRoot | src/main/java/org/fit/cssbox/pdf/PDFRenderer.java:466-467 | the root's first child is a TREE node and is not waiting |
| Paging.PDFRenderer.FindNear | src/main/java/org/fit/cssbox/pdf/PDFRenderer.java:469-475 | found exactly when the recent node or its parent has the parent's id, the recent node first |
| Paging.PDFRenderer.FindInWalk | src/main/java/org/fit/cssbox/pdf/PDFRenderer.java:477-490 | null exactly when no TREE node has the id; otherwise the first such node in walk order |
| Paging.PDFRenderer.StartTrees | src/main/java/org/fit/cssbox/pdf/PDFRenderer.java:185-193 | a box without parent starts a new TREE root and a LIST root referring to it; nothing else changes |
| Paging.PDFRenderer.Stage | src/main/java/org/fit/cssbox/pdf/PDFRenderer.java:200-205 | a homeless box becomes a new parentless node remembering its parent id, appended to the waiting list |
| Paging.PDFRenderer.AttachToTree | src/main/java/org/fit/cssbox/pdf/PDFRenderer.java:206-209 | the box is slotted below the found node and becomes the recent TREE node |
| Paging.PDFRenderer.AppendToList | src/main/java/org/fit/cssbox/pdf/PDFRenderer.java:211-212 | the box is slotted below the recent LIST node, refers to the recent TREE node, and becomes the recent LIST node |
| Paging.PDFRenderer.AttachAndList | src/main/java/org/fit/cssbox/pdf/PDFRenderer.java:206-212 | the found-parent branch: two new nodes, the TREE one below the found node, the LIST one below the old recent LIST node |
| Paging.PDFRenderer.WaitAndList | src/main/java/org/fit/cssbox/pdf/PDFRenderer.java:200-212 | the null-parent branch: a waiting TREE node and a LIST node referring to the old recent TREE node |
| Paging.PDFRenderer.PlaceBox | src/main/java/org/fit/cssbox/pdf/PDFRenderer.java:196-213 | a box with a parent: the NullPointerException cases exactly as `findNodeToInsert` throws, leaving the structures; otherwise two new nodes, the TREE one waiting exactly when homeless and otherwise below a node with the parent's id (or the root's first child) |
| Paging.PDFRenderer.Render | src/main/java/org/fit/cssbox/pdf/PDFRenderer.java:142-290 | the four `render*` handlers: markers are ignored in the render package; a box without parent starts the trees; any other box is placed as `PlaceBox` says |
| Paging.PDFRenderer.AttachWaiting | src/main/java/org/fit/cssbox/pdf/PDFRenderer.java:343-347 | the `i`-th waiting node is attached and removed from the waiting list; attached nodes stay attached |
| Paging.PDFRenderer.RetryWaiting | src/main/java/org/fit/cssbox/pdf/PDFRenderer.java:339-347 | one waiting node is attached when its parent is found; otherwise nothing changes and the node is still homeless |
| Paging.PDFRenderer.InsertionPass | src/main/java/org/fit/cssbox/pdf/PDFRenderer.java:334-348 | one pass over the waiting list as written (removal shifts the next node into the current slot, which the loop then skips); waiting nodes are only removed by being attached; a pass that attaches nothing leaves only homeless nodes |
| Paging.PDFRenderer.TryToInsertNotInsertedNodes | src/main/java/org/fit/cssbox/pdf/PDFRenderer.java:329-353 | passes repeat until one attaches nothing; every node still waiting is then homeless, and every removed one is attached |
| Paging.PDFRenderer.GetElementAbove | src/main/java/org/fit/cssbox/pdf/PDFRenderer.java:747-786 | the unique answer of `getElementAbove`, null for a null node, a root, or no candidate |
| Paging.PDFRenderer.GetElementBelow | src/main/java/org/fit/cssbox/pdf/PDFRenderer.java:793-837 | the unique answer of `getElementBelow` |
| Paging.PDFRenderer.GetFirstTop | src/main/java/org/fit/cssbox/pdf/PDFRenderer.java:845-891 | -1 for null, the node's own top without children, otherwise the highest considered top among its descendants |
| Paging.PDFRenderer.GetLastBottom | src/main/java/org/fit/cssbox/pdf/PDFRenderer.java:898-947 | the mirror image: the lowest considered bottom |
| Paging.PDFRenderer.LowestStraddleTop | src/main/java/org/fit/cssbox/pdf/PDFRenderer.java:962-992 | the cut line is the requested line raised to the highest top of a non-element that straddles it |
| Paging.PDFRenderer.ProbeElement | src/main/java/org/fit/cssbox/pdf/PDFRenderer.java:526-621 | the neighbour and extent answers one element's records need |
| Paging.PDFRenderer.ProbeAll | src/main/java/org/fit/cssbox/pdf/PDFRenderer.java:506-652 | those answers for every element of a walk |
| Paging.PDFRenderer.SetTables | src/main/java/org/fit/cssbox/pdf/PDFRenderer.java:540-643 | only the two tables change |
| Paging.PDFRenderer.WalkForTables | src/main/java/org/fit/cssbox/pdf/PDFRenderer.java:500-653 | no TREE: NullPointerException; otherwise the walk covers the TREE, and the tables gain the records of the walked nodes up to the first throwing node, if any |
| Paging.PDFRenderer.RecordsAlong | src/main/java/org/fit/cssbox/pdf/PDFRenderer.java:506-652 | the records of a given walk, inserted in walk order, stopping at the first throwing node |
| Paging.PDFRenderer.CreateBreakAvoidTables | src/main/java/org/fit/cssbox/pdf/PDFRenderer.java:500-653 | `createBreakAvoidTables` changes only the tables, as `WalkForTables` describes |
| Paging.PDFRenderer.CreateAndProcess | src/main/java/org/fit/cssbox/pdf/PDFRenderer.java:360-374 | the avoid table is the created one with wide records dropped and overlaps merged at 0.8 page; its records then no longer overlap |
| Paging.PDFRenderer.ApplyToTree | src/main/java/org/fit/cssbox/pdf/PDFRenderer.java:1030-1070 | the break applies to the walked TREE nodes and to nothing else |
| Paging.PDFRenderer.SetAfterBreak | src/main/java/org/fit/cssbox/pdf/PDFRenderer.java:1073-1076 | new tables and height; the page count follows the height |
| Paging.PDFRenderer.CutLines | src/main/java/org/fit/cssbox/pdf/PDFRenderer.java:962-1024 | `line2` is the line raised above non-elements it cuts, `line3` the same for `line2`, `line3 <= line2 <= line` |
| Paging.PDFRenderer.CommitBreak | src/main/java/org/fit/cssbox/pdf/PDFRenderer.java:1030-1076 | exactly the walked nodes change as `ApplyBreak` says; both tables move down by `delta`; the height grows by `delta / scale`; the page count follows |
| Paging.PDFRenderer.PlanBreak | src/main/java/org/fit/cssbox/pdf/PDFRenderer.java:956-1027 | the padding is taken off the line, both cut lines are computed over the whole TREE, and `delta` is positive and at least both paddings less one |
| Paging.PDFRenderer.BreakInRange | src/main/java/org/fit/cssbox/pdf/PDFRenderer.java:954-1076 | an in-range break moves the TREE, tables and height as `BrokeAt` relates old and new state |
| Paging.PDFRenderer.MakeBreakAt | src/main/java/org/fit/cssbox/pdf/PDFRenderer.java:949-1077 | a line outside the document changes nothing; with no TREE an in-range line throws; otherwise the break as `BrokeAt` describes; tables move down by a non-negative amount and the height never shrinks |
| Paging.PDFRenderer.AdvancePage | src/main/java/org/fit/cssbox/pdf/PDFRenderer.java:401 | the page end moves one page down |
| Paging.PDFRenderer.DropFirstBreak | src/main/java/org/fit/cssbox/pdf/PDFRenderer.java:428 | the first break record is removed |
| Paging.PDFRenderer.BreakAndAdvance | src/main/java/org/fit/cssbox/pdf/PDFRenderer.java:409-412 | a break at the given line, then the page end moves one page down |
| Paging.PDFRenderer.BreakAtAvoids | src/main/java/org/fit/cssbox/pdf/PDFRenderer.java:392-404 | the avoid scan: it finds a record exactly when some avoid record encloses the page end, and then moves the page end down; tables move down together |
| Paging.PDFRenderer.BreakBetweenRecords | src/main/java/org/fit/cssbox/pdf/PDFRenderer.java:388-414 | the first case: the page end moves at least one page down; both tables are only shifted |
| Paging.PDFRenderer.BreakAtFirstRecord | src/main/java/org/fit/cssbox/pdf/PDFRenderer.java:416-435 | the other two cases: the first break record is consumed, the rest shifted |
| Paging.PDFRenderer.PagingStep | src/main/java/org/fit/cssbox/pdf/PDFRenderer.java:384-435 | one iteration either advances the page end keeping every break record, or consumes the first break record |
| Paging.PDFRenderer.MakePaging | src/main/java/org/fit/cssbox/pdf/PDFRenderer.java:381-437 | the loop ends exactly when no break record is left and the page end is at or below the document's bottom; the pages walked then are at least the page count |
| Paging.PDFRenderer.Close | src/main/java/org/fit/cssbox/pdf/PDFRenderer.java:297-312 | steps B to D; when paging finishes, the tables are consumed and the pages walked cover the page count |
| Fonts.StringHash | src/main/java/org/fit/cssbox/pdf/FontCache.java:72 | `String.hashCode` is a 32-bit `int` |
| Fonts.HashCode | src/main/java/org/fit/cssbox/pdf/FontCache.java:67-76 | `CacheItem.hashCode` is a 32-bit `int` |
| Fonts.EqualItemsHashAlike | src/main/java/org/fit/cssbox/pdf/FontCache.java:67-93 | `equals` is structural equality, and equal items have equal hashes |
| Fonts.SameKey | src/main/java/org/fit/cssbox/pdf/FontCache.java:60-65 | two lookups hit the same item exactly when the families agree up to case and both flags agree |
| Fonts.FontCache.constructor | src/main/java/org/fit/cssbox/pdf/FontCache.java:37-40 | every lookup in a new cache misses |
| Fonts.FontCache.GetIgnoresCase | src/main/java/org/fit/cssbox/pdf/FontCache.java:42-45 | a lookup does not depend on the case of the family |
| Fonts.FontCache.Store | src/main/java/org/fit/cssbox/pdf/FontCache.java:47-50 | after `store`, every case variant of the family finds the font; every other key keeps its font |
| Fonts.Lead | src/main/java/org/fit/cssbox/pdf/FontDB.java:33 | `trim` cuts the characters up to U+0020 at the front |
| Fonts.Trail | src/main/java/org/fit/cssbox/pdf/FontDB.java:33 | the same at the back |
| Fonts.KeepLetters | src/main/java/org/fit/cssbox/pdf/FontDB.java:68 | `replaceAll("[^a-z]", "")` leaves only lower-case ASCII letters |
| Fonts.KeepLettersOfLetters | src/main/java/org/fit/cssbox/pdf/FontDB.java:68 | it keeps a string of letters as it is |
| Fonts.KeepLettersConcat | src/main/java/org/fit/cssbox/pdf/FontDB.java:68 | it works piecewise over concatenation |
| Fonts.LastIndexOf | src/main/java/org/fit/cssbox/pdf/FontDB.java:36 | `lastIndexOf('/')`: -1 or a position of the character with none after it |
| Fonts.TtfTail | src/main/java/org/fit/cssbox/pdf/FontDB.java:34-37 | a path ending in `.ttf` has no `/` among its last four characters |
| Fonts.BaseName | src/main/java/org/fit/cssbox/pdf/FontDB.java:36-37 | the file name without the directory and the `.ttf` extension: a slash-free piece that ends four characters before the end |
| Fonts.NormalizeName | src/main/java/org/fit/cssbox/pdf/FontDB.java:66-69 | a normalized name is all lower-case ASCII letters |
| Fonts.NormalizeIgnoresTrim | src/main/java/org/fit/cssbox/pdf/FontDB.java:68 | the `trim` in `normalizeName` makes no difference |
| Fonts.NormalizeIdempotent | src/main/java/org/fit/cssbox/pdf/FontDB.java:66-69 | normalizing twice is normalizing once |
| Fonts.NormalizeConcat | src/main/java/org/fit/cssbox/pdf/FontDB.java:57-60 | normalizing family and suffix together is normalizing each and concatenating |
| Fonts.PdfKey | src/main/java/org/fit/cssbox/pdf/FontDB.java:33-38 | a found file gets a key exactly when its trimmed path ends in `.ttf` (ignoring case); the key is all letters |
| Fonts.TableFromKeys | src/main/java/org/fit/cssbox/pdf/FontDB.java:31-41 | a key is in the table exactly when some found file has it |
| Fonts.TableFromLast | src/main/java/org/fit/cssbox/pdf/FontDB.java:38 | a later `put` with the same key wins |
| Fonts.PdfFontDB.constructor | src/main/java/org/fit/cssbox/pdf/FontDB.java:22-43 | the table is built from the found files in scan order |
| Fonts.PdfFontDB.FindFontURI | src/main/java/org/fit/cssbox/pdf/FontDB.java:45-64 | the file of the first style suffix, in the source's order, that hits the table after the normalized family, or null when none does |
| Fonts.FindFirst | src/main/java/org/fit/cssbox/pdf/FontDB.java:57-63 | the loop over candidates returns the first hit |
| Fonts.RenderKey | src/main/java/org/fit/cssbox/render/FontDB.java:35-40 | a found file gets a key exactly when its trimmed path ends in `.ttf`; the key is lower-case |
| Fonts.WithPrefix | src/main/java/org/fit/cssbox/render/FontDB.java:85-91 | exactly the names starting with the prefix, without duplicates |
| Fonts.RenderFontDB.constructor | src/main/java/org/fit/cssbox/render/FontDB.java:24-44 | the table is built from the found files in scan order, and all its names are lower-case |
| Fonts.RenderFontDB.FindNamesByFamily | src/main/java/org/fit/cssbox/render/FontDB.java:82-93 | exactly the table's names that start with the lower-cased family |
| Fonts.RenderFontDB.FindFontName | src/main/java/org/fit/cssbox/render/FontDB.java:55-80 | the result starts with the family and contains "bold" exactly when bold is asked for; italic prefers an "italic" name over an "oblique" one; upright avoids both; null exactly when no such name exists; the name picked is the first such one among the family's names of that weight in key order |
| Fonts.RenderFontDB.FindFontURI | src/main/java/org/fit/cssbox/render/FontDB.java:46-53 | the file of a name `findFontName` accepts, or null exactly when none qualifies |
| Fonts.ScanFonts | src/main/java/org/fit/cssbox/render/FontDB.java:29-44 | the scan builds the table, and the key list holds each key once |
| Fonts.RenderKeysLower | src/main/java/org/fit/cssbox/render/FontDB.java:40 | every key is lower-case |
| Fonts.DropOtherWeight | src/main/java/org/fit/cssbox/render/FontDB.java:58-63 | the iterator's in-place removal leaves `OfWeight`: exactly the names whose "bold" matches the request, in their original order |
| Fonts.OfWeight | src/main/java/org/fit/cssbox/render/FontDB.java:58-63 | a name is kept exactly when it is one of the names and contains "bold" exactly when bold is asked for |
| Fonts.FirstContaining | src/main/java/org/fit/cssbox/render/FontDB.java:66-71 | a name containing the word with no earlier name containing it, or null exactly when none does |
| Fonts.FirstUpright | src/main/java/org/fit/cssbox/render/FontDB.java:75-77 | a name with neither "italic" nor "oblique" and no earlier such name, or null exactly when none |
| Borders.Clamp | src/main/java/org/fit/cssbox/render/BorderRadius.java:62-65 | a radius is cut to at most half the side and never grows |
| Borders.Half | src/main/java/org/fit/cssbox/render/BorderRadius.java:62-65 | `bounds.width / 2` in `int` arithmetic: for a non-negative side, the largest half not above the exact half |
| Borders.Cut | src/main/java/org/fit/cssbox/render/BorderRadius.java:62-65 | both radii at most half the side and at most as asked |
| Borders.Even | src/main/java/org/fit/cssbox/render/BorderRadius.java:66-71 | a circular corner takes the smaller radius for both; another corner is left alone |
| Borders.Corner | src/main/java/org/fit/cssbox/render/BorderRadius.java:56-74 | an in-bounds corner is just scaled; a circular corner stays circular; an oversized elliptic radius becomes the scaled half side |
| Borders.BotLeftCorner | src/main/java/org/fit/cssbox/render/BorderRadius.java:113-131 | the bottom-left order (scale, then equalise) keeps a circular corner circular and treats an elliptic one like the other corners |
| Borders.CornerWithinBox | src/main/java/org/fit/cssbox/render/BorderRadius.java:56-74 | with a non-negative scale no radius exceeds the scaled half side or the scaled requested radius |
| Borders.BotLeftAgrees | src/main/java/org/fit/cssbox/render/BorderRadius.java:113-131 | with a non-negative scale the bottom-left order gives the same corner as the other three |
| Borders.RoundCorner | src/main/java/org/fit/cssbox/render/BorderRadius.java:56-131 | the step-by-step computation of one corner is `Corner` (or `BotLeftCorner`) |
| Borders.BorderRadius.constructor | src/main/java/org/fit/cssbox/render/BorderRadius.java:32-41 | all corners start square |
| Borders.BorderRadius.SetCornerRadius | src/main/java/org/fit/cssbox/render/BorderRadius.java:53-132 | each given corner becomes `Corner` of its radii (bottom-left: `BotLeftCorner`) for the half sides of the border bounds; each absent corner keeps its radii |
| Emission.GrandparentOf | src/main/java/org/fit/cssbox/render/PDFRenderer.java:1344 | missing exactly when the TREE reference, its parent or its grandparent is null |
| Emission.TextVerdictOf | src/main/java/org/fit/cssbox/render/PDFRenderer.java:1339-1356 | the text check throws exactly when the grandparent is missing, and draws only drawable text |
| Emission.DrawnIffSmallOverhang | src/main/java/org/fit/cssbox/render/PDFRenderer.java:1344-1353 | with a positive scale, a text is drawn exactly when it is drawable and overhangs its grandparent's right end by less than 0.6 of its width |
| Emission.InsideIsDrawn | src/main/java/org/fit/cssbox/render/PDFRenderer.java:1344-1355 | a drawable text of positive width ending inside its grandparent is drawn |
| Emission.BeyondIsSuppressed | src/main/java/org/fit/cssbox/render/PDFRenderer.java:1344-1350 | a text starting at or past its grandparent's right end is never drawn |
| Emission.BoundaryMonotone | src/main/java/org/fit/cssbox/render/PDFRenderer.java:2127-2128 | page boundaries grow with the page number |
| Emission.OnSomePage | src/main/java/org/fit/cssbox/render/PDFRenderer.java:2127-2133 | a text of non-negative height starting at or below the document top is not out of the page its top falls on |
| Emission.PagesConsecutive | src/main/java/org/fit/cssbox/render/PDFRenderer.java:2127-2133 | a text shown on pages `i` and `j` is shown on every page between them |
| Emission.PagesShowing | src/main/java/org/fit/cssbox/render/PDFRenderer.java:2122-2133 | the page loop (line 1150) keeps exactly the pages below `pageCount` where `insertText` does not reject the text, in increasing order |
| Emission.PagesRun | src/main/java/org/fit/cssbox/render/PDFRenderer.java:2127-2133 | those pages are consecutive numbers |

## Left out

- PDF output is not modelled. This covers `makePDF`, `writeAllElementsToPDF` beyond
  its text checks and corner radii, `PDFOutput` streams, drawing, fonts as PDFBox
  objects, gradients, filters and transforms. They are I/O through PDFBox.
- The gradient and filter helpers (`LinearGradient`, `RadialGradient`, `Filter`) and
  `PDFEngine` are not part of this model.
- Float arithmetic: all lengths are unbounded reals. Float rounding and
  `Float.MAX_VALUE` sentinels are not modelled.
  - The running minima of `getFirstTop`/`getLastBottom` are `Option`s, so a
    coordinate equal to `Float.MAX_VALUE` is not special.
  - The -2 of `getFirstTop` for a node whose walk finds nothing cannot occur: a node
    with children always has a walk.
- The layout engine is an input. Box kinds, ids, positions and sizes and the CSS
  page-break values arrive as `Box` values.
  - Positions are reals even where Java reads `Rectangle` ints.
  - The radii `CSSDecoder` computes arrive as `Lengths`, and a null `TermList`
    arrives as `None`.
  - The text visibility tests (`isEmpty`, `isVisible`, `isDeclaredVisible`,
    `isDisplayed`) arrive as the `drawable` flag.
  - The text's content top, height and offset for `insertText` arrive as values.
- `FontFileFinder.find()` is an input: the list of found files, in scan order.
- `HashMap` order: the render FontDB's `keySet()` iteration order is modelled as
  first-insertion order of the keys. Java's order is unspecified.
- Case mapping: `toLowerCase` is modelled on ASCII letters only. Java maps all of
  Unicode.
- `String.hashCode`: it runs over Dafny characters, not UTF-16 code units. Both agree
  on the Basic Multilingual Plane.
- Paging.PDFRenderer.MakePaging: runs at most `fuel` iterations. The source loop has
  no bound (a break can grow the document). The contract says what holds when the
  loop ends within the budget.
- Paging.PDFRenderer.Close: inherits that fuel bound. It states the outcome only for
  a finished paging; `makePDF` is left out.
- Paging.PDFRenderer.BreakAtAvoids: weaker than the source.
  - It states that a break happens exactly when some record of the avoid table as it
    was encloses the page end, and that every record moves by the total shift.
  - It does not name the later records the scan also breaks at, since each break
    moves the page end and the table.
- Paging.PDFRenderer.InsertionPass: weaker than the source.
  - It states that nodes leave the waiting list only by being attached, and that a
    pass that attaches nothing leaves only homeless nodes.
  - It does not say which nodes one pass attaches.
- Paging.PDFRenderer.PlaceBox: the contract names the new TREE node's parent by id
  (or as the root's first child), not by which of the candidates
  `findNodeToInsert` tries first. `FindNodeToInsert` states that order.
- The record probes (neighbours, first top, last bottom) are all computed for the
  TREE before any record is inserted. The source computes each while it walks; the
  walk inserts records but changes no node, so the answers are the same.
- `pageCount` is a field of the renderer in both packages. The pdf package keeps it
  in `PDFOutput.setRootHeight`; the formula is the same.
- `pageEnd` is a field of the renderer. In the pdf package it is a local of
  `makePaging`.
- Geometry.RenderConfig: requires a format height above 50 units, so that the two paddings
  add up to more than one unit and every break moves content down. Page formats are
  hundreds of units high.
- Borders.BotLeftAgrees: needs a non-negative `resCoef`. With a negative scale the
  bottom-left corner, which is scaled before it is equalised, differs from the
  others.
- Render markers: `renderMarker` of the render package does nothing, so `Render`
  leaves the state unchanged for markers there.
