# Accessibility-tree visualiser — verified model of the core

The visualiser takes a flat accessibility snapshot (Chrome DevTools Protocol
`AXNode` records linked by `parentId`) and turns it into a hierarchy. It draws
the hierarchy as a zoomable D3 tree, filters it by role, and highlights the
nodes that match a search. A second page walks the focusable links and buttons
in keyboard order. This project models the logic under the rendering:

- `tree_builder.dfy` — `buildTree` (lib/buildTree.ts). It makes two passes: it
  indexes the nodes by id, attaches each child, picks the first root, and
  fails with "No root accessibility node found.".
- `role_filter.dfy` — the `d3.hierarchy` children accessor, which prunes by
  role. It includes the explicit stack search of a child's subtree.
- `node_style.dfy` — `colorByRole`, the drawn-node filter, the circle stroke,
  and the label text and placement.
- `viewport.dfy` — the `fitToScreen` and `focusNode` transforms and the
  minimap size clamps and content scale. The transform is the state of the
  `ViewportController` class.
- `visualizer.dfy` — the main page: the role → enabled map (built, toggled,
  turned into the active set) and the search that computes the highlight set
  and the first node to focus.
- `keyboard_flow.dfy` — `buildTreeFromFlat`, where the last parentless node
  becomes the root and dangling nodes are dropped. It also has
  `getFocusableLinksAndButtons`: a recursive `dfs` that pushes onto a shared
  accumulator, modelled as a class.
- `ax_nodes.dfy`, `text.dfy`, `seqs.dfy` and `wrappers.dfy` hold the node
  records, the pre-order traversal, and the string and sequence helpers. The
  string helpers are ASCII lower-casing, substring search, JavaScript
  `trim()` and `slice(0, n)` (over Unicode characters, see "Left out").

Each optional string field of a record is a plain string, and "" stands for
"absent". The fields are `role.value`, `name.value` and `parentId`. Every use
in the source treats an absent value and "" alike. The builders keep the
hierarchy by id: a root id, the id → record map, and for each id the ids in
its `children` array in push order. The map's objects are shared, so an id
names its object exactly. The role filter and the focusable walk run over a
finite `AXNode` tree datatype.

Two behaviours of the code are worth spelling out, and the model follows the
code in both:
- `buildTree` has no separate check for an empty snapshot. With no nodes,
  `root` stays null, and lib/buildTree.ts:27 throws the same "No root
  accessibility node found." error as for a snapshot in which every node has
  a known parent.
- The comment at app/page.tsx:59 calls the search case-insensitive. Lines
  72-75 lower-case the role, the name and the query, but match the node id as
  it is. `Visualizer.IdMatchIsCaseSensitive` exhibits the difference.

## Model

| member | source | states |
|---|---|---|
| TreeBuilder.IndexById | lib/buildTree.ts:17-18 | the id map's keys are exactly the ids of the snapshot |
| TreeBuilder.IdsMember | lib/buildTree.ts:18 | an id is a key iff some node carries it |
| TreeBuilder.IndexPass | lib/buildTree.ts:17-18 | the first pass yields the id map and an empty child list for every id; app/keyboard-flow/page.tsx:13-14 runs the same pass |
| TreeBuilder.BuildTree | lib/buildTree.ts:16-29 | the two loops return exactly the specified result: root, id map and child lists, or NoRootFound |
| TreeBuilder.IndexHoldsLastOccurrence | lib/buildTree.ts:18 | for a duplicate id the map holds the last record in list order that carries it |
| TreeBuilder.FirstRootIsFirstUnresolved | lib/buildTree.ts:20-25 | the root is the first node whose parent is empty or unknown, and there is none iff every parent resolves |
| TreeBuilder.BuildFailsIffEveryParentResolves | lib/buildTree.ts:19-27 | it throws iff every node names a known non-empty parent; an empty snapshot throws |
| TreeBuilder.BuiltRootIsFirstUnresolved | lib/buildTree.ts:21-24 | the returned root is the first node in list order that does not resolve to a parent |
| TreeBuilder.ChildrenOfAt | lib/buildTree.ts:20-22 | node k adds its own id to p's children, at its place in input order, iff its parent resolves to p |
| TreeBuilder.ChildrenOfMember | lib/buildTree.ts:21-22 | an id is among p's children iff some node with that id names p as a resolving parent |
| TreeBuilder.ChildrenNameTheirParent | lib/buildTree.ts:18-22 | with unique ids, every child of p is a record whose parentId is p |
| TreeBuilder.UnresolvedNodesAreUnattached | lib/buildTree.ts:21-25 | with unique ids, a root candidate (the chosen root included) is in no child list |
| TreeBuilder.DuplicateIdBreaksParentLink | lib/buildTree.ts:18-22 | with a duplicated id, an id can sit in p's children while the map's record for it has no parent |
| TreeBuilder.ThreeNodeSnapshot | lib/buildTree.ts:16-29 | on the three-node example, the root is "1" with children ["2", "3"] |
| RoleFilter.SubtreeHasRoleIffSomeNode | components/ZoomableAXTree.tsx:128-140 | a subtree is relevant iff some node in it, itself included, has its role key in the set |
| RoleFilter.SubtreeHasRoleByStack | components/ZoomableAXTree.tsx:131-139 | the stack loop answers exactly whether the child's subtree holds a node with a selected role |
| RoleFilter.ChildrenAccessor | components/ZoomableAXTree.tsx:123-142 | the accessor returns exactly the specified kept children |
| RoleFilter.KeepRelevantSelects | components/ZoomableAXTree.tsx:128-140 | the filter keeps a subsequence of the children, and a child is kept iff its subtree is relevant |
| RoleFilter.KeptChildrenSelects | components/ZoomableAXTree.tsx:125-141 | an empty set keeps every child unchanged; otherwise the kept children keep their order and are exactly the relevant ones |
| RoleFilter.Prune | components/ZoomableAXTree.tsx:123 | the root is kept whatever its role |
| RoleFilter.EmptyRoleSetPrunesNothing | components/ZoomableAXTree.tsx:126 | with no role selected the hierarchy is the whole tree |
| RoleFilter.PruneKeepsMatchingNodes | components/ZoomableAXTree.tsx:123-142 | a node whose role is selected is never pruned, so nor is the path to it |
| RoleFilter.PruneKeepsOnlySnapshotNodes | components/ZoomableAXTree.tsx:123-142 | the filter only removes records: every record of the pruned hierarchy is a record of the snapshot |
| RoleFilter.PrunedDescendantsAreRelevant | components/ZoomableAXTree.tsx:128-140 | with a non-empty set, every kept non-root node has a selected role in its subtree |
| RoleFilter.PruneIdempotent | components/ZoomableAXTree.tsx:123-142 | filtering an already filtered tree changes nothing |
| RoleFilter.KeepAllRelevant | components/ZoomableAXTree.tsx:128-140 | children that are all relevant are kept as they are |
| RoleFilter.ThreeNodeFilter | components/ZoomableAXTree.tsx:123-142 | on the three-node example, filtering on "link" keeps node "2" and drops node "3" |
| NodeStyle.ColorByRole | components/ZoomableAXTree.tsx:26-27 | the fill is white iff the role is empty |
| NodeStyle.FirstHitFrom | components/ZoomableAXTree.tsx:29-35 | the row found is the first from k whose keyword the role contains, or past the end if none is |
| NodeStyle.ColorByRoleIsTableLookup | components/ZoomableAXTree.tsx:26-37 | for a non-empty role the if-chain returns the colour of the first keyword hit, or the fallback grey |
| NodeStyle.ColorIsFirstKeywordHit | components/ZoomableAXTree.tsx:26-37 | the fill is the colour of the first keyword in priority order that the lower-cased role contains, else the fallback grey |
| NodeStyle.PaletteColorsDistinct | components/ZoomableAXTree.tsx:27-36 | the nine colours are pairwise distinct, so the fill identifies the keyword that decided it |
| NodeStyle.DrawnNodes | components/ZoomableAXTree.tsx:181-184 | only snapshot records with a drawable role key (non-empty, not "generic", not "none") are drawn; with no role selected, every such record is drawn |
| NodeStyle.MatchingNodesAreDrawn | components/ZoomableAXTree.tsx:181-184 | a snapshot record with a drawable role key that is selected is drawn, whatever else the set holds |
| NodeStyle.DrawnNodesAreColoured | components/ZoomableAXTree.tsx:181-184 | a drawn node never gets the white no-role fill |
| NodeStyle.Stroke | components/ZoomableAXTree.tsx:199-206 | the outline is yellow and 4 wide iff the node is highlighted; otherwise it is 1 wide, grey iff the node is ignored, and white for a node neither highlighted nor ignored |
| NodeStyle.DisplayRole | components/ZoomableAXTree.tsx:214 | a non-empty role is shown unchanged, and an empty one is shown as "node" |
| NodeStyle.LabelText | components/ZoomableAXTree.tsx:213-219 | the label is the displayed role, then for a non-empty name a space and at most its first 28 characters (counted as Unicode characters) |
| NodeStyle.LabelPlacement | components/ZoomableAXTree.tsx:211-212 | the label sits at -12 anchored at its end iff the node shows children, else at 12 anchored at its start |
| Viewport.FitScale | components/ZoomableAXTree.tsx:65-69 | the fit scale is at most 1 and at most each padded ratio, and equals one of the three |
| Viewport.FitTransform | components/ZoomableAXTree.tsx:70-71 | the fit transform uses that scale and maps the box centre onto the canvas centre |
| Viewport.FitKeepsPaddedBoxInside | components/ZoomableAXTree.tsx:65-71 | after fitting, the drawing with half the padding on every side lies inside the canvas |
| Viewport.FindLayoutNode | components/ZoomableAXTree.tsx:82-83 | the lookup gives the first layout node with the id, and nothing iff no node has it |
| Viewport.FocusTransform | components/ZoomableAXTree.tsx:85-87 | the focus transform has scale 1.2 and maps the node onto the canvas centre |
| Viewport.ViewportController.FitToScreen | components/ZoomableAXTree.tsx:59-79 | unmounted or without a box nothing changes; otherwise the transform becomes the fit transform |
| Viewport.ViewportController.FocusNode | components/ZoomableAXTree.tsx:80-95 | an absent id or an unmounted view changes nothing; otherwise the node is centred at scale 1.2 |
| Viewport.MinimapWidth | components/ZoomableAXTree.tsx:249-250 | the minimap width is 0.12 of the width clamped to [180, 320]: 180 below, 320 above, the product in between |
| Viewport.MinimapHeight | components/ZoomableAXTree.tsx:249-251 | the minimap height is 0.12 of the height clamped to [120, 200]: 120 below, 200 above, the product in between |
| Viewport.MinimapMonotone | components/ZoomableAXTree.tsx:249-251 | a larger canvas never gives a smaller minimap |
| Viewport.MaxOf | components/ZoomableAXTree.tsx:279-281 | the maximum coordinate is absent iff the layout is empty, bounds every node, and is some node's coordinate |
| Viewport.Extent | components/ZoomableAXTree.tsx:279-281 | the extent is max(1, maximum), and 1 when there is no maximum |
| Viewport.MinimapContentScaleBounds | components/ZoomableAXTree.tsx:277-282 | every coordinate is within its extent, and the content scale is at most the minimap size over each extent |
| Text.Lower | app/page.tsx:72 | lower-casing keeps the length and maps each character |
| Text.ContainsAtOffset | app/page.tsx:75 | `includes` holds iff the needle occurs at some offset |
| Text.Trim | app/page.tsx:65 | the trimmed query is the slice of the query left after removing whitespace only, from both ends; it has no whitespace at either end, and is empty iff the query is all whitespace |
| Text.Take | components/ZoomableAXTree.tsx:216 | `slice(0, n)` is the prefix of min(n, length) characters, counted as Unicode characters |
| Visualizer.DistinctRoles | app/page.tsx:28-34 | the offered roles are non-empty and without repeats |
| Visualizer.DistinctRolesAreTheRoleKeys | app/page.tsx:28-34 | a role is offered iff it is the non-empty role key of some node |
| Visualizer.InitialRoleFilters | app/page.tsx:35-37 | the loop builds exactly the initial map |
| Visualizer.InitialFiltersEnableEveryRole | app/page.tsx:28-37 | the initial map's keys are the distinct non-empty role keys, all enabled |
| Visualizer.ToggleRole | app/page.tsx:86-88 | toggling negates only that entry (a missing one becomes true) and leaves the rest unchanged |
| Visualizer.ToggleTwice | app/page.tsx:86-88 | toggling an existing role twice restores the map; a new role ends up disabled |
| Visualizer.ActiveRoleSet | app/page.tsx:53-57 | the active set is exactly the non-empty keys whose value is true |
| Visualizer.EnabledRolesHaveNoEmptyKey | app/page.tsx:252-257 | the page never creates the empty key, so the filterRoles prop and the active set agree |
| Visualizer.Search | app/page.tsx:60-84 | the loop gives the specified highlight set, and a focus target iff the set is non-empty: the first match |
| Visualizer.CollectMatches | app/page.tsx:70-77 | the loop collects exactly the matching ids, and the set's insertion order starts with the first match |
| Visualizer.BlankQueryHighlightsNothing | app/page.tsx:61-69 | a missing snapshot, an empty query or an all-whitespace query highlights nothing |
| Visualizer.MatchingIdsMember | app/page.tsx:70-77 | an id is collected iff some node with that id matches |
| Visualizer.HighlightIffSomeNodeMatches | app/page.tsx:65-77 | for a non-blank query, an id is highlighted iff the role, the name (both lower-cased) or the raw id of some node with it contains the query; so only snapshot ids are highlighted |
| Visualizer.NonBlankQueryIsKept | app/page.tsx:65-66 | a query holding a non-whitespace character is non-empty after trimming and lower-casing, so it reaches the match loop |
| Visualizer.FirstMatchIsFirst | app/page.tsx:80-82 | the focus target is the id of the first matching node in list order, and there is one iff something matches |
| Visualizer.IdMatchIsCaseSensitive | app/page.tsx:74-75 | a node whose id has upper-case letters is not found by its own id |
| KeyboardFlow.BuildTreeFromFlat | app/keyboard-flow/page.tsx:12-27 | the loops return exactly the specified root, id map and child lists, or no tree |
| KeyboardFlow.LastParentlessIsLast | app/keyboard-flow/page.tsx:21-22 | the root candidate is the last node without a parent, and there is none iff every node names one |
| KeyboardFlow.FlatRootIsLastParentless | app/keyboard-flow/page.tsx:16-26 | it returns the last parentless node as root, or null iff every node names a parent; it never throws |
| KeyboardFlow.FlatChildrenNameTheirParent | app/keyboard-flow/page.tsx:18-20 | a node naming a known parent is pushed onto that parent's children, at its place in input order |
| KeyboardFlow.DanglingNodeIsDropped | app/keyboard-flow/page.tsx:18-21 | with unique ids, a node naming an unknown parent is never the root and in no child list |
| KeyboardFlow.BuildersAgreeOnWellFormedSnapshots | app/keyboard-flow/page.tsx:12-27 | with one parentless node and every other parent known, this builder and buildTree give the same tree |
| KeyboardFlow.DanglingOnlySnapshot | app/keyboard-flow/page.tsx:17-24 | a lone dangling node is buildTree's root but gives this page no tree |
| KeyboardFlow.FocusableCollector.Dfs | app/keyboard-flow/page.tsx:35-51 | the walk appends the subtree's focusable links and buttons, in pre-order, to the accumulator |
| KeyboardFlow.FocusableCollector.DfsChildren | app/keyboard-flow/page.tsx:50 | the children loop appends the focusables of each child subtree in order |
| KeyboardFlow.FocusablesSplit | app/keyboard-flow/page.tsx:42-50 | a node's focusables are itself, if it qualifies, then those of its children in order |
| KeyboardFlow.GetFocusableLinksAndButtons | app/keyboard-flow/page.tsx:32-55 | the result is exactly the focusable links and buttons of the tree in pre-order |
| KeyboardFlow.FilterFocusableSelects | app/keyboard-flow/page.tsx:42-48 | the selection is a subsequence, and a record is in it iff it is not ignored, carries focusable = true, and has role link or button |
| KeyboardFlow.FocusablesAreTheFocusableNodes | app/keyboard-flow/page.tsx:35-53 | the flow visits exactly the tree's focusable links and buttons, as a subsequence of the pre-order nodes |
| KeyboardFlow.FocusablesSurviveRoleFilter | app/keyboard-flow/page.tsx:45 | every node of the flow survives the role filter set to {link, button} |

## Left out

- The snapshot endpoint (app/api/accessibility/route.js) is not part of this model. It covers the browser launch, navigation, HTTP responses and cleanup.
- `fetch`, the JSON import, React state and effects, the `setTimeout` delays, the 700 ms playback loop, and the `window` custom events are left out. The search's delayed `focusNode` call is reduced to the id it would focus.
- The D3 tree layout, `getBBox`, the link paths and the zoom transitions are foreign code. Node positions and the bounding box are inputs.
- Transform formulas are over `real`, not IEEE doubles. The zoom's [0.1, 4] scale clamp applies only to user gestures and is not modelled.
- Presentational components (components/ui), the colour legend and the inspector panel are UI only.
- Text.Lower folds ASCII letters only, where `toLowerCase` folds all of Unicode.
- Text.Take counts Unicode characters, where JavaScript's `slice` counts UTF-16 code units. A character outside the Basic Multilingual Plane takes two code units, so for a name holding one the page keeps fewer characters than the model.
- NodeStyle.LabelText inherits this: its 28-character cut of the name differs from the page's 28-code-unit cut for names with characters outside the Basic Multilingual Plane.
- Roles are strings. A numeric `role.value`, where `toLowerCase` throws on the keyboard-flow page, is not modelled.
- RoleFilter.ChildrenAccessor: a node without a `children` array does not exist in the tree datatype, so the `[]` branch of line 125 coincides with an empty child list.
- Turning the builders' id graph into nested objects is not modelled. The filter and the focusable walk take a finite tree, so a self-referencing `parentId` cycle is out of reach of those two.
- KeyboardFlow.GetFocusableLinksAndButtons: a null root, on which the page would throw, is not modelled.
- TreeBuilder.ChildrenNameTheirParent: the parent link is proved only for unique ids, because with duplicates it fails (TreeBuilder.DuplicateIdBreaksParentLink).
- Viewport.MinimapContentScaleBounds: the bound is stated as scale ≤ size / extent, with every coordinate within its extent, rather than as the product coordinate × scale ≤ size.
