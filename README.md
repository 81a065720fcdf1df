# Task tree model

A Dafny model of the task-tree core of Task-Tree-Visualization, a browser app that
shows one tree of tasks in two views: a D3 diagram and a jsTree outline.

- **The task.** Each task has a name, a done flag (`status`), a completion `percent`, a
  description (`descricao`), a url, a `collapsed` flag and an ordered list of children.
- **Derived state.** Leaves take their percent from their status. Every internal node
  takes the unweighted mean of its children's percents, and counts as done when that
  mean reaches 100. The pass that computes this runs at the start of every `render()`.
- **Uids.** The views stamp a `_uid` on each node and find nodes by it.
- **Handlers.** The buttons, the diagram clicks, and the outline's context menu and
  events edit the tree: create a child, update, delete, move, rename, collapse.

The model is split into these modules:

- `TaskModel` (task_model.dfy):
  - the `Task` record;
  - the completion pass, as the function `Recomputed` and the loop `ComputePercent`
    proved against it.
- `PlainObject` (plain_object.dfy):
  - `plainObjectToTask` over a `Json` value, with `None` where the source throws;
  - the JSON snapshot that the export writes.
- `Identity` (identity.dfy):
  - `_uid` stamping from a counter (`Stamp`, and the method `AssignUids` proved
    against it), and `ensureNodeUid`;
  - the facts that make a uid name one node (`Stamped`, `Distinct`, `IssuedBy`).
- `Lookup` (lookup.dfy): `findByUid`, `findParentByUid`, and the identity-based
  `findParent`.
- `TreeEdit` (tree_edit.dfy): the in-place edits the handlers make on the one node
  they look up (`MapAt`), detaching (`Detach`) and re-inserting a node (`Relocate`).
- `Arena` (arena.dfy): the tree seen as a map from uid to a record with the node's
  fields and its list of child uids. "Nothing else changes", "siblings keep their
  order" and "one parent" are stated on this map.
- `Moves` (moves.dfy):
  - the outline drag (`move_node`), as written and corrected;
  - the diagram's move mode, with its ancestor walk as a loop.
- `Outline` (outline.dfy):
  - `toJsTree`, `escapeHtml` and the percent-column formatter;
  - the fallback rule of `notifyTreeChange`.
- `Controls` (workspace.dfy): the class `Workspace` holds the page's globals `data`,
  `selectedNode` and `moveMode` and the uid counter.
  - Each handler is a method that reassigns these fields and ends with `Render`.
  - The invariant `Valid()` says that every node is stamped, no uid occurs twice,
    every uid was issued by the counter, and percent and status agree with the leaf
    statuses.

Object identity (`===`, `!==`) is modelled by uids. While `Valid()` holds, a uid picks
out one node, so filtering children by identity and filtering them by uid agree. The
selection is held as a uid.

## Model

| member | source | states |
|---|---|---|
| TaskModel.NewTask | assets/js/task-model.js:1-11 | A task built from a name alone is not done, has percent 0, no children, empty description and url, is not collapsed and has no uid |
| TaskModel.ComputePercent | assets/js/task-model.js:13-30 | The loop over the children leaves the tree `Recomputed` gives and returns the percent it stored on the node |
| TaskModel.RecomputeEstablishesConsistency | assets/js/task-model.js:14-28 | After the pass every leaf has 100 or 0 from its status, every internal node the mean of its children's percents, and internal status is `percent >= 100` |
| TaskModel.ConsistentInRange | assets/js/task-model.js:14-27 | In a recomputed tree every stored percent lies in [0, 100] |
| TaskModel.ConsistentIsFixpoint | assets/js/task-model.js:13-30 | The pass leaves an already consistent tree unchanged |
| TaskModel.RecomputeIdempotent | assets/js/task-model.js:13-30 | Running the pass twice gives what running it once gives |
| TaskModel.RecomputeTouchesOnlyDerived | assets/js/task-model.js:13-30 | The pass changes only percents and internal statuses: names, descriptions, urls, collapse flags, uids, leaf statuses and child order are kept |
| TaskModel.RecomputeIgnoresDerivedInputs | assets/js/task-model.js:14-28 | The result does not depend on the percents or internal statuses the tree held before |
| TaskModel.FullPercentIffAllLeavesDone | assets/js/task-model.js:14-28 | A consistent node has percent 100 exactly when every leaf below it is done |
| TaskModel.StatusIffAllLeavesDone | assets/js/task-model.js:28 | A consistent node is done exactly when every leaf below it is done |
| TaskModel.HalfDoneExample | assets/js/task-model.js:19-28 | A done leaf and an open leaf give their parent 50 and status false |
| TaskModel.NestedDoneExample | assets/js/task-model.js:19-28 | Two done leaves make their parent 100 and done, and that parent's only parent 100 |
| Basics.MeanBounds | assets/js/task-model.js:27 | The mean of values in [lo, hi] lies in [lo, hi] |
| Basics.MeanAtMaximum | assets/js/task-model.js:27-28 | The mean of values at most hi reaches hi exactly when every value is hi |
| PlainObject.FromPlainFields | assets/js/task-model.js:32-43 | A falsy name, description or url becomes "" and a string one is kept; status and collapsed are coerced to booleans; a non-number percent becomes 0; no uid; the children keep their count and order |
| PlainObject.FromPlainFailures | assets/js/task-model.js:33 | null, a truthy non-array `children`, or one child anywhere that cannot be converted makes the whole conversion fail |
| PlainObject.FromPlainAllLength | assets/js/task-model.js:33 | A successful `map` gives one task per item, each the conversion of its item |
| PlainObject.FromPlainAllSucceeds | assets/js/task-model.js:33 | When every item converts, the `map` gives those tasks in order |
| PlainObject.FromPlainNoUids | assets/js/task-model.js:32-43 | A converted tree carries no uid anywhere |
| PlainObject.ExtraPropertyIgnored | assets/js/task-model.js:32-43 | A property other than the seven task fields, `_uid` among them, does not change the result |
| PlainObject.SnapshotRoundTrip | assets/export/export-diagram.js:9 | Converting the JSON snapshot of a tree gives back the tree without its uids |
| PlainObject.ImportExample | assets/js/task-model.js:32-43 | Importing a root with one done child and recomputing gives root and child 100 and the root done |
| Identity.AssignUids | assets/js/task-tree-jstree.js:7-18 | The recursive walk with its loop over the children leaves the tree and counter that `Stamp` describes |
| Identity.StampFacts | assets/js/task-tree-jstree.js:12-18 | Stamping gives every node a uid, keeps existing uids and every other field, never moves the counter back, and adds exactly the counter values it issued |
| Identity.StampKeepsDistinct | assets/js/task-tree-jstree.js:7-18 | Stamping a tree whose uids are distinct and already issued keeps them distinct: no two generated uids coincide and none collides with an old one |
| Identity.EnsureUid | assets/js/task-ui-controls.js:1-6 | A node with a uid is left as it is and the counter is untouched; otherwise only its uid is set, to the next counter value |
| Identity.EnsureUidIdempotent | assets/js/task-ui-controls.js:1-6 | Stamping a stamped node again changes neither the node nor the counter |
| Lookup.FindByUidIsFirstInPreOrder | assets/js/task-tree-jstree.js:20-29 | `findByUid` returns the first node in pre-order that carries the uid |
| Lookup.FindByUidFound | assets/js/task-tree-jstree.js:20-29 | A node is found exactly when the uid occurs in the tree, and the node found carries it and is in the tree |
| Lookup.FindUnique | assets/js/task-tree-jstree.js:20-29 | With distinct uids, the node found is the one node carrying the uid |
| Lookup.FindParentByUidSound | assets/js/task-tree-jstree.js:31-39 | A parent found is a node of the tree with a direct child carrying the uid |
| Lookup.FindParentByUidComplete | assets/js/task-tree-jstree.js:31-39 | With distinct uids, a node of the tree with a direct child carrying the uid is what is found |
| Lookup.RootHasNoParent | assets/js/task-tree-jstree.js:31-39 | The root's uid has no parent |
| Lookup.NoParentOutside | assets/js/task-tree-jstree.js:31-39 | A uid that is not in the tree has no parent |
| Lookup.FindParentSound | assets/js/task-render.js:9-17 | A parent `findParent` returns is a node of the tree whose children contain the target |
| Lookup.FindParentComplete | assets/js/task-render.js:9-17 | Every child of a node of the tree has a parent |
| Lookup.FindParentOfRoot | assets/js/task-render.js:9-17 | The root has no parent |
| Lookup.FindParentMatchesUid | assets/js/task-render.js:9-17 | With distinct uids, the identity search and the uid search find the same parent |
| TreeEdit.MapAtAbsent | assets/js/task-tree-jstree.js:411-412 | An edit through a uid that is not in the tree changes nothing |
| TreeEdit.WithoutOne | assets/js/task-tree-jstree.js:315 | Filtering out the one child carrying a uid removes exactly that child and keeps the others in order |
| TreeEdit.WithoutUndoesSplice | assets/js/task-tree-jstree.js:442-445 | Filtering by uid undoes a splice of a child whose uid no sibling carries |
| TreeEdit.SpliceAtEnd | assets/js/task-tree-jstree.js:445 | A splice at or past the end of the list appends |
| TreeEdit.ToggleTwice | assets/js/task-render.js:166-173 | Double-clicking a node twice restores the tree |
| TreeEdit.ToggleKeepsDerived | assets/js/task-render.js:168 | The toggle leaves the root's percent and status unchanged |
| Arena.ToggleKeepsDerivedEverywhere | assets/js/task-render.js:168 | The toggle keeps the same uids and the percent and status of every node, the toggled one included, and flips the toggled node's `collapsed` |
| TreeEdit.ToggleCommutesWithRecompute | assets/js/task-render.js:166-173 | Toggling then recomputing equals recomputing then toggling: the pass never reads `collapsed` |
| TreeEdit.RecomputeKeepsUids | assets/js/task-render.js:24 | The pass keeps every uid and every stamp |
| Arena.EditRecords | assets/js/task-tree-jstree.js:411-412 | Replacing the node found by a uid with its edited copy keeps the tree stamped with distinct uids, and the records become the old ones with the node's subtree swapped for the edited one |
| Arena.FieldEditRecords | assets/js/task-tree-jstree.js:406-416 | A field edit (rename, update, toggle) changes the one record of the node and no other, or nothing when the uid is absent |
| Arena.AddChildRecords | assets/js/task-tree-jstree.js:272-277 | Adding a child under the node carrying a uid adds the child's records and the child's uid to that node's kid list only; an absent uid changes nothing |
| Arena.DetachRecords | assets/js/task-tree-jstree.js:313-316 | Detaching drops the node's subtree from the records and its uid from the parent's kid list, other kids in order, and changes no other record |
| Arena.DetachNothing | assets/js/task-tree-jstree.js:307-316 | Detaching the root or an absent uid changes nothing |
| Arena.RelocateRecords | assets/js/task-tree-jstree.js:438-445 | Detaching a node and adding it under a node outside its subtree keeps the same uids, and changes only the kid lists of the old parent and of the destination |
| Arena.MovedHasOneParent | assets/js/task-render.js:127-132 | After such a move the destination is the node's one parent |
| Arena.ParentFromRecords | assets/js/task-tree-jstree.js:31-39 | A uid is in a record's kid list exactly when that record's node is the parent `findParentByUid` finds |
| Moves.TopLevelDragDuplicates | assets/js/task-tree-jstree.js:431-449 | The handler as written lets a node dragged out of the outline's top level appear twice (see Findings) |
| Moves.AsWrittenAgreesWithParent | assets/js/task-tree-jstree.js:431-449 | When `old_parent` is the node's real parent, the handler as written and the corrected drag agree |
| Moves.DragMoveFacts | assets/js/task-tree-jstree.js:431-449 | A drag keeps the tree stamped with distinct uids and the same uids. A drag of the root, onto a missing node or into its own subtree changes nothing. An allowed one changes only the two kid lists and leaves the drop target the node's one parent |
| Moves.RootDragAfterFirst | assets/js/task-tree-jstree.js:431-449 | After A was dragged to the top level, dragging the root R after A splices the root into its own children; on the value tree uid 1 appears twice (see Findings) |
| Moves.RootDragRefused | assets/js/task-tree-jstree.js:431-449 | The corrected drag leaves the tree unchanged when the node dragged is the root, wherever it is dropped |
| Moves.CorrectedDragKeepsDistinct | assets/js/task-tree-jstree.js:433-442 | The corrected drag keeps the uids distinct on the input where the handler as written duplicates |
| Moves.AncestorStep | assets/js/task-render.js:104-112 | The clicked node lies in the selected node's subtree exactly when it is that node or its parent does |
| Moves.RankStep | assets/js/task-render.js:111 | Each step of the walk reaches a parent strictly closer to the root, so the walk ends |
| Moves.AncestorWalk | assets/js/task-render.js:104-112 | The `while (cursor)` walk finds the selected node exactly when the clicked node is it or one of its descendants |
| Moves.DiagramMoveFacts | assets/js/task-render.js:96-140 | A move happens exactly when the selected node is in the tree, is not the root and the target is outside its subtree; every refusal leaves the tree as it was; a move keeps the tree stamped with distinct and the same uids, detaches the node and appends it under the target, changes only the two kid lists and leaves the target its one parent |
| Outline.EscapeHtmlIsPerChar | assets/js/task-tree-jstree.js:46-53 | Because `&` is replaced first, the five passes equal escaping each character once |
| Outline.EscapedHasNoSpecials | assets/js/task-tree-jstree.js:46-53 | No raw `<`, `>`, `"` or `'` is left |
| Outline.EscapeRoundTrip | assets/js/task-tree-jstree.js:46-53 | Reading the five entities back gives the original text |
| Outline.OutlineRoundTrip | assets/js/task-tree-jstree.js:74-92 | The outline node tree mirrors the task tree one to one: reading it back gives the tree |
| Outline.OutlineListing | assets/js/task-tree-jstree.js:74-92 | Listed parent first, the outline built from a tree is the tree's own listing with each task replaced by its outline node |
| Outline.OutlineShows | assets/js/task-tree-jstree.js:74-92 | The outline has one node per task, in the same parent-first order, and every node i has the uid of task i as id and its name as text, is open exactly when the task is not collapsed, is green exactly when it is done, carries its percent, status, description and url, and has as many children |
| Outline.OutlineIdsOfTree | assets/js/task-tree-jstree.js:74-92 | An outline built from the tree has a node for a uid exactly when the uid is in the tree |
| Outline.FormatPercentBounds | assets/js/task-tree-jstree.js:213-219 | The label is an integer in [0, 100]: missing and NaN give 0, values are clamped, and an in-range value gives the nearest integer |
| Outline.FormatWholePercent | assets/js/task-tree-jstree.js:213-219 | A whole percent in range prints as itself |
| Outline.FormatPercentMonotone | assets/js/task-tree-jstree.js:213-219 | A larger value never prints a smaller label |
| Outline.NotifyOutcomes | assets/js/task-ui-controls.js:8-25 | For the given uid, else the selected one. Nothing happens exactly when the outline is not up: the branch sync fails (task-tree-jstree.js:129-136) and the full refresh it falls back to returns early on the same guards (task-tree-jstree.js:94-101). While the outline is up, it is rebuilt exactly when there is no uid or the uid is not in the tree (task-tree-jstree.js:138-139). Otherwise the branch sync reports success, and it redraws the branch exactly when the outline has a node with that id; when the outline has none, nothing is redrawn and no refresh follows (task-tree-jstree.js:141-143) |
| Outline.NotifyCurrentOutline | assets/js/task-ui-controls.js:8-25 | With an outline built from the current tree, a sync that reports success always redraws something; when the outline is also up, a notification always redraws the branch or rebuilds the outline |
| Outline.NotifyStaleOutline | assets/js/task-tree-jstree.js:129-143 | With an outline drawn before a child was added, a notification about the child reports success and redraws nothing |
| Controls.NewFolder | assets/js/task-tree-jstree.js:272 | The Create subfolder node is "New folder", not done, percent 0, no children, empty fields, expanded, with the given uid |
| Controls.UpdateDecidesLeaf | assets/js/task-ui-controls.js:142-155 | The name becomes the input or stays when it is empty; the description becomes the input. On a leaf the checkbox decides status and percent. On a node with children the status is left to the pass, and a refused change keeps it |
| Controls.CreateChildLast | assets/js/task-ui-controls.js:104-109 | The new child becomes the last child of the node, its record is its own, and every other record is unchanged |
| Controls.DetachIdempotent | assets/js/task-tree-jstree.js:313-318 | The remove action's filter followed by the `delete_node` event's filter is one filter |
| Controls.Workspace.Render | assets/js/task-render.js:19-24 | `render` replaces the tree with its recomputed form |
| Controls.Workspace.Load | assets/js/task-data-load.js:16-45 | The fetched JSON converted, or `Task("Project")` when the fetch or conversion fails, stamped and recomputed, with no selection and move mode off; the invariant holds |
| Controls.Workspace.Import | assets/export/export-panel.js:22-37 | A parse or conversion failure changes nothing. Otherwise the converted tree is stamped and recomputed and replaces the old one, and the selection is cleared |
| Controls.Workspace.CreateChild | assets/js/task-ui-controls.js:102-137 | No selection: nothing changes. Otherwise a `Task("Task")` with a fresh uid is appended under the selected node, the tree recomputed and the invariant kept |
| Controls.Workspace.UpdateSelected | assets/js/task-ui-controls.js:139-161 | No selection or a selection no longer in the tree: nothing changes. Otherwise the update edit is applied to the selected node, a status change on a node with children is reported as refused, and the invariant is kept |
| Controls.Workspace.Delete | assets/js/task-ui-controls.js:163-180 | The root is refused. A selection in the tree is detached from its parent and cleared. Otherwise nothing changes. The invariant is kept |
| Controls.Workspace.BeginMove | assets/js/task-ui-controls.js:182-192 | Move mode is entered exactly when a node other than the root is selected |
| Controls.Workspace.MoveSelected | assets/js/task-render.js:96-140 | The move branch of the click handler does what `DiagramMove` describes and keeps the invariant |
| Controls.Workspace.ClickNode | assets/js/task-render.js:95-165 | In move mode with a selection, the move branch; otherwise the clicked node is selected and the tree unchanged; move mode is off afterwards on every path |
| Controls.Workspace.SelectFromOutline | assets/js/task-tree-jstree.js:388-403 | A uid found in the tree becomes the selection; one not found changes nothing |
| Controls.Workspace.ToggleNode | assets/js/task-render.js:166-173 | The node's `collapsed` flag is flipped, the tree recomputed and the invariant kept |
| Controls.Workspace.CreateSubfolder | assets/js/task-tree-jstree.js:266-291 | A uid is always issued; the "New folder" node is appended under the parent when it is in the tree; the invariant is kept |
| Controls.Workspace.RenameNode | assets/js/task-tree-jstree.js:406-416 | The node carrying the uid gets the new name, the tree is recomputed and the invariant kept |
| Controls.Workspace.DeleteNodeEvent | assets/js/task-tree-jstree.js:419-428 | The node carrying the uid is detached from the parent `findParentByUid` finds, and the invariant is kept |
| Controls.Workspace.RemoveAction | assets/js/task-tree-jstree.js:300-320 | The root is refused and nothing changes; otherwise the node is detached once, the second detach of the `delete_node` event doing nothing |
| Controls.Workspace.MoveNodeEvent | assets/js/task-tree-jstree.js:431-449 | A drag in the outline does what the corrected `DragMove` describes, and the invariant is kept |

## Left out

- Rendering: the D3 layout, the outline's DOM (`create_node`, `refresh`, `redraw_node`, the context-menu capture handler) and the percent cell's HTML are left out. They are drawing and foreign library calls. The outline's state enters `NotifyTreeChange` as two parameters: whether it is up, and the ids it has nodes for.
- I/O: the `fetch` of the task file, `FileReader`, `JSON.parse` and the export downloads are not modelled. The fetched or parsed value (or its absence) is a parameter of `Load` and `Import`.
- `normalizeHttpUrl` and the url column depend on the WHATWG URL parser and are not modelled.
- The `update_cell.jstree-table` handler is not modelled. It writes any column, percent included, and bypasses the checks.
- `openEditor`, `setupControlsDrag`/`clamp` and the view switching are UI glue and are not modelled.
- Uid generation: `Date.now()`, `Math.random()` and the two generators (`generateUid` and the stamp of `ensureNodeUid`) are modelled as one counter that starts at a clock parameter. The source's `ensureNodeUid` does not guarantee unique ids; the model's counter does.
- Stamping: the source stamps lazily, when the outline is built or a node is opened. The model stamps at load and import, and keeps every node stamped.
- Object identity and aliasing: a node object kept in `selectedNode` after the outline removed it is detached from the tree. The model keeps the selection as a uid, and an edit through a uid that is no longer in the tree changes nothing.
- Controls.Workspace.ClickNode: the source's guard `d !== selectedNode` compares a fresh hierarchy node with the stored selection, so it always holds. The model omits it.
- Moves.MoveNodeAsWritten: when the moved uid is not found, the source splices `null` into the new parent's children. The model leaves the tree as the filter left it.
- Moves.DragMove: with `check_callback: true` (task-tree-jstree.js:197) jsTree refuses only a drop that changes nothing or lands in the dragged node's own subtree. The corrected drag refuses, by its own choice, a drag of the root as well, and changes nothing then.
- Moves.MoveNodeAsWritten: when the data root itself is dragged (possible once a second node shows at the outline's top level), the source splices the root object into its own children, a cycle. The `render` that follows recurses through it in `computePercentFromStatus` (task-model.js:22-23, task-render.js:24) until the stack overflows; the handler catches and logs that error, and every later render fails the same way. The value tree cannot hold a cycle, so the model nests a copy of the root instead.
- Controls.Workspace.Import: the source clears only `window.selectedNode` (export-panel.js:27). `render` then falls back to the module's own `selectedNode` (task-render.js:22), which still holds the old tree's node. The model clears the selection outright.
- Controls.Workspace.CreateSubfolder: when the parent is not found, the source throws after issuing the uid and the outline still gets a node. The model issues the uid and leaves the tree unchanged.
- PlainObject.FromPlain: a truthy name, description or url that is not a string (a number, say) is kept as is by the source. The model's fields are strings, so it becomes "". In the source such a name makes `render` throw at `d.data.name.split` (task-render.js:226). On load the throw inside the `.then` sends the page to the `.catch`, which falls back to `Task("Project")` (task-data-load.js:16-45). On import `window.data` is already replaced when the error is reported (export-panel.js:26). The model instead loads or imports the tree with those names as "".
- TaskModel.Recomputed: percent is an exact `real` mean, not a double. A node whose `children` property is missing counts as a leaf in the source; the model always has a child list.
- Concurrency between the asynchronous load and user events is not modelled: each handler runs to completion.

## Findings

| source | as written | input that shows it | evidently intended | confidence | as-written member | corrected member |
|---|---|---|---|---|---|---|
| assets/js/task-tree-jstree.js:433-442 | The `move_node` handler filters the node out of `old_parent` only. When `old_parent` is the outline's top level `'#'`, nothing is filtered. A node dropped beside the root is spliced into the root's children at its top-level position, but the outline shows it at the top level, so dragging it again leaves the old copy in place | Root R with leaves A and B. Drag A to the top level, then drag it into B: A ends up both under R and under B | Detach the node from the parent it really has in the data, found by uid as the remove action does, then splice it under the drop target | not executed | Moves.MoveNodeAsWritten, Moves.TopLevelDragDuplicates | Moves.DragMove, Moves.DragMoveFacts, Moves.CorrectedDragKeepsDistinct |
| assets/js/task-tree-jstree.js:431-445 | With a second node at the outline's top level, the root itself can be dragged. The handler finds it as `movedObj`, takes `window.data` as the new parent for the top level, and splices the root into its own children | Root R with leaves A and B. Drag A to the top level, then drag R after A: R becomes its own child | A top-level drop places the node under the data root, so the root itself is never moved | not executed | Moves.MoveNodeAsWritten, Moves.RootDragAfterFirst | Moves.DragMove, Moves.RootDragRefused |
